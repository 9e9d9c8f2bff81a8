/** `where(conditions)`: the constraint attached to a named identifier. A string condition is
    the pattern itself, an array is its alternatives joined with `|`, and any other value is
    turned into text and trimmed; the two builds of the router trim differently. */
module Conditions {
  import opened Runtime
  import opened Strings
  import opened Identifiers

  /** A condition value, as far as `where` distinguishes it. `Other(shown)` is an object
      whose `toString()` gives `shown` (a regular expression shows as `/body/flags`);
      `Nothing` is `null` or `undefined`, on which `toString()` throws. */
  datatype Condition = Text(s: string) | Alternatives(items: seq<string>) | Other(shown: string) | Nothing

  /** The two builds: the CommonJS sources and the bundled browser build. */
  datatype Build = Lib | Dist

  /** The line terminators of ECMAScript, which `.` does not match. */
  predicate IsLineTerminator(c: char) {
    c == '\n' || c == '\r' || c == '\U{2028}' || c == '\U{2029}'
  }

  predicate SingleLine(s: string) {
    forall i :: 0 <= i < |s| ==> !IsLineTerminator(s[i])
  }

  /** `shown.replace(/^\^?(.*)\$?$/, '$1')`. The greedy `.*` reaches the end exactly when the
      text is a single line, and then takes any trailing `$` too, so a match removes only a
      leading `^`; a text with a line terminator is not matched and stays as it is. */
  function LibStrip(shown: string): (r: string)
    ensures SingleLine(shown) && |shown| > 0 && shown[0] == '^' ==> r == shown[1..]
    ensures !(SingleLine(shown) && |shown| > 0 && shown[0] == '^') ==> r == shown
  {
    if SingleLine(shown) && |shown| > 0 && shown[0] == '^' then shown[1..] else shown
  }

  /** `^\^?(.*)\$?$` matches all of `s` with the group spanning `c..e`: an optional `^`
      before it, an optional `$` after it, and no line terminator inside it. */
  predicate StripSplit(s: string, c: nat, e: nat) {
    && c <= 1 && (c == 1 ==> |s| > 0 && s[0] == '^')
    && c <= e <= |s| && |s| <= e + 1 && (e < |s| ==> s[e] == '$')
    && SingleLine(s[c..e])
  }

  /** The split the backtracking engine settles on: the greedy `\^?` first, then the
      greedy `.*`. */
  ghost predicate FirstSplit(s: string, c: nat, e: nat) {
    && StripSplit(s, c, e)
    && forall c': nat, e': nat :: StripSplit(s, c', e') ==> c' < c || (c' == c && e' <= e)
  }

  /** The replacement keeps the group of the match and nothing else: a text of one line is
      matched, so it keeps the group of the first split, and any other text is not matched
      and stays as it is. */
  lemma LibStripMatch(shown: string)
    ensures SingleLine(shown) <==> exists c: nat, e: nat :: StripSplit(shown, c, e)
    ensures SingleLine(shown) ==> exists c: nat, e: nat :: FirstSplit(shown, c, e)
    ensures forall c: nat, e: nat :: FirstSplit(shown, c, e) ==> LibStrip(shown) == shown[c..e]
    ensures !SingleLine(shown) ==> LibStrip(shown) == shown
  {
    var n := |shown|;
    if SingleLine(shown) {
      var c0: nat := if n > 0 && shown[0] == '^' then 1 else 0;
      assert SingleLine(shown[c0..n]) by {
        forall i | 0 <= i < n - c0
          ensures !IsLineTerminator(shown[c0..n][i])
        {
          assert shown[c0..n][i] == shown[c0 + i];
        }
      }
      assert StripSplit(shown, c0, n);
      assert FirstSplit(shown, c0, n);
      forall c: nat, e: nat | FirstSplit(shown, c, e)
        ensures LibStrip(shown) == shown[c..e]
      {
        assert c == c0 && e == n;
      }
    } else {
      var j :| 0 <= j < n && IsLineTerminator(shown[j]);
      forall c: nat, e: nat | StripSplit(shown, c, e)
        ensures false
      {
      }
    }
  }

  /** `shown.replace(/^\/\^?/, '')`: a leading `/`, with a `^` right after it. */
  function DropOpening(shown: string): string {
    if |shown| > 0 && shown[0] == '/' then
      if |shown| > 1 && shown[1] == '^' then shown[2..] else shown[1..]
    else shown
  }

  predicate IsFlag(c: char) {
    c == 'g' || c == 'i' || c == 's'
  }

  /** `\$?\/[gis]?$` matches at offset `k` of `t`: an optional `$`, a `/` and an optional flag
      that end the text. */
  predicate ClosesAt(t: string, k: nat) {
    || (k + 2 <= |t| && t[k] == '$' && t[k + 1] == '/'
        && (k + 2 == |t| || (k + 3 == |t| && IsFlag(t[k + 2]))))
    || (k + 1 <= |t| && t[k] == '/' && (k + 1 == |t| || (k + 2 == |t| && IsFlag(t[k + 1]))))
  }

  /** The leftmost offset where the closing expression matches; a match ends the text, so
      only the last three offsets can qualify. */
  function Closing(t: string): (r: Option<nat>)
    ensures r.Some? ==> r.value < |t| && ClosesAt(t, r.value)
                        && forall j :: 0 <= j < r.value ==> !ClosesAt(t, j)
    ensures r.None? ==> forall j :: 0 <= j <= |t| ==> !ClosesAt(t, j)
  {
    var n := |t|;
    if n >= 3 && ClosesAt(t, n - 3) then Some(n - 3)
    else if n >= 2 && ClosesAt(t, n - 2) then Some(n - 2)
    else if n >= 1 && ClosesAt(t, n - 1) then Some(n - 1)
    else None
  }

  /** `shown.replace(/^\/\^?/, '').replace(/\$?\/[gis]?$/, '')`. */
  function DistStrip(shown: string): string {
    var t := DropOpening(shown);
    match Closing(t)
    case None => t
    case Some(k) => t[..k]
  }

  /** A body without its anchors: one leading `^` and one trailing `$` removed. */
  function Unanchored(body: string): string {
    var b := if |body| > 0 && body[0] == '^' then body[1..] else body;
    if |b| > 0 && b[|b| - 1] == '$' then b[..|b| - 1] else b
  }

  /** On the text of a regular expression literal, `/body/` with at most one flag among
      `g`, `i` and `s`, the bundled build keeps the body without its anchors. */
  lemma DistStripLiteral(body: string, flags: string)
    requires flags == "" || (|flags| == 1 && IsFlag(flags[0]))
    ensures DistStrip("/" + body + "/" + flags) == Unanchored(body)
  {
    var b := if |body| > 0 && body[0] == '^' then body[1..] else body;
    OpeningLiteral(body, flags);
    ClosingLiteral(b, flags);
  }

  /** With any other flags (two or more, or one outside `g`, `i` and `s`) the closing
      expression finds nothing: only the opening `/` and `^` go, and the closing `/`, the
      flags and any `$` stay in the pattern. */
  lemma DistStripFlagged(body: string, flags: string)
    requires |flags| >= 2 || (|flags| == 1 && !IsFlag(flags[0]))
    requires forall i :: 0 <= i < |flags| ==> flags[i] != '/'
    ensures var b := if |body| > 0 && body[0] == '^' then body[1..] else body;
            DistStrip("/" + body + "/" + flags) == b + "/" + flags
  {
    var b := if |body| > 0 && body[0] == '^' then body[1..] else body;
    OpeningLiteral(body, flags);
    var t := b + "/" + flags;
    var n := |t|;
    assert t[n - 1] == flags[|flags| - 1];
    if |flags| >= 2 {
      assert t[n - 2] == flags[|flags| - 2];
    } else {
      assert t[n - 2] == '/';
    }
    assert Closing(t) == None;
  }

  /** The opening `/` of a literal goes, with the `^` right after it. */
  lemma OpeningLiteral(body: string, flags: string)
    ensures var b := if |body| > 0 && body[0] == '^' then body[1..] else body;
            DropOpening("/" + body + "/" + flags) == b + "/" + flags
  {
    var shown := "/" + body + "/" + flags;
    var b := if |body| > 0 && body[0] == '^' then body[1..] else body;
    var t := b + "/" + flags;
    if |body| > 0 && body[0] == '^' {
      assert shown[2..] == t;
    } else {
      assert shown[1] == if |body| > 0 then body[0] else '/';
      assert shown[1..] == t;
    }
  }

  /** The closing `/` of a literal goes, with its flag and the `$` right before it. */
  lemma ClosingLiteral(b: string, flags: string)
    requires flags == "" || (|flags| == 1 && IsFlag(flags[0]))
    ensures var t := b + "/" + flags;
            var k := if |b| > 0 && b[|b| - 1] == '$' then |b| - 1 else |b|;
            Closing(t) == Some(k) && t[..k] == (if k < |b| then b[..k] else b)
  {
    var t := b + "/" + flags;
    var n := |t|;
    if |b| > 0 && b[|b| - 1] == '$' {
      var k := |b| - 1;
      assert ClosesAt(t, k);
      assert Closing(t) == Some(k);
      assert t[..k] == b[..k];
    } else {
      var k := |b|;
      assert ClosesAt(t, k);
      if flags == "" {
        assert n >= 3 ==> !ClosesAt(t, n - 3);
        assert n >= 2 ==> !ClosesAt(t, n - 2);
      } else {
        assert n >= 3 ==> !ClosesAt(t, n - 3);
      }
      assert t[..k] == b;
    }
  }

  /** The pattern a condition gives, or the error computing it throws. */
  function PatternOf(build: Build, cond: Condition): (r: Outcome<string>)
    ensures cond.Text? ==> r == Return(cond.s)
    ensures cond.Alternatives? ==> r == Return(Join(cond.items, '|'))
    ensures cond.Nothing? <==> r.Throw?
  {
    match cond
    case Text(s) => Return(s)
    case Alternatives(items) => Return(Join(items, '|'))
    case Other(shown) => Return(if build == Lib then LibStrip(shown) else DistStrip(shown))
    case Nothing => Throw(TypeError)
  }

  predicate Named(ids: seq<Ident>, n: string) {
    exists j :: 0 <= j < |ids| && ids[j].name == n
  }

  /** The record `ident.pattern = pattern; ident.regex = new RegExp('^' + pattern + '$')`
      leaves behind. */
  function Constrained(id: Ident, pattern: string): Ident {
    id.(pattern := pattern, regex := Anchored(pattern))
  }

  /** One condition applied: the record reached through `identsByName[name]` is the one at
      the last offset of the name, so that record is rewritten; an unknown name throws. */
  function ConditionStep(build: Build, ids: seq<Ident>, name: string, cond: Condition): (r: Outcome<seq<Ident>>)
    ensures r.Return? ==> |r.value| == |ids|
  {
    match PatternOf(build, cond)
    case Throw(e) => Throw(e)
    case Return(pattern) =>
      if !Named(ids, name) then Throw(TypeError)
      else
        var i := LastIndex(ids, name);
        Return(ids[i := Constrained(ids[i], pattern)])
  }

  /** The records after the conditions are applied in order, and the error that stopped the
      loop if one did; the records rewritten before an error stay rewritten. */
  function Conditioned(build: Build, ids: seq<Ident>, conds: seq<(string, Condition)>): (seq<Ident>, Option<Error>)
    decreases |conds|
  {
    if conds == [] then (ids, None)
    else
      match ConditionStep(build, ids, conds[0].0, conds[0].1)
      case Throw(e) => (ids, Some(e))
      case Return(ids') => Conditioned(build, ids', conds[1..])
  }

  /** Applying a condition keeps every name and rewrites only the index entry of its own
      name: the identifiers not named keep their records. */
  lemma ConditionStepIndex(build: Build, ids: seq<Ident>, name: string, cond: Condition)
    requires ConditionStep(build, ids, name, cond).Return?
    ensures var ids' := ConditionStep(build, ids, name, cond).value;
            && (forall j :: 0 <= j < |ids| ==> ids'[j].name == ids[j].name)
            && name in ByName(ids)
            && ByName(ids') == ByName(ids)[name := Constrained(ByName(ids)[name], PatternOf(build, cond).value)]
  {
    var i := LastIndex(ids, name);
    ByNameAt(ids, name);
    ByNameUpdate(ids, i, Constrained(ids[i], PatternOf(build, cond).value));
  }

  /** The loop stops with an error exactly when a condition is `null`/`undefined` or names
      no identifier of the template, and it then reports a TypeError. */
  lemma {:induction false} ConditionedFails(build: Build, ids: seq<Ident>, conds: seq<(string, Condition)>)
    ensures Conditioned(build, ids, conds).1.Some? <==>
              exists k :: 0 <= k < |conds| && (conds[k].1.Nothing? || !Named(ids, conds[k].0))
    ensures Conditioned(build, ids, conds).1.Some? ==> Conditioned(build, ids, conds).1.value == TypeError
    decreases |conds|
  {
    if conds != [] {
      var step := ConditionStep(build, ids, conds[0].0, conds[0].1);
      if step.Return? {
        var ids' := step.value;
        ConditionStepIndex(build, ids, conds[0].0, conds[0].1);
        ConditionedFails(build, ids', conds[1..]);
        forall n
          ensures Named(ids', n) <==> Named(ids, n)
        {
          if Named(ids, n) {
            var j :| 0 <= j < |ids| && ids[j].name == n;
            assert ids'[j].name == n;
          }
          if Named(ids', n) {
            var j :| 0 <= j < |ids'| && ids'[j].name == n;
            assert ids[j].name == n;
          }
        }
        if exists k :: 0 <= k < |conds| && (conds[k].1.Nothing? || !Named(ids, conds[k].0)) {
          var k :| 0 <= k < |conds| && (conds[k].1.Nothing? || !Named(ids, conds[k].0));
          assert k != 0;
          assert conds[1..][k - 1] == conds[k];
        }
        if exists k :: 0 <= k < |conds| - 1 && (conds[1..][k].1.Nothing? || !Named(ids', conds[1..][k].0)) {
          var k :| 0 <= k < |conds| - 1 && (conds[1..][k].1.Nothing? || !Named(ids', conds[1..][k].0));
          assert conds[k + 1] == conds[1..][k];
        }
      }
    }
  }

  /** The names a list of conditions mentions. */
  predicate Mentions(conds: seq<(string, Condition)>, n: string) {
    exists k :: 0 <= k < |conds| && conds[k].0 == n
  }

  /** Identifiers the conditions do not name keep their index entries, and every record
      keeps its name. */
  lemma {:induction false} ConditionedKeeps(build: Build, ids: seq<Ident>, conds: seq<(string, Condition)>, n: string)
    requires !Mentions(conds, n)
    ensures var ids' := Conditioned(build, ids, conds).0;
            && |ids'| == |ids| && (forall j :: 0 <= j < |ids| ==> ids'[j].name == ids[j].name)
            && (n in ByName(ids) ==> n in ByName(ids') && ByName(ids')[n] == ByName(ids)[n])
    decreases |conds|
  {
    if conds != [] {
      var step := ConditionStep(build, ids, conds[0].0, conds[0].1);
      if step.Return? {
        ConditionStepIndex(build, ids, conds[0].0, conds[0].1);
        assert conds[0].0 != n;
        ConditionedKeeps(build, step.value, conds[1..], n);
      }
    }
  }

  /** After a run without error, the entry of a name is its record constrained by the
      pattern of the last condition that names it. */
  lemma {:induction false} ConditionedSets(build: Build, ids: seq<Ident>, conds: seq<(string, Condition)>, k: nat)
    requires k < |conds| && !Mentions(conds[k + 1..], conds[k].0)
    requires Conditioned(build, ids, conds).1.None?
    ensures var n := conds[k].0;
            && PatternOf(build, conds[k].1).Return?
            && n in ByName(ids) && n in ByName(Conditioned(build, ids, conds).0)
            && ByName(Conditioned(build, ids, conds).0)[n]
               == Constrained(ByName(ids)[n], PatternOf(build, conds[k].1).value)
    decreases k
  {
    var step := ConditionStep(build, ids, conds[0].0, conds[0].1);
    assert step.Return?;
    ConditionStepIndex(build, ids, conds[0].0, conds[0].1);
    var ids' := step.value;
    var n := conds[k].0;
    if k == 0 {
      assert conds[1..] == conds[k + 1..];
      ConditionedKeeps(build, ids', conds[1..], n);
    } else {
      assert conds[1..][k - 1] == conds[k];
      assert conds[1..][k - 1 + 1..] == conds[k + 1..];
      ConditionedSets(build, ids', conds[1..], k - 1);
      if conds[0].0 == n {
        // the name is rewritten again later, so the earlier rewrite is overwritten
        assert Constrained(Constrained(ByName(ids)[n], PatternOf(build, conds[0].1).value),
                           PatternOf(build, conds[k].1).value)
            == Constrained(ByName(ids)[n], PatternOf(build, conds[k].1).value);
      } else {
        assert ByName(ids')[n] == ByName(ids)[n];
      }
    }
  }

  /** Applying conditions keeps the number of records and every name, and keeps every record
      consistent: a rewritten record gets the anchored form of its new pattern. */
  lemma {:induction false} ConditionedShape(build: Build, ids: seq<Ident>, conds: seq<(string, Condition)>)
    ensures var ids' := Conditioned(build, ids, conds).0;
            && |ids'| == |ids|
            && (forall j :: 0 <= j < |ids| ==> ids'[j].name == ids[j].name)
            && ((forall j :: 0 <= j < |ids| ==> Consistent(ids[j])) ==>
                  forall j :: 0 <= j < |ids'| ==> Consistent(ids'[j]))
    decreases |conds|
  {
    if conds != [] {
      var step := ConditionStep(build, ids, conds[0].0, conds[0].1);
      if step.Return? {
        ConditionStepIndex(build, ids, conds[0].0, conds[0].1);
        ConditionedShape(build, step.value, conds[1..]);
      }
    }
  }
}
