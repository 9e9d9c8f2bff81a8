/** Matching a URI against a compiled template. On the two default classes `Exec` follows the
    backtracking order of the JavaScript engine (a value class tries its longest candidate
    first, an optional group is tried before it is skipped); a custom pattern's values are
    also tried longest first, which the engine does not promise. `Spans` is the declarative
    reading: some choice of values makes the whole URI. The two agree (ExecSound, ExecComplete). */
module Matcher {
  import opened Runtime
  import opened Placeholders
  import opened Identifiers
  import opened Compiler

  /** The text one group may capture. The two default classes are given exactly; any other
      pattern is decided by the host's regular expression engine. */
  predicate Accept(h: Host, pattern: string, v: string) {
    if pattern == KeyPattern then IsKeyValue(v)
    else if pattern == GlobPattern then IsGlobValue(v)
    else h.search("^(?:" + pattern + ")$", v)
  }

  /** The separators of a group appear at offset `i`. */
  predicate LeadAt(s: string, i: nat, slash: bool, dot: bool) {
    Spelled(s, i, LeadText(slash, dot))
  }

  /** The captures of a match: one per group, `None` for a skipped optional group. */
  type Caps = seq<Option<string>>

  /** `regex.exec(s)` from offset `i` on: the captures of the first way, in the engine's
      order on the default classes and longest first on custom patterns, in which the
      program matches the rest of `s` exactly. */
  function Exec(h: Host, prog: Program, s: string, i: nat): Option<Caps>
    requires i <= |s|
    decreases |prog|, 1, 0
  {
    if prog == [] then (if i == |s| then Some([]) else None)
    else
      match prog[0]
      case Char(c) =>
        if i < |s| && s[i] == c then Exec(h, prog[1..], s, i + 1) else None
      case Group(slash, dot, optional, pattern) =>
        var j := i + |LeadText(slash, dot)|;
        var tried := if LeadAt(s, i, slash, dot) then TryValue(h, prog, s, i, j, |s| - j) else None;
        if tried.Some? then tried
        else if optional then
          match Exec(h, prog[1..], s, i)
          case None => None
          case Some(caps) => Some([None] + caps)
        else None
  }

  /** The group `prog[0]` with its separators between `i` and `j`, trying the values
      `s[j..j + k]`, `s[j..j + k - 1]`, ... down to the empty one. A pass of an optional group
      that consumes nothing does not count (the engine rejects an empty iteration). */
  function TryValue(h: Host, prog: Program, s: string, i: nat, j: nat, k: nat): Option<Caps>
    requires prog != [] && prog[0].Group? && i <= j && j + k <= |s|
    decreases |prog|, 0, k
  {
    var g := prog[0];
    var v := s[j..j + k];
    var here := if Accept(h, g.pattern, v) && !(g.optional && j + k == i)
                then Exec(h, prog[1..], s, j + k) else None;
    if here.Some? then Some([Some(v)] + here.value)
    else if k == 0 then None
    else TryValue(h, prog, s, i, j, k - 1)
  }

  /** The declarative reading: `caps` is a choice of values, one per group, with which the
      program spells `s` from offset `i` to its end. */
  predicate Spans(h: Host, prog: Program, s: string, i: nat, caps: Caps)
    requires i <= |s|
    decreases |prog|
  {
    if prog == [] then i == |s| && caps == []
    else
      match prog[0]
      case Char(c) => i < |s| && s[i] == c && Spans(h, prog[1..], s, i + 1, caps)
      case Group(slash, dot, optional, pattern) =>
        && |caps| > 0
        && match caps[0]
           case None => optional && Spans(h, prog[1..], s, i, caps[1..])
           case Some(v) =>
             var j := i + |LeadText(slash, dot)|;
             && LeadAt(s, i, slash, dot) && j + |v| <= |s| && s[j..j + |v|] == v
             && Accept(h, pattern, v) && !(optional && j + |v| == i)
             && Spans(h, prog[1..], s, j + |v|, caps[1..])
  }

  /** What `Exec` finds is a match. */
  lemma {:induction false} ExecSound(h: Host, prog: Program, s: string, i: nat)
    requires i <= |s| && Exec(h, prog, s, i).Some?
    ensures Spans(h, prog, s, i, Exec(h, prog, s, i).value)
    decreases |prog|, 1, 0
  {
    if prog != [] {
      match prog[0]
      case Char(c) =>
        ExecSound(h, prog[1..], s, i + 1);
      case Group(slash, dot, optional, pattern) =>
        var j := i + |LeadText(slash, dot)|;
        var tried := if LeadAt(s, i, slash, dot) then TryValue(h, prog, s, i, j, |s| - j) else None;
        if tried.Some? {
          TryValueSound(h, prog, s, i, j, |s| - j);
        } else {
          ExecSound(h, prog[1..], s, i);
        }
    }
  }

  lemma {:induction false} TryValueSound(h: Host, prog: Program, s: string, i: nat, j: nat, k: nat)
    requires prog != [] && prog[0].Group? && i <= j && j + k <= |s|
    requires j == i + |LeadText(prog[0].slash, prog[0].dot)| && LeadAt(s, i, prog[0].slash, prog[0].dot)
    requires TryValue(h, prog, s, i, j, k).Some?
    ensures Spans(h, prog, s, i, TryValue(h, prog, s, i, j, k).value)
    decreases |prog|, 0, k
  {
    var g := prog[0];
    var v := s[j..j + k];
    var here := if Accept(h, g.pattern, v) && !(g.optional && j + k == i)
                then Exec(h, prog[1..], s, j + k) else None;
    if here.Some? {
      ExecSound(h, prog[1..], s, j + k);
      var caps := [Some(v)] + here.value;
      assert caps[1..] == here.value;
    } else {
      TryValueSound(h, prog, s, i, j, k - 1);
    }
  }

  /** Whenever some choice of values matches, `Exec` finds one. */
  lemma {:induction false} ExecComplete(h: Host, prog: Program, s: string, i: nat, caps: Caps)
    requires i <= |s| && Spans(h, prog, s, i, caps)
    ensures Exec(h, prog, s, i).Some?
    decreases |prog|, 1, 0
  {
    if prog != [] {
      match prog[0]
      case Char(c) =>
        ExecComplete(h, prog[1..], s, i + 1, caps);
      case Group(slash, dot, optional, pattern) =>
        var j := i + |LeadText(slash, dot)|;
        match caps[0]
        case None =>
          ExecComplete(h, prog[1..], s, i, caps[1..]);
        case Some(v) =>
          TryValueComplete(h, prog, s, i, j, |s| - j, caps);
    }
  }

  lemma {:induction false} TryValueComplete(h: Host, prog: Program, s: string, i: nat, j: nat, k: nat, caps: Caps)
    requires prog != [] && prog[0].Group? && i <= j && j + k <= |s|
    requires Spans(h, prog, s, i, caps) && caps != [] && caps[0].Some?
    requires j == i + |LeadText(prog[0].slash, prog[0].dot)| && |caps[0].value| <= k
    ensures TryValue(h, prog, s, i, j, k).Some?
    decreases |prog|, 0, k
  {
    var g := prog[0];
    var v := caps[0].value;
    if |v| == k {
      assert s[j..j + k] == v;
      ExecComplete(h, prog[1..], s, j + k, caps[1..]);
    } else {
      var here := if Accept(h, g.pattern, s[j..j + k]) && !(g.optional && j + k == i)
                  then Exec(h, prog[1..], s, j + k) else None;
      if here.None? {
        TryValueComplete(h, prog, s, i, j, k - 1, caps);
      }
    }
  }

  /** Some choice of values spells the whole URI. */
  ghost predicate Matchable(h: Host, prog: Program, s: string) {
    exists caps: Caps :: Spans(h, prog, s, 0, caps)
  }

  /** `regex.test(s)`: the URI matches exactly when some choice of values spells it. */
  lemma Matches(h: Host, prog: Program, s: string)
    ensures Exec(h, prog, s, 0).Some? <==> Matchable(h, prog, s)
  {
    if Exec(h, prog, s, 0).Some? {
      ExecSound(h, prog, s, 0);
      var caps := Exec(h, prog, s, 0).value;
      assert Spans(h, prog, s, 0, caps);
    } else if Matchable(h, prog, s) {
      var caps: Caps :| Spans(h, prog, s, 0, caps);
      ExecComplete(h, prog, s, 0, caps);
    }
  }

  /** A match gives one capture per group of the program. */
  lemma {:induction false} SpansCaptures(h: Host, prog: Program, s: string, i: nat, caps: Caps)
    requires i <= |s| && Spans(h, prog, s, i, caps)
    ensures |caps| == |Groups(prog)|
    decreases |prog|
  {
    if prog != [] {
      assert Groups(prog) == (if prog[0].Group? then [prog[0]] else []) + Groups(prog[1..]);
      match prog[0]
      case Char(c) =>
        SpansCaptures(h, prog[1..], s, i + 1, caps);
      case Group(slash, dot, optional, pattern) =>
        var j := i + |LeadText(slash, dot)|;
        match caps[0]
        case None =>
          SpansCaptures(h, prog[1..], s, i, caps[1..]);
        case Some(v) =>
          SpansCaptures(h, prog[1..], s, j + |v|, caps[1..]);
    }
  }

  /** A literal text then a program: the text must appear, then the program matches. */
  lemma {:induction false} SpansChars(h: Host, x: string, rest: Program, s: string, i: nat, caps: Caps)
    requires i + |x| <= |s| && s[i..i + |x|] == x && Spans(h, rest, s, i + |x|, caps)
    ensures Spans(h, Chars(x) + rest, s, i, caps)
    decreases |x|
  {
    if x != [] {
      assert s[i] == x[0];
      assert s[i + 1..i + 1 + |x[1..]|] == x[1..];
      SpansChars(h, x[1..], rest, s, i + 1, caps);
      assert (Chars(x) + rest)[1..] == Chars(x[1..]) + rest;
    } else {
      assert Chars(x) + rest == rest;
    }
  }

  /** `matched[i + 1]`: the capture of group i, `undefined` past the last group. */
  function Capture(caps: Caps, i: nat): Option<string> {
    if i < |caps| then caps[i] else None
  }

  /** A string capture is decoded; `undefined` stays as it is. */
  function Decoded(h: Host, v: Option<string>): Option<string> {
    match v
    case None => None
    case Some(x) => Some(h.decode(x))
  }

  /** The parameters `parse` collects from the first `|ids|` records: record i contributes
      its decoded capture under its name when that is truthy, a later record overwriting an
      earlier one of the same name. */
  function Params(h: Host, ids: seq<Ident>, caps: Caps): map<string, string> {
    if ids == [] then map[]
    else
      var i := |ids| - 1;
      var val := Decoded(h, Capture(caps, i));
      var pre := Params(h, ids[..i], caps);
      if Truthy(val) then pre[ids[i].name := val.value] else pre
  }

  /** Record i is the last record named `n` whose decoded capture is truthy. */
  predicate LastSet(h: Host, ids: seq<Ident>, caps: Caps, n: string, i: int) {
    && 0 <= i < |ids| && ids[i].name == n && Truthy(Decoded(h, Capture(caps, i)))
    && forall j :: i < j < |ids| && ids[j].name == n ==> !Truthy(Decoded(h, Capture(caps, j)))
  }

  /** A name is a parameter exactly when some record of that name has a truthy decoded
      capture, and its value is the decoded capture of the last such record. */
  lemma ParamsExact(h: Host, ids: seq<Ident>, caps: Caps)
    ensures forall n :: n in Params(h, ids, caps) <==>
              exists i :: 0 <= i < |ids| && ids[i].name == n && Truthy(Decoded(h, Capture(caps, i)))
    ensures forall n, i :: LastSet(h, ids, caps, n, i) ==>
              n in Params(h, ids, caps) && Params(h, ids, caps)[n] == Decoded(h, Capture(caps, i)).value
  {
    ParamsKeys(h, ids, caps);
    ParamsLast(h, ids, caps);
  }

  lemma {:induction false} ParamsKeys(h: Host, ids: seq<Ident>, caps: Caps)
    ensures forall n :: n in Params(h, ids, caps) <==>
              exists i :: 0 <= i < |ids| && ids[i].name == n && Truthy(Decoded(h, Capture(caps, i)))
    decreases |ids|
  {
    if ids != [] {
      var k := |ids| - 1;
      var pre := ids[..k];
      ParamsKeys(h, pre, caps);
      forall n | n in Params(h, ids, caps)
        ensures exists i :: 0 <= i < |ids| && ids[i].name == n && Truthy(Decoded(h, Capture(caps, i)))
      {
        if !(ids[k].name == n && Truthy(Decoded(h, Capture(caps, k)))) {
          assert n in Params(h, pre, caps);
          var i :| 0 <= i < |pre| && pre[i].name == n && Truthy(Decoded(h, Capture(caps, i)));
          assert ids[i] == pre[i];
        }
      }
      forall n | exists i :: 0 <= i < |ids| && ids[i].name == n && Truthy(Decoded(h, Capture(caps, i)))
        ensures n in Params(h, ids, caps)
      {
        var i :| 0 <= i < |ids| && ids[i].name == n && Truthy(Decoded(h, Capture(caps, i)));
        if i < k {
          assert pre[i] == ids[i];
        }
      }
    }
  }

  lemma {:induction false} ParamsLast(h: Host, ids: seq<Ident>, caps: Caps)
    ensures forall n, i :: LastSet(h, ids, caps, n, i) ==>
              n in Params(h, ids, caps) && Params(h, ids, caps)[n] == Decoded(h, Capture(caps, i)).value
    decreases |ids|
  {
    if ids != [] {
      var k := |ids| - 1;
      var pre := ids[..k];
      ParamsLast(h, pre, caps);
      forall n, i | LastSet(h, ids, caps, n, i)
        ensures n in Params(h, ids, caps) && Params(h, ids, caps)[n] == Decoded(h, Capture(caps, i)).value
      {
        if i < k {
          assert LastSet(h, pre, caps, n, i);
        }
      }
    }
  }
}
