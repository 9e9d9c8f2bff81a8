/** The placeholder grammar of a route template, `(\/)?(\.)?([:\*])(\w+)(\?)?`, and the scans
    that find its occurrences: the leftmost one (a non-global `replace`) and all of them in
    order (a global `replace`). */
module Placeholders {
  import opened Runtime

  /** JavaScript `\w`. */
  predicate IsWordChar(c: char) {
    ('a' <= c <= 'z') || ('A' <= c <= 'Z') || ('0' <= c <= '9') || c == '_'
  }

  /** JavaScript `\s` (white space and line terminators of ECMAScript). */
  predicate IsSpaceChar(c: char) {
    ('\t' <= c <= '\r') || c == ' ' || c == '\U{00A0}' || c == '\U{1680}'
    || ('\U{2000}' <= c <= '\U{200A}') || c == '\U{2028}' || c == '\U{2029}'
    || c == '\U{202F}' || c == '\U{205F}' || c == '\U{3000}' || c == '\U{FEFF}'
  }

  predicate IsSigil(c: char) {
    c == ':' || c == '*'
  }

  /** `:` introduces a segment placeholder, `*` a glob placeholder. */
  datatype Kind = Segment | Glob

  /** One placeholder occurrence: the five groups of the placeholder grammar. */
  datatype Placeholder = Placeholder(slash: bool, dot: bool, kind: Kind, name: string, optional: bool)

  function SigilOf(k: Kind): char {
    if k == Segment then ':' else '*'
  }

  function KindOf(c: char): Kind {
    if c == ':' then Segment else Glob
  }

  /** The separators that precede a placeholder: `slash || ''` followed by `format || ''`. */
  function LeadText(slash: bool, dot: bool): string {
    (if slash then "/" else "") + (if dot then "." else "")
  }

  function Lead(p: Placeholder): string {
    LeadText(p.slash, p.dot)
  }

  /** The template text of a placeholder occurrence. */
  function Text(p: Placeholder): string {
    Lead(p) + [SigilOf(p.kind)] + p.name + (if p.optional then "?" else "")
  }

  predicate IsName(s: string) {
    |s| > 0 && forall i :: 0 <= i < |s| ==> IsWordChar(s[i])
  }

  /** The end of the run of word characters that starts at offset `k` of `s`. */
  function WordEnd(s: string, k: nat): (e: nat)
    requires k <= |s|
    ensures k <= e <= |s|
    ensures e < |s| ==> !IsWordChar(s[e])
    decreases |s| - k
  {
    if k == |s| || !IsWordChar(s[k]) then k else WordEnd(s, k + 1)
  }

  /** The run found is made of word characters; `\w+` takes exactly that run. */
  lemma {:induction false} WordEndRun(s: string, k: nat)
    requires k <= |s|
    ensures forall j :: k <= j < WordEnd(s, k) ==> IsWordChar(s[j])
    decreases |s| - k
  {
    if k < |s| && IsWordChar(s[k]) {
      WordEndRun(s, k + 1);
    }
  }

  /** The offset after an optional `/` at offset `i`. */
  function SlashEnd(s: string, i: nat): nat
    requires i <= |s|
  {
    if i < |s| && s[i] == '/' then i + 1 else i
  }

  /** The offset after an optional `.` at offset `a`. */
  function DotEnd(s: string, a: nat): nat
    requires a <= |s|
  {
    if a < |s| && s[a] == '.' then a + 1 else a
  }

  /** The placeholder that the grammar matches at offset `i` of `s`, if any. The optional
      groups and `\w+` are greedy and nothing after them can fail, so the first match the
      JavaScript engine finds there takes every separator, the longest name and the `?`
      whenever they are present; lemma MatchAtExact states this exactly. */
  function MatchAt(s: string, i: nat): (r: Option<Placeholder>)
    requires i <= |s|
    ensures r.Some? ==> i + Width(r.value) <= |s|
  {
    var a := SlashEnd(s, i);
    var b := DotEnd(s, a);
    if b < |s| && IsSigil(s[b]) then
      var e := WordEnd(s, b + 1);
      if e == b + 1 then None
      else
        var p := Placeholder(a > i, b > a, KindOf(s[b]), s[b + 1..e], e < |s| && s[e] == '?');
        TextLength(p);
        Some(p)
    else None
  }

  /** The length of a placeholder text, computed from its parts. */
  function Width(q: Placeholder): nat {
    (if q.slash then 1 else 0) + (if q.dot then 1 else 0) + 1 + |q.name| + (if q.optional then 1 else 0)
  }

  lemma {:induction false} TextLength(q: Placeholder)
    ensures |Lead(q)| == (if q.slash then 1 else 0) + (if q.dot then 1 else 0)
    ensures |Text(q)| == Width(q)
  {
  }

  /** The characters of a placeholder text, position by position. */
  lemma {:induction false} TextChars(q: Placeholder)
    ensures var l := |Lead(q)|;
            && |Text(q)| == l + 1 + |q.name| + (if q.optional then 1 else 0)
            && l <= 2 && (l == 2 <==> q.slash && q.dot) && (l == 0 <==> !q.slash && !q.dot)
            && (l == 1 <==> q.slash != q.dot)
            && (q.slash ==> Text(q)[0] == '/')
            && (q.dot ==> Text(q)[l - 1] == '.')
            && Text(q)[l] == SigilOf(q.kind)
            && (forall j :: 0 <= j < |q.name| ==> Text(q)[l + 1 + j] == q.name[j])
            && (q.optional ==> Text(q)[l + 1 + |q.name|] == '?')
  {
  }

  /** The declarative reading of the grammar at offset `i`: the text of `q` appears there with
      a non-empty word name, the name is not followed by another word character, and `q` is
      optional exactly when a `?` follows the name. */
  predicate Fits(s: string, i: nat, q: Placeholder) {
    var e := i + |Lead(q)| + 1 + |q.name|;
    && Spelled(s, i, Text(q))
    && IsName(q.name)
    && (e < |s| ==> !IsWordChar(s[e]))
    && (q.optional <==> e < |s| && s[e] == '?')
  }

  /** `t` appears in `s` at offset `i`. */
  predicate Spelled(s: string, i: nat, t: string) {
    i + |t| <= |s| && forall j :: 0 <= j < |t| ==> s[i + j] == t[j]
  }

  lemma {:induction false} SpelledSlice(s: string, i: nat, t: string)
    requires Spelled(s, i, t)
    ensures s[i..i + |t|] == t
  {
    forall j | 0 <= j < |t|
      ensures s[i..i + |t|][j] == t[j]
    {
      assert s[i + j] == t[j];
    }
  }

  /** The scan and the declarative reading agree: the occurrence found at `i` is the one
      placeholder that fits there. */
  lemma {:induction false} MatchAtExact(s: string, i: nat, q: Placeholder)
    requires i <= |s|
    ensures MatchAt(s, i) == Some(q) <==> Fits(s, i, q)
  {
    if MatchAt(s, i) == Some(q) {
      MatchAtFits(s, i);
    }
    if Fits(s, i, q) {
      FitsMatchAt(s, i, q);
    }
  }

  /** The occurrence found at an offset is spelled by the text there. */
  lemma {:induction false} MatchAtText(s: string, i: nat)
    requires i <= |s| && MatchAt(s, i).Some?
    ensures s[i..i + |Text(MatchAt(s, i).value)|] == Text(MatchAt(s, i).value)
  {
    MatchAtFits(s, i);
    SpelledSlice(s, i, Text(MatchAt(s, i).value));
  }

  lemma {:induction false} SpelledCat(s: string, i: nat, x: string, y: string)
    requires Spelled(s, i, x) && Spelled(s, i + |x|, y)
    ensures Spelled(s, i, x + y)
  {
    forall j | 0 <= j < |x + y|
      ensures s[i + j] == (x + y)[j]
    {
      if j >= |x| {
        assert s[i + |x| + (j - |x|)] == y[j - |x|];
      }
    }
  }

  lemma {:induction false} SliceSpelled(s: string, k: nat, e: nat)
    requires k <= e <= |s|
    ensures Spelled(s, k, s[k..e])
  {
  }

  /** The separators the scan takes at `i` are spelled there. */
  lemma {:induction false} LeadSpelled(s: string, i: nat, p: Placeholder)
    requires i <= |s|
    requires p.slash == (SlashEnd(s, i) > i)
    requires p.dot == (DotEnd(s, SlashEnd(s, i)) > SlashEnd(s, i))
    ensures Spelled(s, i, Lead(p)) && i + |Lead(p)| == DotEnd(s, SlashEnd(s, i))
  {
    var a := SlashEnd(s, i);
    var x := if p.slash then "/" else "";
    var y := if p.dot then "." else "";
    assert Spelled(s, i, x);
    assert Spelled(s, a, y);
    SpelledCat(s, i, x, y);
  }

  /** A placeholder text is spelled at `i` when its separators, sigil, name and `?` are. */
  lemma {:induction false} TextSpelled(s: string, i: nat, p: Placeholder)
    requires Spelled(s, i, Lead(p))
    requires Spelled(s, i + |Lead(p)|, [SigilOf(p.kind)])
    requires Spelled(s, i + |Lead(p)| + 1, p.name)
    requires Spelled(s, i + |Lead(p)| + 1 + |p.name|, if p.optional then "?" else "")
    ensures Spelled(s, i, Text(p))
  {
    SpelledCat(s, i, Lead(p), [SigilOf(p.kind)]);
    SpelledCat(s, i, Lead(p) + [SigilOf(p.kind)], p.name);
    SpelledCat(s, i, Lead(p) + [SigilOf(p.kind)] + p.name, if p.optional then "?" else "");
  }

  lemma {:induction false} MatchAtFits(s: string, i: nat)
    requires i <= |s| && MatchAt(s, i).Some?
    ensures Fits(s, i, MatchAt(s, i).value)
  {
    var p := MatchAt(s, i).value;
    var a := SlashEnd(s, i);
    var b := DotEnd(s, a);
    var e := WordEnd(s, b + 1);
    assert p.name == s[b + 1..e];
    WordEndRun(s, b + 1);
    LeadSpelled(s, i, p);
    SliceSpelled(s, b + 1, e);
    TextSpelled(s, i, p);
  }

  lemma {:induction false} FitsMatchAt(s: string, i: nat, q: Placeholder)
    requires i <= |s| && Fits(s, i, q)
    ensures MatchAt(s, i) == Some(q)
  {
    var a := SlashEnd(s, i);
    var b := i + |Lead(q)|;
    FitsParts(s, i, q);
    TextLength(q);
    var e := b + 1 + |q.name|;
    WordEndAfterName(s, b + 1, q.name);
    assert s[b + 1..e] == q.name;
    assert (e < |s| && s[e] == '?') == q.optional;
    MatchAtParts(s, i, a, b, e, q);
  }

  /** The grammar at `i` reads `q` when its separators end at `a` and `b`, its sigil is at
      `b`, its name runs up to `e` and its `?` is at `e`, all as `q` has them. */
  lemma MatchAtParts(s: string, i: nat, a: nat, b: nat, e: nat, q: Placeholder)
    requires i <= a <= b < e <= |s|
    requires SlashEnd(s, i) == a && DotEnd(s, a) == b && (a > i) == q.slash && (b > a) == q.dot
    requires s[b] == SigilOf(q.kind) && WordEnd(s, b + 1) == e && e > b + 1 && s[b + 1..e] == q.name
    requires q.optional == (e < |s| && s[e] == '?')
    ensures MatchAt(s, i) == Some(q)
  {
    assert IsSigil(s[b]) && KindOf(s[b]) == q.kind;
  }

  /** What Fits says about each group of the grammar, offset by offset. */
  lemma {:induction false} FitsParts(s: string, i: nat, q: Placeholder)
    requires i <= |s| && Fits(s, i, q)
    ensures var b := i + |Lead(q)|;
            && SlashEnd(s, i) == i + (if q.slash then 1 else 0)
            && DotEnd(s, SlashEnd(s, i)) == b
            && b < |s| && s[b] == SigilOf(q.kind)
            && b + 1 + |q.name| <= |s|
            && (forall j :: 0 <= j < |q.name| ==> s[b + 1 + j] == q.name[j])
  {
    TextChars(q);
    var l := |Lead(q)|;
    var t := Text(q);
    assert s[i + 0] == t[0] && s[i + l] == t[l];
    if l == 2 {
      assert s[i + 1] == t[1];
    }
    forall j | 0 <= j < |q.name|
      ensures s[i + l + 1 + j] == q.name[j]
    {
      assert s[i + (l + 1 + j)] == t[l + 1 + j];
    }
  }

  lemma {:induction false} WordEndAfterName(s: string, k: nat, name: string)
    requires k + |name| <= |s| && IsName(name)
    requires forall j :: 0 <= j < |name| ==> s[k + j] == name[j]
    requires k + |name| < |s| ==> !IsWordChar(s[k + |name|])
    ensures WordEnd(s, k) == k + |name|
    decreases |name|
  {
    assert s[k + 0] == name[0];
    assert IsWordChar(name[0]);
    if |name| > 1 {
      var rest := name[1..];
      forall j | 0 <= j < |rest|
        ensures s[k + 1 + j] == rest[j]
      {
        assert s[k + (1 + j)] == name[1 + j];
      }
      WordEndAfterName(s, k + 1, rest);
    }
  }

  /** Wherever the text of a placeholder with a legal name appears, the scan finds an
      occurrence: it misses none. */
  lemma {:induction false} MatchAtComplete(s: string, i: nat, q: Placeholder)
    requires i <= |s| && Spelled(s, i, Text(q)) && IsName(q.name)
    ensures MatchAt(s, i).Some?
  {
    TextChars(q);
    var l := |Lead(q)|;
    var t := Text(q);
    assert s[i + 0] == t[0] && s[i + l] == t[l] && s[i + (l + 1 + 0)] == t[l + 1 + 0];
    if l == 2 {
      assert s[i + 1] == t[1];
    }
    assert SlashEnd(s, i) == i + (if q.slash then 1 else 0);
    assert DotEnd(s, SlashEnd(s, i)) == i + l;
    assert IsWordChar(q.name[0]);
  }

  lemma {:induction false} SpelledLocal(a: string, b: string, y: nat, t: string)
    requires y <= |b|
    ensures Spelled(a + b, |a| + y, t) <==> Spelled(b, y, t)
  {
    if Spelled(b, y, t) {
      forall j | 0 <= j < |t|
        ensures (a + b)[|a| + y + j] == t[j]
      {
        assert b[y + j] == t[j];
      }
    }
    if Spelled(a + b, |a| + y, t) {
      forall j | 0 <= j < |t|
        ensures b[y + j] == t[j]
      {
        assert (a + b)[|a| + y + j] == t[j];
      }
    }
  }

  /** Whether a placeholder fits at an offset depends only on the text from that offset on. */
  lemma {:induction false} FitsLocal(a: string, b: string, y: nat, q: Placeholder)
    requires y <= |b|
    ensures Fits(a + b, |a| + y, q) <==> Fits(b, y, q)
  {
    SpelledLocal(a, b, y, Text(q));
    var e := y + |Lead(q)| + 1 + |q.name|;
    if e < |b| {
      assert (a + b)[|a| + e] == b[e];
    }
  }

  /** The match at an offset depends only on the text from that offset on. */
  lemma {:induction false} MatchAtLocal(a: string, b: string, y: nat)
    requires y <= |b|
    ensures MatchAt(a + b, |a| + y) == MatchAt(b, y)
  {
    if MatchAt(b, y).Some? {
      MatchAtInward(a, b, y);
    } else if MatchAt(a + b, |a| + y).Some? {
      MatchAtOutward(a, b, y);
    }
  }

  lemma {:induction false} MatchAtInward(a: string, b: string, y: nat)
    requires y <= |b| && MatchAt(b, y).Some?
    ensures MatchAt(a + b, |a| + y) == MatchAt(b, y)
  {
    var q := MatchAt(b, y).value;
    MatchAtExact(b, y, q);
    FitsLocal(a, b, y, q);
    MatchAtExact(a + b, |a| + y, q);
  }

  lemma {:induction false} MatchAtOutward(a: string, b: string, y: nat)
    requires y <= |b| && MatchAt(a + b, |a| + y).Some?
    ensures MatchAt(a + b, |a| + y) == MatchAt(b, y)
  {
    var q := MatchAt(a + b, |a| + y).value;
    MatchAtExact(a + b, |a| + y, q);
    FitsLocal(a, b, y, q);
    MatchAtExact(b, y, q);
  }

  /** A placeholder occurrence found at offset `pos` of the text scanned. */
  datatype Found = Found(pos: nat, hole: Placeholder)

  function End(f: Found): nat {
    f.pos + Width(f.hole)
  }

  /** The leftmost placeholder occurrence in `s` at or after offset `i`. */
  function FindFrom(s: string, i: nat): (r: Option<Found>)
    requires i <= |s|
    ensures r.Some? ==> i <= r.value.pos && End(r.value) <= |s|
                        && MatchAt(s, r.value.pos) == Some(r.value.hole)
    decreases |s| - i
  {
    if MatchAt(s, i).Some? then Some(Found(i, MatchAt(s, i).value))
    else if i == |s| then None
    else FindFrom(s, i + 1)
  }

  /** Nothing matches between the starting offset and the occurrence found, and nothing at
      all when none is found: the occurrence is the leftmost one. */
  lemma {:induction false} FindFromLeast(s: string, i: nat)
    requires i <= |s|
    ensures FindFrom(s, i).Some? ==> forall j :: i <= j < FindFrom(s, i).value.pos ==> MatchAt(s, j).None?
    ensures FindFrom(s, i).None? ==> forall j :: i <= j <= |s| ==> MatchAt(s, j).None?
    decreases |s| - i
  {
    if MatchAt(s, i).None? && i < |s| {
      FindFromLeast(s, i + 1);
    }
  }

  /** What a non-global `replace` with the placeholder grammar rewrites: the leftmost
      occurrence in the whole text. */
  function FindFirst(s: string): Option<Found> {
    FindFrom(s, 0)
  }

  /** The occurrences of `a + b` at or after `|a| + y` are those of `b`, shifted. */
  lemma {:induction false} FindFromLocal(a: string, b: string, y: nat)
    requires y <= |b|
    ensures FindFrom(a + b, |a| + y) == Shifted(FindFrom(b, y), |a|)
  {
    FindInLocal(a, b, y);
    FindFromTables(a, b, y);
  }

  lemma {:induction false} FindInLocal(a: string, b: string, y: nat)
    requires y <= |b|
    ensures FindIn(MatchTable(a + b), |a| + y) == Shifted(FindIn(MatchTable(b), y), |a|)
  {
    TableLocal(a, b);
    FindInShift(MatchTable(a + b), MatchTable(b), |a|, y);
  }

  lemma {:induction false} FindFromTables(a: string, b: string, y: nat)
    requires y <= |b|
    ensures FindFrom(a + b, |a| + y) == FindIn(MatchTable(a + b), |a| + y)
    ensures FindFrom(b, y) == FindIn(MatchTable(b), y)
  {
    FindFromTable(a + b, |a| + y);
    FindFromTable(b, y);
  }

  /** The match at every offset of `s`, the end included. */
  function MatchTable(s: string): (t: seq<Option<Placeholder>>)
    ensures |t| == |s| + 1
  {
    seq(|s| + 1, j requires 0 <= j <= |s| => MatchAt(s, j))
  }

  lemma {:induction false} MatchTableAt(s: string, j: nat)
    requires j <= |s|
    ensures MatchTable(s)[j] == MatchAt(s, j)
  {
  }

  lemma {:induction false} TableLocal(a: string, b: string)
    ensures MatchTable(a + b)[|a|..] == MatchTable(b)
  {
    forall j | 0 <= j <= |b|
      ensures MatchTable(a + b)[|a| + j] == MatchTable(b)[j]
    {
      TableLocalAt(a, b, j);
    }
  }

  lemma {:induction false} TableLocalAt(a: string, b: string, j: nat)
    requires j <= |b|
    ensures MatchTable(a + b)[|a| + j] == MatchTable(b)[j]
  {
    MatchAtLocal(a, b, j);
    MatchTableAt(a + b, |a| + j);
    MatchTableAt(b, j);
  }

  /** The leftmost entry present in a table of matches, at or after `i`. */
  function FindIn(t: seq<Option<Placeholder>>, i: nat): Option<Found>
    requires i < |t|
    decreases |t| - i
  {
    if t[i].Some? then Some(Found(i, t[i].value))
    else if i == |t| - 1 then None
    else FindIn(t, i + 1)
  }

  lemma {:induction false} FindFromTable(s: string, i: nat)
    requires i <= |s|
    ensures FindFrom(s, i) == FindIn(MatchTable(s), i)
    decreases |s| - i
  {
    MatchTableAt(s, i);
    if MatchAt(s, i).None? && i < |s| {
      FindFromTable(s, i + 1);
    }
  }

  lemma {:induction false} FindInShift(t: seq<Option<Placeholder>>, u: seq<Option<Placeholder>>, d: nat, y: nat)
    requires y < |u| && d + |u| == |t| && t[d..] == u
    ensures FindIn(t, d + y) == Shifted(FindIn(u, y), d)
    decreases |u| - y
  {
    assert t[d + y] == t[d..][y] == u[y];
    if u[y].None? && y < |u| - 1 {
      FindInShift(t, u, d, y + 1);
    }
  }

  function Shifted(r: Option<Found>, d: nat): Option<Found> {
    if r.None? then None else Some(Found(r.value.pos + d, r.value.hole))
  }

  /** When no occurrence begins in `a` itself, the leftmost occurrence in `a + b` is the
      leftmost one in `b`, shifted past `a`. */
  lemma {:induction false} FindFirstShift(a: string, b: string)
    requires forall x :: 0 <= x < |a| ==> MatchAt(a + b, x).None?
    ensures FindFirst(a + b) == Shifted(FindFirst(b), |a|)
  {
    FindFromLocal(a, b, 0);
    SkipUnmatched(a + b, 0, |a|);
  }

  lemma {:induction false} SkipUnmatched(s: string, i: nat, k: nat)
    requires i <= k <= |s|
    requires forall x :: i <= x < k ==> MatchAt(s, x).None?
    ensures FindFrom(s, i) == FindFrom(s, k)
  {
    forall x | i <= x < k
      ensures MatchTable(s)[x].None?
    {
      MatchTableAt(s, x);
    }
    FindFromTable(s, i);
    FindFromTable(s, k);
    FindInSkip(MatchTable(s), i, k);
  }

  lemma {:induction false} FindInSkip(t: seq<Option<Placeholder>>, i: nat, k: nat)
    requires i <= k < |t|
    requires forall x :: i <= x < k ==> t[x].None?
    ensures FindIn(t, i) == FindIn(t, k)
    decreases k - i
  {
    if i < k {
      FindInSkip(t, i + 1, k);
    }
  }

  /** The occurrence found is spelled by the text at its position. */
  lemma {:induction false} FoundText(s: string, f: Found)
    requires End(f) <= |s| && MatchAt(s, f.pos) == Some(f.hole)
    ensures s[f.pos..End(f)] == Text(f.hole)
  {
    MatchAtText(s, f.pos);
  }

  /** A template as the scan sees it: literal text and placeholder occurrences, in order. */
  datatype Token = Lit(text: string) | Hole(p: Placeholder)

  function TokenText(t: Token): string {
    match t
    case Lit(s) => s
    case Hole(p) => Text(p)
  }

  function Concat(ts: seq<Token>): string {
    if ts == [] then "" else TokenText(ts[0]) + Concat(ts[1..])
  }

  /** The tokens that precede and make up the leftmost occurrence `f` of `s`. */
  function Step(s: string, f: Found): seq<Token>
    requires f.pos <= |s|
  {
    (if f.pos == 0 then [] else [Lit(s[..f.pos])]) + [Hole(f.hole)]
  }

  /** The global scan `uri.replace(IDENT_REGEX, ...)`: successive leftmost occurrences, each
      search resuming where the previous occurrence ended, with the text between them as
      literals. */
  function Tokenize(s: string): seq<Token>
    decreases |s|
  {
    match FindFirst(s)
    case None => if s == [] then [] else [Lit(s)]
    case Some(f) => Step(s, f) + Tokenize(s[End(f)..])
  }

  /** The placeholder occurrences of a token list, in order. */
  function Holes(ts: seq<Token>): seq<Placeholder> {
    if ts == [] then []
    else (if ts[0].Hole? then [ts[0].p] else []) + Holes(ts[1..])
  }

  function Names(ps: seq<Placeholder>): seq<string> {
    if ps == [] then [] else [ps[0].name] + Names(ps[1..])
  }

  lemma {:induction false} SliceSplit<X>(s: seq<X>, a: nat, b: nat, c: nat)
    requires a <= b <= c <= |s|
    ensures s[a..] == s[a..b] + s[b..c] + s[c..]
  {
  }

  lemma {:induction false} ConcatAppend(a: seq<Token>, b: seq<Token>)
    ensures Concat(a + b) == Concat(a) + Concat(b)
  {
    if a == [] {
      assert a + b == b;
    } else {
      assert (a + b)[0] == a[0];
      assert (a + b)[1..] == a[1..] + b;
      ConcatAppend(a[1..], b);
    }
  }

  lemma {:induction false} HolesAppend(a: seq<Token>, b: seq<Token>)
    ensures Holes(a + b) == Holes(a) + Holes(b)
  {
    if a == [] {
      assert a + b == b;
    } else {
      assert (a + b)[0] == a[0];
      assert (a + b)[1..] == a[1..] + b;
      HolesAppend(a[1..], b);
    }
  }

  lemma {:induction false} NamesLength(ps: seq<Placeholder>)
    ensures |Names(ps)| == |ps| && forall i :: 0 <= i < |ps| ==> Names(ps)[i] == ps[i].name
  {
    if ps != [] {
      NamesLength(ps[1..]);
    }
  }

  lemma {:induction false} StepConcat(s: string, f: Found)
    requires f.pos <= |s|
    ensures Concat(Step(s, f)) == s[..f.pos] + Text(f.hole)
  {
    var lit: seq<Token> := if f.pos == 0 then [] else [Lit(s[..f.pos])];
    ConcatAppend(lit, [Hole(f.hole)]);
    assert Concat([Hole(f.hole)]) == Text(f.hole) + Concat([]);
    if f.pos > 0 {
      assert Concat(lit) == s[..f.pos] + Concat([]);
    }
  }

  lemma {:induction false} StepText(s: string, f: Found)
    requires End(f) <= |s| && s[f.pos..End(f)] == Text(f.hole)
    ensures Concat(Step(s, f)) + s[End(f)..] == s
  {
    StepConcat(s, f);
    SliceSplit(s, 0, f.pos, End(f));
  }

  /** The tokens spell the template: the scan loses and invents no text. */
  lemma {:induction false} TokenizeText(s: string)
    ensures Concat(Tokenize(s)) == s
    decreases |s|
  {
    match FindFirst(s)
    case None =>
      if s != [] {
        assert Concat([Lit(s)]) == s + Concat([]);
      }
    case Some(f) =>
      TokenizeText(s[End(f)..]);
      ConcatAppend(Step(s, f), Tokenize(s[End(f)..]));
      FoundText(s, f);
      StepText(s, f);
  }

  /** Every occurrence is a legal placeholder: a non-empty word name. */
  lemma {:induction false} HolesNamed(s: string)
    ensures forall p :: p in Holes(Tokenize(s)) ==> IsName(p.name)
    decreases |s|
  {
    match FindFirst(s)
    case None =>
      if s != [] {
        assert Holes([Lit(s)]) == [] + Holes([]);
      }
    case Some(f) =>
      var lit: seq<Token> := if f.pos == 0 then [] else [Lit(s[..f.pos])];
      HolesNamed(s[End(f)..]);
      HolesAppend(Step(s, f), Tokenize(s[End(f)..]));
      HolesAppend(lit, [Hole(f.hole)]);
      assert Holes([Hole(f.hole)]) == [f.hole] + Holes([]);
      if f.pos > 0 {
        assert Holes(lit) == [] + Holes([]);
      }
      FoundNamed(s, f);
  }

  lemma {:induction false} FoundNamed(s: string, f: Found)
    requires f.pos <= |s| && MatchAt(s, f.pos) == Some(f.hole)
    ensures IsName(f.hole.name)
  {
    MatchAtFits(s, f.pos);
  }

  /** The occurrences of a text: none when no placeholder is found, and otherwise the
      leftmost one followed by those after it. */
  lemma {:induction false} HolesFirst(b: string)
    ensures FindFirst(b).None? ==> Holes(Tokenize(b)) == []
    ensures FindFirst(b).Some? ==>
              Holes(Tokenize(b)) == [FindFirst(b).value.hole] + Holes(Tokenize(b[End(FindFirst(b).value)..]))
  {
    match FindFirst(b)
    case None =>
      if b != [] {
        assert Holes([Lit(b)]) == [] + Holes([]);
      }
    case Some(g) =>
      var lit: seq<Token> := if g.pos == 0 then [] else [Lit(b[..g.pos])];
      HolesAppend(Step(b, g), Tokenize(b[End(g)..]));
      HolesAppend(lit, [Hole(g.hole)]);
      assert Holes([Hole(g.hole)]) == [g.hole] + Holes([]);
      if g.pos > 0 {
        assert Holes(lit) == [] + Holes([]);
      }
  }

  /** The occurrences of a template from offset `k` on: none when no placeholder is left, and
      otherwise the next one found from `k` followed by those after it. This is one step of
      the global scan that resumes where the previous occurrence ended. */
  lemma {:induction false} HolesFrom(s: string, k: nat)
    requires k <= |s|
    ensures FindFrom(s, k).None? ==> Holes(Tokenize(s[k..])) == []
    ensures FindFrom(s, k).Some? ==>
              var f := FindFrom(s, k).value;
              && k < End(f) <= |s|
              && Holes(Tokenize(s[k..])) == [f.hole] + Holes(Tokenize(s[End(f)..]))
  {
    var b := s[k..];
    FindFromSuffix(s, k);
    HolesFirst(b);
    if FindFirst(b).Some? {
      var g := FindFirst(b).value;
      var f := FindFrom(s, k).value;
      assert End(f) == End(g) + k;
      SuffixShift(s, k, End(g));
      assert b[End(g)..] == s[End(f)..];
    }
  }

  /** The search from offset `k` is the leftmost search in the rest of the text, shifted. */
  lemma FindFromSuffix(s: string, k: nat)
    requires k <= |s|
    ensures FindFrom(s, k) == Shifted(FindFirst(s[k..]), k)
  {
    var a, b := s[..k], s[k..];
    assert a + b == s;
    FindFromLocal(a, b, 0);
  }

  lemma SuffixShift(s: string, k: nat, e: nat)
    requires k + e <= |s|
    ensures s[k..][e..] == s[k + e..]
  {
  }
}
