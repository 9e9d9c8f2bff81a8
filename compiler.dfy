/** The compilation of a template into its anchored regular expression: literal text is
    kept with `/` and `.` escaped, and each placeholder occurrence becomes one capturing
    group whose shape comes from the last occurrence of its name and whose pattern comes
    from the identifier index. */
module Compiler {
  import opened Runtime
  import opened Placeholders
  import opened Identifiers

  /** One element of the compiled expression: a literal character, or the group of a
      placeholder with its separators, optionality and value pattern. */
  datatype Piece = Char(c: char) | Group(slash: bool, dot: bool, optional: bool, pattern: string)

  type Program = seq<Piece>

  /** `argsByName`: the match of the last occurrence of every name. */
  function ArgsByName(ps: seq<Placeholder>): map<string, Placeholder> {
    if ps == [] then map[] else ArgsByName(ps[..|ps| - 1])[ps[|ps| - 1].name := ps[|ps| - 1]]
  }

  predicate IsLastArgs(ps: seq<Placeholder>, i: int) {
    0 <= i < |ps| && forall j :: i < j < |ps| ==> ps[j].name != ps[i].name
  }

  /** Every name of the template has an entry, and it is its last occurrence. */
  lemma {:induction false} ArgsByNameLast(ps: seq<Placeholder>)
    ensures forall i :: 0 <= i < |ps| ==> ps[i].name in ArgsByName(ps)
    ensures forall i :: IsLastArgs(ps, i) ==> ArgsByName(ps)[ps[i].name] == ps[i]
    decreases |ps|
  {
    if ps != [] {
      var pre := ps[..|ps| - 1];
      ArgsByNameLast(pre);
      forall i | 0 <= i < |ps|
        ensures ps[i].name in ArgsByName(ps)
      {
        if i < |pre| {
          assert pre[i] == ps[i];
        }
      }
      forall i | IsLastArgs(ps, i)
        ensures ArgsByName(ps)[ps[i].name] == ps[i]
      {
        if i < |pre| {
          assert pre[i] == ps[i];
          assert IsLastArgs(pre, i);
        }
      }
    }
  }

  /** The literal characters of a text. */
  function Chars(x: string): (r: Program)
    ensures |r| == |x| && forall i :: 0 <= i < |x| ==> r[i] == Char(x[i])
  {
    if x == [] then [] else [Char(x[0])] + Chars(x[1..])
  }

  /** The group of an occurrence named `name`: its shape is that of `args`, the last
      occurrence of the name, and its pattern that of the index entry. */
  function GroupFor(args: Placeholder, id: Ident): Piece {
    Group(args.slash, args.dot, args.optional, id.pattern)
  }

  /** Every name of the tokens has an index entry and an `argsByName` entry. */
  predicate Covered(ts: seq<Token>, args: map<string, Placeholder>, byName: map<string, Ident>) {
    forall p :: p in Holes(ts) ==> p.name in args && p.name in byName
  }

  lemma CoveredTail(ts: seq<Token>, args: map<string, Placeholder>, byName: map<string, Ident>)
    requires ts != [] && Covered(ts, args, byName)
    ensures Covered(ts[1..], args, byName)
    ensures ts[0].Hole? ==> ts[0].p.name in args && ts[0].p.name in byName
  {
    assert Holes(ts) == (if ts[0].Hole? then [ts[0].p] else []) + Holes(ts[1..]);
  }

  /** The program of a token list. */
  function Compile(ts: seq<Token>, args: map<string, Placeholder>, byName: map<string, Ident>): Program
    requires Covered(ts, args, byName)
  {
    if ts == [] then []
    else
      CoveredTail(ts, args, byName);
      (match ts[0]
       case Lit(x) => Chars(x)
       case Hole(q) => [GroupFor(args[q.name], byName[q.name])])
      + Compile(ts[1..], args, byName)
  }

  /** The groups of a program, in order. */
  function Groups(prog: Program): seq<Piece> {
    if prog == [] then []
    else (if prog[0].Group? then [prog[0]] else []) + Groups(prog[1..])
  }

  lemma {:induction false} GroupsAppend(a: Program, b: Program)
    ensures Groups(a + b) == Groups(a) + Groups(b)
    decreases |a|
  {
    if a == [] {
      assert a + b == b;
    } else {
      var head := if a[0].Group? then [a[0]] else [];
      assert (a + b)[0] == a[0];
      assert (a + b)[1..] == a[1..] + b;
      GroupsAppend(a[1..], b);
      assert Groups(a + b) == head + (Groups(a[1..]) + Groups(b));
      assert head + (Groups(a[1..]) + Groups(b)) == (head + Groups(a[1..])) + Groups(b);
    }
  }

  lemma {:induction false} GroupsChars(x: string)
    ensures Groups(Chars(x)) == []
    decreases |x|
  {
    if x != [] {
      assert Chars(x)[1..] == Chars(x[1..]);
      GroupsChars(x[1..]);
    }
  }

  /** Group i has the shape of the `argsByName` entry of occurrence i's name and the pattern
      of its index entry, for every occurrence i. */
  predicate Follow(hs: seq<Placeholder>, gs: seq<Piece>, args: map<string, Placeholder>, byName: map<string, Ident>) {
    && |gs| == |hs|
    && forall i :: 0 <= i < |hs| ==>
         hs[i].name in args && hs[i].name in byName
         && gs[i] == GroupFor(args[hs[i].name], byName[hs[i].name])
  }

  /** There is one group per placeholder occurrence, in template order, and group i has the
      shape of the last occurrence of the name of occurrence i and the pattern of its index
      entry; this is what lets `parse` read identifier i from capture i + 1. */
  lemma {:induction false} CompileGroups(ts: seq<Token>, args: map<string, Placeholder>, byName: map<string, Ident>)
    requires Covered(ts, args, byName)
    ensures Follow(Holes(ts), Groups(Compile(ts, args, byName)), args, byName)
    decreases |ts|
  {
    if ts != [] {
      var head: Program := match ts[0]
        case Lit(x) => Chars(x)
        case Hole(q) => [GroupFor(args[q.name], byName[q.name])];
      CoveredTail(ts, args, byName);
      CompileGroups(ts[1..], args, byName);
      GroupsAppend(head, Compile(ts[1..], args, byName));
      var hs, tl := Holes(ts), Holes(ts[1..]);
      var gs, gt := Groups(Compile(ts, args, byName)), Groups(Compile(ts[1..], args, byName));
      assert Compile(ts, args, byName) == head + Compile(ts[1..], args, byName);
      assert gs == Groups(head) + gt;
      match ts[0]
      case Lit(x) =>
        GroupsChars(x);
        assert hs == tl;
        assert gs == gt;
      case Hole(q) =>
        assert Groups(head) == [head[0]] + Groups([]);
        assert hs == [q] + tl;
        GroupsCons(q, tl, gt, args, byName);
    }
  }

  /** One more occurrence in front: its group heads the groups, and the groups still follow
      the occurrences one by one. */
  lemma GroupsCons(q: Placeholder, tl: seq<Placeholder>, gt: seq<Piece>,
                   args: map<string, Placeholder>, byName: map<string, Ident>)
    requires q.name in args && q.name in byName && Follow(tl, gt, args, byName)
    ensures Follow([q] + tl, [GroupFor(args[q.name], byName[q.name])] + gt, args, byName)
  {
    var hs, gs := [q] + tl, [GroupFor(args[q.name], byName[q.name])] + gt;
    forall i | 0 <= i < |hs|
      ensures hs[i].name in args && hs[i].name in byName
              && gs[i] == GroupFor(args[hs[i].name], byName[hs[i].name])
    {
      if i > 0 {
        assert gs[i] == gt[i - 1] && hs[i] == tl[i - 1];
      }
    }
  }

  /** The text of a literal character in the expression: `/` and `.` get a backslash. */
  function CharSource(c: char): string {
    if c == '/' || c == '.' then ['\\', c] else [c]
  }

  /** The text of a group. A required group keeps its slash outside the non-capturing group
      and an optional one takes it inside, so that an absent optional placeholder also drops
      its slash. */
  function GroupSource(slash: bool, dot: bool, optional: bool, pattern: string): string {
    var s := if slash then "\\/" else "";
    var f := if dot then "\\." else "";
    (if optional then "" else s) + "(?:" + (if optional then s else "") + f
      + "(" + pattern + ")" + ")" + (if optional then "?" else "")
  }

  function PieceSource(p: Piece): string {
    match p
    case Char(c) => CharSource(c)
    case Group(slash, dot, optional, pattern) => GroupSource(slash, dot, optional, pattern)
  }

  function Body(prog: Program): string {
    if prog == [] then "" else PieceSource(prog[0]) + Body(prog[1..])
  }

  /** The source of the compiled expression: the body anchored at both ends. */
  function Source(prog: Program): string {
    "^" + Body(prog) + "$"
  }

  lemma {:induction false} BodyAppend(a: Program, b: Program)
    ensures Body(a + b) == Body(a) + Body(b)
    decreases |a|
  {
    if a == [] {
      assert a + b == b;
    } else {
      assert (a + b)[1..] == a[1..] + b;
      BodyAppend(a[1..], b);
    }
  }

  /** `text.replace(/([\/.])/g, '\\$1')`. */
  function Escaped(x: string): string {
    if x == [] then "" else CharSource(x[0]) + Escaped(x[1..])
  }

  lemma {:induction false} BodyChars(x: string)
    ensures Body(Chars(x)) == Escaped(x)
    decreases |x|
  {
    if x != [] {
      assert Chars(x)[1..] == Chars(x[1..]);
      BodyChars(x[1..]);
    }
  }

  /** The body of a compiled template is the concatenation of the escaped literals and of
      the group of every occurrence, token by token. */
  function TokenSource(t: Token, args: map<string, Placeholder>, byName: map<string, Ident>): string
    requires t.Hole? ==> t.p.name in args && t.p.name in byName
  {
    match t
    case Lit(x) => Escaped(x)
    case Hole(q) => PieceSource(GroupFor(args[q.name], byName[q.name]))
  }

  function TokensSource(ts: seq<Token>, args: map<string, Placeholder>, byName: map<string, Ident>): string
    requires Covered(ts, args, byName)
  {
    if ts == [] then ""
    else
      CoveredTail(ts, args, byName);
      TokenSource(ts[0], args, byName) + TokensSource(ts[1..], args, byName)
  }

  lemma {:induction false} BodyCompile(ts: seq<Token>, args: map<string, Placeholder>, byName: map<string, Ident>)
    requires Covered(ts, args, byName)
    ensures Body(Compile(ts, args, byName)) == TokensSource(ts, args, byName)
    decreases |ts|
  {
    if ts != [] {
      var head: Program := match ts[0]
        case Lit(x) => Chars(x)
        case Hole(q) => [GroupFor(args[q.name], byName[q.name])];
      CoveredTail(ts, args, byName);
      BodyCompile(ts[1..], args, byName);
      BodyAppend(head, Compile(ts[1..], args, byName));
      match ts[0]
      case Lit(x) => BodyChars(x);
      case Hole(q) =>
        assert Body(head) == PieceSource(head[0]) + Body([]);
    }
  }
}
