/** URL generation (`stringify`): the template text is rewritten one leftmost placeholder at
    a time until none is left. `FillText` is that loop on text; `FillTokens` is the same
    substitution read token by token over the template's scan. `FillAligned` shows that the
    two agree on templates whose literals hold no sigil and whose substitutions cannot glue
    a separator onto the next placeholder, and `FillMatches` that what is generated then
    matches the route's own expression. */
module Generator {
  import opened Runtime
  import opened Placeholders
  import opened Identifiers
  import opened Compiler
  import opened Matcher

  /** A successful generation: the URI and the parameters no placeholder consumed. `None` is
      the `false` that `stringify` returns. */
  type Generated = Outcome<Option<(string, map<string, string>)>>

  /** `ident.regex.test(val)` for a record whose expression is the anchored form of its
      pattern. The default classes are given exactly; any other expression goes to the
      host's engine, as written, without the group that the route expression puts around a
      pattern. */
  predicate Validate(h: Host, id: Ident, v: string) {
    if id.regex == Anchored(KeyPattern) then IsKeyValue(v)
    else if id.regex == Anchored(GlobPattern) then IsGlobValue(v)
    else h.search(id.regex, v)
  }

  /** The `do ... while (found && matched)` loop of `stringify` on the text `w` with the
      remaining parameters `p`. The leftmost placeholder is rewritten: one whose name has no
      parameter is dropped when optional and stops generation otherwise; one whose parameter
      fails validation stops generation (the parameter is consumed first); any other becomes
      its separators followed by the value, and the parameter is consumed. A name without an
      index entry raises TypeError. */
  function FillText(h: Host, byName: map<string, Ident>, w: string, p: map<string, string>): Generated
    decreases |p|, |w|
  {
    match FindFirst(w)
    case None => Return(Some((w, p)))
    case Some(f) =>
      var q := f.hole;
      if q.name !in p then
        if q.optional then FillText(h, byName, w[..f.pos] + w[End(f)..], p)
        else Return(None)
      else if q.name !in byName then Throw(TypeError)
      else if !Validate(h, byName[q.name], p[q.name]) then Return(None)
      else FillText(h, byName, w[..f.pos] + Lead(q) + p[q.name] + w[End(f)..], p - {q.name})
  }

  /** A generation that succeeds, with `x` in front of its URI. */
  function Prepend(x: string, g: Generated): Generated {
    if g.Return? && g.value.Some? then Return(Some((x + g.value.value.0, g.value.value.1))) else g
  }

  /** The same substitution token by token: literals are copied, placeholders are
      substituted in order. */
  function FillTokens(h: Host, byName: map<string, Ident>, ts: seq<Token>, p: map<string, string>): Generated
    decreases |ts|
  {
    if ts == [] then Return(Some(("", p)))
    else
      match ts[0]
      case Lit(x) => Prepend(x, FillTokens(h, byName, ts[1..], p))
      case Hole(q) =>
        if q.name !in p then
          if q.optional then FillTokens(h, byName, ts[1..], p) else Return(None)
        else if q.name !in byName then Throw(TypeError)
        else if !Validate(h, byName[q.name], p[q.name]) then Return(None)
        else Prepend(Lead(q) + p[q.name], FillTokens(h, byName, ts[1..], p - {q.name}))
  }

  lemma PrependPrepend(x: string, y: string, g: Generated)
    ensures Prepend(x, Prepend(y, g)) == Prepend(x + y, g)
  {
    if g.Return? && g.value.Some? {
      assert x + (y + g.value.value.0) == x + y + g.value.value.0;
    }
  }

  lemma PrependNothing(g: Generated)
    ensures Prepend("", g) == g
  {
    if g.Return? && g.value.Some? {
      assert "" + g.value.value.0 == g.value.value.0;
    }
  }

  // ---------------------------------------------------------------------------------------
  // The hypotheses of the agreement

  /** No sigil in a text. */
  predicate Quiet(x: string) {
    forall k :: 0 <= k < |x| ==> !IsSigil(x[k])
  }

  /** A record with one of the two default classes. */
  predicate IsDefault(id: Ident) {
    (id.pattern == KeyPattern || id.pattern == GlobPattern) && Consistent(id)
  }

  /** Literal text holds no sigil. */
  predicate Plain(ts: seq<Token>) {
    forall i :: 0 <= i < |ts| && ts[i].Lit? ==> Quiet(ts[i].text)
  }

  /** Every placeholder has an index entry with a default class. */
  predicate Typed(ts: seq<Token>, byName: map<string, Ident>) {
    forall q :: q in Holes(ts) ==> q.name in byName && IsDefault(byName[q.name])
  }

  /** A placeholder directly followed by one without a slash is required and of the segment
      class, so its value ends in neither `/` nor `.` and cannot become the separator of
      the next one. */
  predicate SafeAdjacent(ts: seq<Token>, byName: map<string, Ident>) {
    forall i :: 0 <= i < |ts| - 1 && ts[i].Hole? && ts[i + 1].Hole? && !ts[i + 1].p.slash ==>
      !ts[i].p.optional && ts[i].p.name in byName && byName[ts[i].p.name].pattern == KeyPattern
  }

  predicate Regular(ts: seq<Token>, byName: map<string, Ident>) {
    Plain(ts) && Typed(ts, byName) && SafeAdjacent(ts, byName)
  }

  /** The text already generated ends in no separator that the placeholder starting the
      rest of the text (if one starts there) could take as its own. */
  predicate SeamOK(r: string, s: string) {
    |r| > 0 && MatchAt(s, 0).Some? && !MatchAt(s, 0).value.slash ==>
      r[|r| - 1] != '/' && (r[|r| - 1] == '.' ==> MatchAt(s, 0).value.dot)
  }

  lemma {:induction false} RegularSuffix(a: seq<Token>, b: seq<Token>, byName: map<string, Ident>)
    requires Regular(a + b, byName)
    ensures Regular(b, byName)
  {
    HolesAppend(a, b);
    forall i | 0 <= i < |b|
      ensures (a + b)[|a| + i] == b[i]
    {
    }
  }

  /** A match needs a sigil within its first three characters, so no match begins inside a
      sigil-free prefix unless it takes the prefix's last separators. */
  lemma {:induction false} NoMatchInPrefix(r: string, s: string)
    requires Quiet(r) && SeamOK(r, s)
    ensures forall x :: 0 <= x < |r| ==> MatchAt(r + s, x).None?
  {
    forall x | 0 <= x < |r|
      ensures MatchAt(r + s, x).None?
    {
      NoMatchAt(r, s, x);
    }
  }

  lemma {:induction false} NoMatchAt(r: string, s: string, x: nat)
    requires Quiet(r) && SeamOK(r, s) && x < |r|
    ensures MatchAt(r + s, x).None?
  {
    var t := r + s;
    var a := SlashEnd(t, x);
    var b := DotEnd(t, a);
    if b < |t| && IsSigil(t[b]) && MatchAt(t, x).Some? {
      assert b >= |r|;
      MatchAtLocal(r, s, 0);
      assert false;
    }
  }

  lemma QuietCat(a: string, b: string)
    requires Quiet(a) && Quiet(b)
    ensures Quiet(a + b)
  {
    forall k | 0 <= k < |a + b|
      ensures !IsSigil((a + b)[k])
    {
      if k >= |a| {
        assert (a + b)[k] == b[k - |a|];
      }
    }
  }

  /** A value that passes a default class holds no sigil, and one of the segment class ends
      in neither `/` nor `.`. */
  lemma ValidQuiet(h: Host, id: Ident, v: string)
    requires IsDefault(id) && Validate(h, id, v)
    ensures Quiet(v) && |v| > 0
    ensures id.pattern == KeyPattern ==> v[|v| - 1] != '/' && v[|v| - 1] != '.'
  {
  }

  /** The scan and the token substitution at the leftmost occurrence `f` of `s`: the literal
      before it is copied, then the placeholder and the rest of the scan are substituted. */
  lemma {:induction false} TokensAtFirst(h: Host, byName: map<string, Ident>, s: string, f: Found, p: map<string, string>)
    requires FindFirst(s) == Some(f)
    ensures var rest := [Hole(f.hole)] + Tokenize(s[End(f)..]);
            FillTokens(h, byName, Tokenize(s), p) == Prepend(s[..f.pos], FillTokens(h, byName, rest, p))
  {
    var rest := [Hole(f.hole)] + Tokenize(s[End(f)..]);
    TokenizeAtFirst(s, f);
    if f.pos == 0 {
      assert [] + rest == rest;
      PrependNothing(FillTokens(h, byName, rest, p));
    } else {
      var ts := [Lit(s[..f.pos])] + rest;
      assert ts[0] == Lit(s[..f.pos]) && ts[1..] == rest;
    }
  }

  /** The scan at the leftmost occurrence `f`: the literal in front of it, if any, then the
      placeholder, then the scan of the rest. */
  lemma {:induction false} TokenizeAtFirst(s: string, f: Found)
    requires FindFirst(s) == Some(f)
    ensures Tokenize(s) == (if f.pos == 0 then [] else [Lit(s[..f.pos])])
                           + ([Hole(f.hole)] + Tokenize(s[End(f)..]))
  {
    var t := Tokenize(s[End(f)..]);
    assert Tokenize(s) == Step(s, f) + t;
    StepSplit(s, f, t);
  }

  lemma {:induction false} StepSplit(s: string, f: Found, t: seq<Token>)
    requires f.pos <= |s|
    ensures Step(s, f) + t == (if f.pos == 0 then [] else [Lit(s[..f.pos])]) + ([Hole(f.hole)] + t)
  {
  }

  lemma {:induction false} RegularSplit(byName: map<string, Ident>, lit: seq<Token>, rest: seq<Token>, x: string)
    requires Regular(lit + rest, byName) && (lit == [] || lit == [Lit(x)])
    ensures lit != [] ==> Quiet(x)
    ensures Regular(rest, byName)
  {
    if lit != [] {
      assert (lit + rest)[0] == Lit(x);
    }
    RegularSuffix(lit, rest, byName);
  }

  /** The hypotheses carry over to the scan from the leftmost occurrence on. */
  lemma {:induction false} RegularAtFirst(byName: map<string, Ident>, s: string, f: Found)
    requires FindFirst(s) == Some(f) && Regular(Tokenize(s), byName)
    ensures Quiet(s[..f.pos]) && Regular([Hole(f.hole)] + Tokenize(s[End(f)..]), byName)
  {
    TokenizeAtFirst(s, f);
    var lit: seq<Token> := if f.pos == 0 then [] else [Lit(s[..f.pos])];
    RegularSplit(byName, lit, [Hole(f.hole)] + Tokenize(s[End(f)..]), s[..f.pos]);
  }

  /** A placeholder followed in the scan by one that starts the rest of the text without a
      slash is required and of the segment class. */
  lemma {:induction false} NextWithoutSlash(q: Placeholder, s: string, byName: map<string, Ident>)
    requires Regular([Hole(q)] + Tokenize(s), byName)
    requires MatchAt(s, 0).Some? && !MatchAt(s, 0).value.slash
    ensures !q.optional && q.name in byName && byName[q.name].pattern == KeyPattern
  {
    var b := MatchAt(s, 0).value;
    assert FindFirst(s) == Some(Found(0, b));
    assert Tokenize(s) == [Hole(b)] + Tokenize(s[End(Found(0, b))..]);
    var ts := [Hole(q)] + Tokenize(s);
    assert ts[0] == Hole(q) && ts[1] == Hole(b);
  }

  /** The substitution of the placeholder at the head of a token list. */
  lemma HoleHead(h: Host, byName: map<string, Ident>, q: Placeholder, ts: seq<Token>, p: map<string, string>)
    ensures FillTokens(h, byName, [Hole(q)] + ts, p) ==
            if q.name !in p then
              if q.optional then FillTokens(h, byName, ts, p) else Return(None)
            else if q.name !in byName then Throw(TypeError)
            else if !Validate(h, byName[q.name], p[q.name]) then Return(None)
            else Prepend(Lead(q) + p[q.name], FillTokens(h, byName, ts, p - {q.name}))
  {
    assert ([Hole(q)] + ts)[0] == Hole(q) && ([Hole(q)] + ts)[1..] == ts;
  }

  /** One pass of the loop on `r + s` when no placeholder begins in `r`: it rewrites the
      leftmost occurrence `f` of `s`. */
  lemma {:induction false} TextAtFirst(h: Host, byName: map<string, Ident>, r: string, s: string, f: Found, p: map<string, string>)
    requires Quiet(r) && SeamOK(r, s) && FindFirst(s) == Some(f)
    ensures var q := f.hole;
            var lit := s[..f.pos];
            var s' := s[End(f)..];
            FillText(h, byName, r + s, p) ==
              if q.name !in p then
                if q.optional then FillText(h, byName, r + lit + s', p) else Return(None)
              else if q.name !in byName then Throw(TypeError)
              else if !Validate(h, byName[q.name], p[q.name]) then Return(None)
              else FillText(h, byName, r + lit + Lead(q) + p[q.name] + s', p - {q.name})
  {
    NoMatchInPrefix(r, s);
    FindFirstShift(r, s);
    var f' := Found(|r| + f.pos, f.hole);
    assert FindFirst(r + s) == Some(f');
    assert (r + s)[..f'.pos] == r + s[..f.pos];
    assert (r + s)[End(f')..] == s[End(f)..];
  }

  /** The loop on the text and the substitution on its scan agree, whatever was generated in
      front of the text so far, as long as that holds no sigil and leaves no separator for
      the next placeholder to take. */
  lemma {:induction false} FillAligned(h: Host, byName: map<string, Ident>, r: string, s: string, p: map<string, string>)
    requires Quiet(r) && SeamOK(r, s) && Regular(Tokenize(s), byName)
    ensures FillText(h, byName, r + s, p) == Prepend(r, FillTokens(h, byName, Tokenize(s), p))
    decreases |s|, 1
  {
    match FindFirst(s)
    case None =>
      AlignQuiet(h, byName, r, s, p);
    case Some(f) =>
      var q := f.hole;
      TextAtFirst(h, byName, r, s, f, p);
      TokensAtFirst(h, byName, s, f, p);
      RegularAtFirst(byName, s, f);
      HoleHead(h, byName, q, Tokenize(s[End(f)..]), p);
      if q.name !in p {
        if q.optional {
          AlignDropped(h, byName, r, s, f, p);
        }
      } else if q.name in byName && Validate(h, byName[q.name], p[q.name]) {
        AlignFilled(h, byName, r, s, f, p);
      }
  }

  /** Without an occurrence in the text, both copy it after what was generated. */
  lemma AlignQuiet(h: Host, byName: map<string, Ident>, r: string, s: string, p: map<string, string>)
    requires Quiet(r) && SeamOK(r, s) && FindFirst(s).None?
    ensures FillText(h, byName, r + s, p) == Prepend(r, FillTokens(h, byName, Tokenize(s), p))
  {
    NoMatchInPrefix(r, s);
    FindFirstShift(r, s);
    if s == [] {
      assert r + s == r && r + "" == r;
    } else {
      assert [Lit(s)][0] == Lit(s) && [Lit(s)][1..] == [];
      assert s + "" == s;
      PrependPrepend(r, s, Return(Some(("", p))));
    }
  }

  lemma {:induction false} AlignDropped(h: Host, byName: map<string, Ident>, r: string, s: string, f: Found, p: map<string, string>)
    requires Quiet(r) && FindFirst(s) == Some(f) && f.hole.optional
    requires Regular([Hole(f.hole)] + Tokenize(s[End(f)..]), byName) && Quiet(s[..f.pos])
    ensures var s' := s[End(f)..];
            FillText(h, byName, r + s[..f.pos] + s', p)
            == Prepend(r, Prepend(s[..f.pos], FillTokens(h, byName, Tokenize(s'), p)))
    decreases |s|, 0
  {
    var q := f.hole;
    var lit := s[..f.pos];
    var s' := s[End(f)..];
    var ts' := Tokenize(s');
    QuietCat(r, lit);
    if MatchAt(s', 0).Some? && !MatchAt(s', 0).value.slash {
      NextWithoutSlash(q, s', byName);
      assert false;
    }
    RegularSuffix([Hole(q)], ts', byName);
    FillAligned(h, byName, r + lit, s', p);
    PrependPrepend(r, lit, FillTokens(h, byName, ts', p));
  }

  lemma {:induction false} AlignFilled(h: Host, byName: map<string, Ident>, r: string, s: string, f: Found, p: map<string, string>)
    requires Quiet(r) && End(f) <= |s|
    requires Regular([Hole(f.hole)] + Tokenize(s[End(f)..]), byName) && Quiet(s[..f.pos])
    requires f.hole.name in p && f.hole.name in byName && Validate(h, byName[f.hole.name], p[f.hole.name])
    ensures var q := f.hole;
            var s' := s[End(f)..];
            var x := Lead(q) + p[q.name];
            FillText(h, byName, r + s[..f.pos] + Lead(q) + p[q.name] + s', p - {q.name})
            == Prepend(r, Prepend(s[..f.pos], Prepend(x, FillTokens(h, byName, Tokenize(s'), p - {q.name}))))
    decreases |s|, 0
  {
    var q := f.hole;
    var lit := s[..f.pos];
    var s' := s[End(f)..];
    var ts' := Tokenize(s');
    var v := p[q.name];
    var r' := r + lit + Lead(q) + v;
    var g := FillTokens(h, byName, ts', p - {q.name});
    FilledPrefix(h, byName, r, lit, q, v, s');
    RegularSuffix([Hole(q)], ts', byName);
    FillAligned(h, byName, r', s', p - {q.name});
    PrependPrepend(r + lit, Lead(q) + v, g);
    PrependPrepend(r, lit, Prepend(Lead(q) + v, g));
    assert r + lit + (Lead(q) + v) == r';
  }

  /** After a substitution the text generated so far still holds no sigil and leaves no
      separator for the next placeholder. */
  lemma {:induction false} FilledPrefix(h: Host, byName: map<string, Ident>, r: string, lit: string, q: Placeholder, v: string, s': string)
    requires Quiet(r) && Quiet(lit) && Regular([Hole(q)] + Tokenize(s'), byName)
    requires q.name in byName && Validate(h, byName[q.name], v)
    ensures Quiet(r + lit + Lead(q) + v) && SeamOK(r + lit + Lead(q) + v, s')
  {
    var r' := r + lit + Lead(q) + v;
    assert ([Hole(q)] + Tokenize(s'))[0] == Hole(q);
    ValidQuiet(h, byName[q.name], v);
    QuietCat(r, lit);
    QuietCat(r + lit, Lead(q));
    QuietCat(r + lit + Lead(q), v);
    if MatchAt(s', 0).Some? && !MatchAt(s', 0).value.slash {
      NextWithoutSlash(q, s', byName);
      assert r'[|r'| - 1] == v[|v| - 1];
    }
  }

  // ---------------------------------------------------------------------------------------
  // What is generated matches

  /** Every placeholder of the tokens is the `argsByName` entry of its name. */
  predicate Shaped(ts: seq<Token>, args: map<string, Placeholder>) {
    forall q :: q in Holes(ts) ==> q.name in args && args[q.name] == q
  }

  /** All occurrences of a name are written alike. */
  predicate Uniform(ps: seq<Placeholder>) {
    forall i, j :: 0 <= i < |ps| && 0 <= j < |ps| && ps[i].name == ps[j].name ==> ps[i] == ps[j]
  }

  lemma {:induction false} ArgsUniform(ps: seq<Placeholder>)
    requires Uniform(ps)
    ensures forall i :: 0 <= i < |ps| ==> ps[i].name in ArgsByName(ps) && ArgsByName(ps)[ps[i].name] == ps[i]
    decreases |ps|
  {
    if ps != [] {
      var pre := ps[..|ps| - 1];
      assert Uniform(pre);
      ArgsUniform(pre);
      forall i | 0 <= i < |ps|
        ensures ps[i].name in ArgsByName(ps) && ArgsByName(ps)[ps[i].name] == ps[i]
      {
        if i < |pre| && ps[i].name != ps[|ps| - 1].name {
          assert pre[i] == ps[i];
        }
      }
    }
  }

  lemma TokensTail(ts: seq<Token>, byName: map<string, Ident>, args: map<string, Placeholder>)
    requires ts != [] && Typed(ts, byName) && Shaped(ts, args)
    ensures Typed(ts[1..], byName) && Shaped(ts[1..], args)
    ensures ts[0].Hole? ==> ts[0].p.name in byName && IsDefault(byName[ts[0].p.name])
                            && ts[0].p.name in args && args[ts[0].p.name] == ts[0].p
  {
    assert Holes(ts) == (if ts[0].Hole? then [ts[0].p] else []) + Holes(ts[1..]);
  }

  /** For a default class the route expression accepts whatever validation accepts. */
  lemma ValidAccepted(h: Host, id: Ident, v: string)
    requires IsDefault(id) && Validate(h, id, v)
    ensures Accept(h, id.pattern, v)
  {
  }

  /** A successful substitution spells text that the compiled tokens match, from wherever it
      is placed. */
  lemma {:induction false} TokensSpan(h: Host, byName: map<string, Ident>, args: map<string, Placeholder>,
                                      ts: seq<Token>, p: map<string, string>, s: string, i: nat)
    returns (caps: Caps)
    requires Typed(ts, byName) && Shaped(ts, args) && Covered(ts, args, byName) && i <= |s|
    requires FillTokens(h, byName, ts, p).Return? && FillTokens(h, byName, ts, p).value.Some?
    requires FillTokens(h, byName, ts, p).value.value.0 == s[i..]
    ensures Spans(h, Compile(ts, args, byName), s, i, caps)
    decreases |ts|, 2
  {
    if ts == [] {
      assert |s[i..]| == 0;
      assert Compile(ts, args, byName) == [];
      caps := [];
    } else if ts[0].Lit? {
      caps := LitSpan(h, byName, args, ts, p, s, i);
    } else {
      caps := HoleSpan(h, byName, args, ts, p, s, i);
    }
  }

  lemma {:induction false} LitSpan(h: Host, byName: map<string, Ident>, args: map<string, Placeholder>,
                                   ts: seq<Token>, p: map<string, string>, s: string, i: nat)
    returns (caps: Caps)
    requires ts != [] && ts[0].Lit?
    requires Typed(ts, byName) && Shaped(ts, args) && Covered(ts, args, byName) && i <= |s|
    requires FillTokens(h, byName, ts, p).Return? && FillTokens(h, byName, ts, p).value.Some?
    requires FillTokens(h, byName, ts, p).value.value.0 == s[i..]
    ensures Spans(h, Compile(ts, args, byName), s, i, caps)
    decreases |ts|, 0
  {
    TokensTail(ts, byName, args);
    CoveredTail(ts, args, byName);
    var tail := Compile(ts[1..], args, byName);
    var x := ts[0].text;
    var out := FillTokens(h, byName, ts[1..], p).value.value.0;
    assert s[i..] == x + out;
    assert s[i..i + |x|] == x && s[i + |x|..] == out;
    caps := TokensSpan(h, byName, args, ts[1..], p, s, i + |x|);
    SpansChars(h, x, tail, s, i, caps);
    assert Compile(ts, args, byName) == Chars(x) + tail;
  }

  lemma {:induction false} HoleSpan(h: Host, byName: map<string, Ident>, args: map<string, Placeholder>,
                                    ts: seq<Token>, p: map<string, string>, s: string, i: nat)
    returns (caps: Caps)
    requires ts != [] && ts[0].Hole?
    requires Typed(ts, byName) && Shaped(ts, args) && Covered(ts, args, byName) && i <= |s|
    requires FillTokens(h, byName, ts, p).Return? && FillTokens(h, byName, ts, p).value.Some?
    requires FillTokens(h, byName, ts, p).value.value.0 == s[i..]
    ensures Spans(h, Compile(ts, args, byName), s, i, caps)
    decreases |ts|, 1
  {
    TokensTail(ts, byName, args);
    CoveredTail(ts, args, byName);
    var q := ts[0].p;
    var g := Group(q.slash, q.dot, q.optional, byName[q.name].pattern);
    assert Compile(ts, args, byName) == [g] + Compile(ts[1..], args, byName);
    if q.name !in p {
      var rest := TokensSpan(h, byName, args, ts[1..], p, s, i);
      SpanDropped(h, g, Compile(ts[1..], args, byName), s, i, rest);
      caps := [None] + rest;
    } else {
      HoleFilled(h, byName, ts, p);
      caps := FilledSpan(h, byName, args, q, ts[1..], p, s, i);
    }
  }

  lemma {:induction false} FilledSpan(h: Host, byName: map<string, Ident>, args: map<string, Placeholder>,
                                      q: Placeholder, ts: seq<Token>, p: map<string, string>, s: string, i: nat)
    returns (caps: Caps)
    requires q.name in p && q.name in byName && IsDefault(byName[q.name]) && Validate(h, byName[q.name], p[q.name])
    requires Typed(ts, byName) && Shaped(ts, args) && Covered(ts, args, byName) && i <= |s|
    requires var rest := FillTokens(h, byName, ts, p - {q.name});
             rest.Return? && rest.value.Some? && s[i..] == Lead(q) + p[q.name] + rest.value.value.0
    ensures Spans(h, [Group(q.slash, q.dot, q.optional, byName[q.name].pattern)]
                  + Compile(ts, args, byName), s, i, caps)
    decreases |ts| + 1, 0
  {
    var g := Group(q.slash, q.dot, q.optional, byName[q.name].pattern);
    var tail := Compile(ts, args, byName);
    var v := p[q.name];
    var out := FillTokens(h, byName, ts, p - {q.name}).value.value.0;
    var l := Lead(q);
    SliceThree(s, i, l, v, out);
    var rest := TokensSpan(h, byName, args, ts, p - {q.name}, s, i + |l| + |v|);
    ValidQuiet(h, byName[q.name], v);
    ValidAccepted(h, byName[q.name], v);
    SpanFilled(h, g, tail, s, i, v, rest);
    caps := [Some(v)] + rest;
  }

  /** A placeholder whose parameter is there and valid is substituted by its separators and
      the value. */
  lemma HoleFilled(h: Host, byName: map<string, Ident>, ts: seq<Token>, p: map<string, string>)
    requires ts != [] && ts[0].Hole? && ts[0].p.name in p && ts[0].p.name in byName
    requires FillTokens(h, byName, ts, p).Return? && FillTokens(h, byName, ts, p).value.Some?
    ensures var q := ts[0].p;
            var rest := FillTokens(h, byName, ts[1..], p - {q.name});
            && Validate(h, byName[q.name], p[q.name])
            && rest.Return? && rest.value.Some?
            && FillTokens(h, byName, ts, p).value.value.0 == Lead(q) + p[q.name] + rest.value.value.0
  {
  }

  lemma SliceThree(s: string, i: nat, a: string, b: string, c: string)
    requires i <= |s| && s[i..] == a + b + c
    ensures i + |a| + |b| <= |s|
    ensures s[i..i + |a|] == a && s[i + |a|..i + |a| + |b|] == b && s[i + |a| + |b|..] == c
  {
    assert s[i..i + |a|] == s[i..][..|a|];
    assert s[i + |a|..i + |a| + |b|] == s[i..][|a|..|a| + |b|];
    assert s[i + |a| + |b|..] == s[i..][|a| + |b|..];
  }

  /** An absent optional group spans nothing. */
  lemma SpanDropped(h: Host, g: Piece, tail: Program, s: string, i: nat, caps: Caps)
    requires g.Group? && g.optional && i <= |s| && Spans(h, tail, s, i, caps)
    ensures Spans(h, [g] + tail, s, i, [None] + caps)
  {
    assert ([g] + tail)[0] == g && ([g] + tail)[1..] == tail;
    assert ([None] + caps)[0] == None && ([None] + caps)[1..] == caps;
  }

  /** A group spans its separators and an accepted non-empty value. */
  lemma SpanFilled(h: Host, g: Piece, tail: Program, s: string, i: nat, v: string, caps: Caps)
    requires g.Group? && |v| > 0 && Accept(h, g.pattern, v)
    requires var l := LeadText(g.slash, g.dot);
             && i + |l| + |v| <= |s| && s[i..i + |l|] == l && s[i + |l|..i + |l| + |v|] == v
             && Spans(h, tail, s, i + |l| + |v|, caps)
    ensures Spans(h, [g] + tail, s, i, [Some(v)] + caps)
  {
    var l := LeadText(g.slash, g.dot);
    SliceSpelled(s, i, i + |l|);
    assert ([g] + tail)[0] == g && ([g] + tail)[1..] == tail;
    assert ([Some(v)] + caps)[0] == Some(v) && ([Some(v)] + caps)[1..] == caps;
  }

  /** Round trip: when every literal of the template is free of sigils, every placeholder
      has a default class, every name is written alike wherever it occurs and no
      substitution can lend a separator to the next placeholder, a URI that `stringify`
      generates is matched by the route's own expression. */
  lemma FillMatches(h: Host, byName: map<string, Ident>, t: string, p: map<string, string>)
    requires Regular(Tokenize(t), byName) && Uniform(Holes(Tokenize(t)))
    requires FillText(h, byName, t, p).Return? && FillText(h, byName, t, p).value.Some?
    ensures var ts := Tokenize(t);
            var args := ArgsByName(Holes(ts));
            && Covered(ts, args, byName)
            && Exec(h, Compile(ts, args, byName), FillText(h, byName, t, p).value.value.0, 0).Some?
  {
    var ts := Tokenize(t);
    var args := ArgsByName(Holes(ts));
    var out := FillText(h, byName, t, p).value.value.0;
    ArgsUniform(Holes(ts));
    FillAligned(h, byName, "", t, p);
    assert "" + t == t;
    PrependNothing(FillTokens(h, byName, ts, p));
    var caps := TokensSpan(h, byName, args, ts, p, out, 0);
    ExecComplete(h, Compile(ts, args, byName), out, 0, caps);
  }

  // ---------------------------------------------------------------------------------------
  // What is consumed, and when generation fails

  /** On such templates the loop on the text is the substitution on its scan. */
  lemma FillScan(h: Host, byName: map<string, Ident>, t: string, p: map<string, string>)
    requires Regular(Tokenize(t), byName)
    ensures FillText(h, byName, t, p) == FillTokens(h, byName, Tokenize(t), p)
  {
    FillAligned(h, byName, "", t, p);
    assert "" + t == t;
    PrependNothing(FillTokens(h, byName, Tokenize(t), p));
  }

  /** Some placeholder of the tokens is named `k`. */
  predicate Mentioned(ts: seq<Token>, k: string) {
    exists q :: q in Holes(ts) && q.name == k
  }

  /** The parameters returned beside the URI are exactly those whose name no placeholder of
      the template has, with their values. */
  lemma {:induction false} FillRest(h: Host, byName: map<string, Ident>, ts: seq<Token>, p: map<string, string>)
    requires FillTokens(h, byName, ts, p).Return? && FillTokens(h, byName, ts, p).value.Some?
    ensures var rest := FillTokens(h, byName, ts, p).value.value.1;
            && (forall k :: k in rest <==> k in p && !Mentioned(ts, k))
            && (forall k :: k in rest ==> rest[k] == p[k])
    decreases |ts|
  {
    if ts != [] {
      assert Holes(ts) == (if ts[0].Hole? then [ts[0].p] else []) + Holes(ts[1..]);
      match ts[0]
      case Lit(x) =>
        FillRest(h, byName, ts[1..], p);
      case Hole(q) =>
        if q.name in p {
          FillRest(h, byName, ts[1..], p - {q.name});
        } else {
          FillRest(h, byName, ts[1..], p);
        }
    }
  }

  /** No two placeholders share a name. */
  predicate Distinct(ts: seq<Token>) {
    forall i, j :: 0 <= i < j < |Holes(ts)| ==> Holes(ts)[i].name != Holes(ts)[j].name
  }

  /** A placeholder stops generation: it is required and has no parameter, or its parameter
      fails validation. */
  predicate Blocks(h: Host, byName: map<string, Ident>, q: Placeholder, p: map<string, string>) {
    || (q.name !in p && !q.optional)
    || (q.name in p && q.name in byName && !Validate(h, byName[q.name], p[q.name]))
  }

  lemma DistinctTail(ts: seq<Token>)
    requires ts != [] && Distinct(ts)
    ensures Distinct(ts[1..])
    ensures ts[0].Hole? ==> forall q :: q in Holes(ts[1..]) ==> q.name != ts[0].p.name
  {
    var hs := Holes(ts);
    var head := if ts[0].Hole? then [ts[0].p] else [];
    assert hs == head + Holes(ts[1..]);
    forall i, j | 0 <= i < j < |Holes(ts[1..])|
      ensures Holes(ts[1..])[i].name != Holes(ts[1..])[j].name
    {
      assert hs[|head| + i] == Holes(ts[1..])[i] && hs[|head| + j] == Holes(ts[1..])[j];
    }
    if ts[0].Hole? {
      forall q | q in Holes(ts[1..])
        ensures q.name != ts[0].p.name
      {
        var j :| 0 <= j < |Holes(ts[1..])| && Holes(ts[1..])[j] == q;
        assert hs[0] == ts[0].p && hs[1 + j] == q;
      }
    }
  }

  /** With distinct names and indexed placeholders, generation never raises, and it fails
      exactly when some placeholder blocks it. */
  lemma {:induction false} FillFails(h: Host, byName: map<string, Ident>, ts: seq<Token>, p: map<string, string>)
    requires Distinct(ts) && forall q :: q in Holes(ts) ==> q.name in byName
    ensures FillTokens(h, byName, ts, p).Return?
    ensures FillTokens(h, byName, ts, p).value.None? <==> exists q :: q in Holes(ts) && Blocks(h, byName, q, p)
    decreases |ts|
  {
    if ts != [] {
      var hs := Holes(ts);
      assert hs == (if ts[0].Hole? then [ts[0].p] else []) + Holes(ts[1..]);
      DistinctTail(ts);
      match ts[0]
      case Lit(x) =>
        FillFails(h, byName, ts[1..], p);
      case Hole(q) =>
        if q.name in p && !Validate(h, byName[q.name], p[q.name]) {
          assert hs[0] == q && Blocks(h, byName, q, p);
        } else if q.name in p {
          var p' := p - {q.name};
          FillFails(h, byName, ts[1..], p');
          forall r | r in Holes(ts[1..])
            ensures Blocks(h, byName, r, p') == Blocks(h, byName, r, p)
          {
            assert r.name != q.name;
          }
          assert !Blocks(h, byName, q, p);
        } else if q.optional {
          FillFails(h, byName, ts[1..], p);
        } else {
          assert hs[0] == q && Blocks(h, byName, q, p);
        }
    }
  }
  /** For `stringify` itself on such templates: the parameters returned beside the URI are
      exactly those whose name no placeholder of the template has, with their values. */
  lemma FillTextRest(h: Host, byName: map<string, Ident>, t: string, p: map<string, string>)
    requires Regular(Tokenize(t), byName)
    requires FillText(h, byName, t, p).Return? && FillText(h, byName, t, p).value.Some?
    ensures var rest := FillText(h, byName, t, p).value.value.1;
            && (forall k :: k in rest <==> k in p && !Mentioned(Tokenize(t), k))
            && (forall k :: k in rest ==> rest[k] == p[k])
  {
    FillScan(h, byName, t, p);
    FillRest(h, byName, Tokenize(t), p);
  }

  /** For `stringify` itself on such templates with distinct names: it never raises, and it
      returns `false` exactly when some placeholder blocks it. */
  lemma FillTextFails(h: Host, byName: map<string, Ident>, t: string, p: map<string, string>)
    requires Regular(Tokenize(t), byName) && Distinct(Tokenize(t))
    ensures FillText(h, byName, t, p).Return?
    ensures FillText(h, byName, t, p).value.None? <==>
              exists q :: q in Holes(Tokenize(t)) && Blocks(h, byName, q, p)
  {
    FillScan(h, byName, t, p);
    FillFails(h, byName, Tokenize(t), p);
  }

  // ---------------------------------------------------------------------------------------
  // Outside the hypotheses

  /** Dropping an optional placeholder can hand the literal `/` before it to the next one:
      on `x//:a?:b?` with no parameters the first pass drops `/:a?` and leaves `x/:b?`, the
      second pass reads `/:b?` as one placeholder and drops it too, and `stringify` returns
      `x`, which the route's own expression `^x\/(?:\/(...))?(?:(...))?$` does not match. */
  lemma SlashAbsorbed(h: Host, t: string)
    requires t == "x//:a?:b?"
    ensures var ts := Tokenize(t);
            var hs := Holes(ts);
            var byName := ByName(IdentsOf(hs));
            var args := ArgsByName(hs);
            && Covered(ts, args, byName)
            && FillText(h, byName, t, map[]) == Return(Some(("x", map[])))
            && Exec(h, Compile(ts, args, byName), "x", 0).None?
  {
    var ts := AbsorbedScan(t);
    var hs := Holes(ts);
    var byName := ByName(IdentsOf(hs));
    var args := ArgsByName(hs);
    AbsorbedIndex(hs);
    assert Covered(ts, args, byName);
    AbsorbedFill(h, byName, t);
    AbsorbedProgram(ts, args, byName);
    AbsorbedExec(h, Compile(ts, args, byName));
  }

  /** The first occurrence in `x//:a?:b?` is `/:a?` at offset 2. */
  lemma AbsorbedFirst(t: string)
    requires t == "x//:a?:b?"
    ensures FindFirst(t) == Some(Found(2, Placeholder(true, false, Segment, "a", true)))
  {
    AbsorbedNone(t);
    assert WordEnd(t, 4) == 5 && t[4..5] == "a";
    MatchAtParts(t, 2, 3, 3, 5, Placeholder(true, false, Segment, "a", true));
    assert FindFrom(t, 0) == FindFrom(t, 1) == FindFrom(t, 2);
  }

  /** Nothing is found at the first two offsets of a text that starts with `x//`. */
  lemma AbsorbedNone(t: string)
    requires |t| > 3 && t[0] == 'x' && t[1] == '/' && t[2] == '/'
    ensures MatchAt(t, 0).None? && MatchAt(t, 1).None?
  {
    assert SlashEnd(t, 0) == 0 && DotEnd(t, 0) == 0;
    assert SlashEnd(t, 1) == 2 && DotEnd(t, 2) == 2;
  }

  /** `:b?` is one placeholder. */
  lemma AbsorbedLast(u: string)
    requires u == ":b?"
    ensures Tokenize(u) == [Hole(Placeholder(false, false, Segment, "b", true))]
  {
    var qb := Placeholder(false, false, Segment, "b", true);
    assert WordEnd(u, 1) == 2 && u[1..2] == "b";
    MatchAtParts(u, 0, 0, 0, 2, qb);
    assert FindFirst(u) == Some(Found(0, qb));
    assert u[3..] == [];
  }

  /** The scan of `x//:a?:b?`: the literal `x/`, then `/:a?` and `:b?`. */
  lemma AbsorbedScan(t: string) returns (ts: seq<Token>)
    requires t == "x//:a?:b?"
    ensures ts == Tokenize(t) && |ts| == 3 && ts[0] == Lit("x/") && ts[1].Hole? && ts[2].Hole?
    ensures Holes(ts) == [ts[1].p, ts[2].p]
  {
    var f := Found(2, Placeholder(true, false, Segment, "a", true));
    AbsorbedFirst(t);
    TokenizeFound(t, f);
    AbsorbedSlices(t);
    AbsorbedLast(t[6..]);
    ts := [Lit("x/"), Hole(f.hole), Hole(Placeholder(false, false, Segment, "b", true))];
    AbsorbedHoles(ts);
  }

  lemma AbsorbedSlices(t: string)
    requires t == "x//:a?:b?"
    ensures t[..2] == "x/" && t[6..] == ":b?"
  {
  }

  /** The scan of a text whose first occurrence is `f`. */
  lemma TokenizeFound(s: string, f: Found)
    requires FindFirst(s) == Some(f)
    ensures End(f) <= |s| && Tokenize(s) == Step(s, f) + Tokenize(s[End(f)..])
  {
  }

  lemma AbsorbedHoles(ts: seq<Token>)
    requires |ts| == 3 && ts[0].Lit? && ts[1].Hole? && ts[2].Hole?
    ensures Holes(ts) == [ts[1].p, ts[2].p]
  {
    assert Holes(ts[2..]) == [ts[2].p] + Holes([]) by { assert ts[2..][1..] == []; }
    assert Holes(ts[1..]) == [ts[1].p] + Holes(ts[2..]) by { assert ts[1..][1..] == ts[2..]; }
  }

  /** Both names of a template with two placeholders have a record and an `argsByName`
      entry. */
  lemma AbsorbedIndex(hs: seq<Placeholder>)
    requires |hs| == 2
    ensures hs[0].name in ByName(IdentsOf(hs)) && hs[1].name in ByName(IdentsOf(hs))
    ensures hs[0].name in ArgsByName(hs) && hs[1].name in ArgsByName(hs)
  {
    var ids := IdentsOf(hs);
    IdentsOfExact(hs);
    ByNameLast(ids);
    ArgsByNameLast(hs);
    assert ids[0].name == hs[0].name && ids[1].name == hs[1].name;
  }

  /** The second pass on `x/:b?` finds `/:b?` at offset 1. */
  lemma AbsorbedSecond(w: string)
    requires w == "x/:b?"
    ensures FindFirst(w) == Some(Found(1, Placeholder(true, false, Segment, "b", true)))
  {
    assert SlashEnd(w, 0) == 0 && DotEnd(w, 0) == 0;
    assert MatchAt(w, 0).None?;
    assert WordEnd(w, 3) == 4 && w[3..4] == "b";
    MatchAtParts(w, 1, 2, 2, 4, Placeholder(true, false, Segment, "b", true));
    assert FindFrom(w, 0) == FindFrom(w, 1);
  }

  /** `x` holds no placeholder. */
  lemma AbsorbedDone(x: string)
    requires x == "x"
    ensures FindFirst(x).None?
  {
    assert MatchAt(x, 0).None? && MatchAt(x, 1).None?;
  }

  /** The text loop on `x//:a?:b?` with no parameters: two passes drop both placeholders. */
  lemma AbsorbedFill(h: Host, byName: map<string, Ident>, t: string)
    requires t == "x//:a?:b?"
    ensures FillText(h, byName, t, map[]) == Return(Some(("x", map[])))
  {
    AbsorbedFirst(t);
    var w := t[..2] + t[6..];
    assert w == "x/:b?";
    AbsorbedSecond(w);
    var x := w[..1] + w[5..];
    assert x == "x";
    AbsorbedDone(x);
    assert FillText(h, byName, x, map[]) == Return(Some((x, map[])));
    assert FillText(h, byName, w, map[]) == Return(Some(("x", map[])));
  }

  /** The expression of a template that starts with the literal `x/` starts with those two
      characters. */
  lemma AbsorbedProgram(ts: seq<Token>, args: map<string, Placeholder>, byName: map<string, Ident>)
    requires |ts| > 0 && ts[0] == Lit("x/") && Covered(ts, args, byName)
    ensures |Compile(ts, args, byName)| >= 2
    ensures Compile(ts, args, byName)[0] == Char('x') && Compile(ts, args, byName)[1] == Char('/')
  {
    CoveredTail(ts, args, byName);
    assert Compile(ts, args, byName) == Chars("x/") + Compile(ts[1..], args, byName);
  }

  /** A program that starts with `x/` does not match `x`. */
  lemma AbsorbedExec(h: Host, prog: Program)
    requires |prog| >= 2 && prog[0] == Char('x') && prog[1] == Char('/')
    ensures Exec(h, prog, "x", 0).None?
  {
    assert prog[1..][0] == Char('/');
    assert Exec(h, prog[1..], "x", 1).None?;
  }
}
