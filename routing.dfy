/** What the two copies of the router (the CommonJS sources and the bundle) share: the
    methods a route may be bound to, the method filter of `parse`, the invariant that ties a
    route's identifier records to its template, and the program `regex()` compiles. */
module Routing {
  import opened Runtime
  import opened Placeholders
  import opened Identifiers
  import opened Conditions
  import opened Compiler
  import opened Matcher

  /** `METHODS`. */
  const Methods: seq<string> := ["GET", "HEAD", "POST", "PUT", "DELETE", "OPTIONS"]

  /** The check at the top of `match`: a truthy method must be one of `Methods`; an absent
      or empty method leaves the route unbound. */
  predicate Accepted(verb: Option<string>): (r: bool)
    ensures !Truthy(verb) ==> r
    ensures verb == Some("HEAD") ==> r
    ensures Truthy(verb) && verb.value !in Methods ==> !r
  {
    !Truthy(verb) || verb.value in Methods
  }

  /** The method `parse` compares: HEAD is compared as GET. */
  function Compared(verb: Option<string>): Option<string> {
    if verb == Some("HEAD") then Some("GET") else verb
  }

  /** The method filter of `parse`: a route bound to a method only admits a caller method
      that is absent, empty, or the same once HEAD is read as GET. */
  predicate Admits(bound: Option<string>, verb: Option<string>): (r: bool)
    ensures !Truthy(bound) || !Truthy(verb) ==> r
    ensures verb == Some("HEAD") ==> (r <==> !Truthy(bound) || bound.value == "GET")
    ensures Truthy(verb) && verb != Some("HEAD") && Truthy(bound) ==> (r <==> verb == bound)
  {
    var m := Compared(verb);
    !(Truthy(m) && Truthy(bound) && m.value != bound.value)
  }

  /** A route's records belong to its template: one record per placeholder occurrence, in
      order and with its name, every record consistent, and the index keeping the last
      record of every name. `match` establishes it and `where` keeps it. */
  predicate Indexed(uri: string, ids: seq<Ident>, byName: map<string, Ident>) {
    var hs := Holes(Tokenize(uri));
    && byName == ByName(ids)
    && |ids| == |hs|
    && (forall i :: 0 <= i < |ids| ==> ids[i].name == hs[i].name && Consistent(ids[i]))
  }

  /** Every name of an indexed template has an `argsByName` entry and an index entry, so
      `regex()` can compile it. */
  lemma IndexedCovered(uri: string, ids: seq<Ident>, byName: map<string, Ident>)
    requires Indexed(uri, ids, byName)
    ensures Covered(Tokenize(uri), ArgsByName(Holes(Tokenize(uri))), byName)
  {
    var hs := Holes(Tokenize(uri));
    ArgsByNameLast(hs);
    ByNameLast(ids);
    forall p | p in hs
      ensures p.name in byName
    {
      var i :| 0 <= i < |hs| && hs[i] == p;
      assert ids[i].name == p.name;
    }
  }

  /** The program `regex()` builds from the template and the index. */
  function Compiled(uri: string, byName: map<string, Ident>): Program
    requires Covered(Tokenize(uri), ArgsByName(Holes(Tokenize(uri))), byName)
  {
    Compile(Tokenize(uri), ArgsByName(Holes(Tokenize(uri))), byName)
  }

  /** The compiled program of an indexed route has one group per record, and group i carries
      the pattern of the index entry of record i's name, which for a name that occurs once is
      record i's own pattern: capture i + 1 is the value of record i. */
  lemma CompiledGroups(uri: string, ids: seq<Ident>, byName: map<string, Ident>)
    requires Indexed(uri, ids, byName)
    ensures Covered(Tokenize(uri), ArgsByName(Holes(Tokenize(uri))), byName)
    ensures var gs := Groups(Compiled(uri, byName));
            && |gs| == |ids|
            && forall i :: 0 <= i < |ids| ==>
                 ids[i].name in byName && gs[i].Group? && gs[i].pattern == byName[ids[i].name].pattern
  {
    IndexedCovered(uri, ids, byName);
    var hs := Holes(Tokenize(uri));
    CompileGroups(Tokenize(uri), ArgsByName(hs), byName);
    forall i | 0 <= i < |ids|
      ensures ids[i].name in byName
    {
      assert hs[i] in hs;
    }
  }

  /** The records `match` makes satisfy the invariant, and record i has the segment class for
      a `:` occurrence and the glob class for a `*` one. */
  lemma ScannedIndexed(uri: string)
    ensures var hs := Holes(Tokenize(uri));
            var ids := IdentsOf(hs);
            && Indexed(uri, ids, ByName(ids))
            && forall i :: 0 <= i < |hs| ==>
                 ids[i].pattern == (if hs[i].kind == Segment then KeyPattern else GlobPattern)
  {
    IdentsOfExact(Holes(Tokenize(uri)));
  }

  /** `where` keeps the invariant, whichever conditions it is given and wherever it stops. */
  lemma ConditionedIndexed(build: Build, uri: string, ids: seq<Ident>, conds: seq<(string, Condition)>)
    requires Indexed(uri, ids, ByName(ids))
    ensures var ids' := Conditioned(build, ids, conds).0;
            Indexed(uri, ids', ByName(ids'))
  {
    ConditionedShape(build, ids, conds);
  }

  /** What `next` finds from offset `i` among the per-route results: the first result that
      is not `false`, with the offset after its route. */
  function FirstFound<T>(os: seq<Option<T>>, i: nat): Option<(T, nat)>
    decreases |os| - i
  {
    if i >= |os| then None
    else if os[i].Some? then Some((os[i].value, i + 1))
    else FirstFound(os, i + 1)
  }

  /** `next` from `i` finds nothing exactly when every result from `i` on is `false`;
      otherwise it finds result j, the first from `i` on that is not `false`, and resumes at
      j + 1. */
  lemma {:induction false} FirstFoundFirst<T>(os: seq<Option<T>>, i: nat)
    ensures FirstFound(os, i).None? <==> forall k :: i <= k < |os| ==> os[k].None?
    ensures FirstFound(os, i).Some? ==>
              var j := FirstFound(os, i).value.1 - 1;
              && i <= j < |os| && os[j] == Some(FirstFound(os, i).value.0)
              && forall k :: i <= k < j ==> os[k].None?
    decreases |os| - i
  {
    if i < |os| && os[i].None? {
      FirstFoundFirst(os, i + 1);
    }
  }

  /** What `all` has collected once the first `n` per-route results are seen: every result
      that is not `false`, in registration order. */
  function Collected<T>(os: seq<Option<T>>, n: nat): seq<T>
    requires n <= |os|
  {
    if n == 0 then []
    else Collected(os, n - 1) + (if os[n - 1].Some? then [os[n - 1].value] else [])
  }

  /** One more result: what `all` has collected grows by that result when it is not `false`. */
  lemma CollectedNext<T>(os: seq<Option<T>>, n: nat, ret: Option<T>, all: seq<T>)
    requires n < |os| && os[n] == ret && all == Collected(os, n)
    ensures Collected(os, n + 1) == if ret.Some? then all + [ret.value] else all
  {
    if ret.None? {
      assert all + [] == all;
    }
  }

  /** `all` over `n` routes collects at most `n` results. */
  lemma {:induction false} CollectedLength<T>(os: seq<Option<T>>, n: nat)
    requires n <= |os|
    ensures |Collected(os, n)| <= n
  {
    if n > 0 {
      CollectedLength(os, n - 1);
    }
  }

  /** What `all` returns: every per-route result that is not `false`, in order. */
  function Collect<T>(os: seq<Option<T>>): seq<T> {
    Collected(os, |os|)
  }

  /** `all` collects exactly the results that are not `false`. */
  lemma {:induction false} CollectedMembers<T>(os: seq<Option<T>>, n: nat)
    requires n <= |os|
    ensures forall x :: x in Collected(os, n) <==> exists k :: 0 <= k < n && os[k] == Some(x)
  {
    if n > 0 {
      CollectedMembers(os, n - 1);
    }
  }

  /** `all` over the first `n` results is empty exactly when all of them are `false`. */
  lemma {:induction false} CollectedEmpty<T>(os: seq<Option<T>>, n: nat)
    requires n <= |os|
    ensures Collected(os, n) == [] <==> forall k :: 0 <= k < n ==> os[k].None?
  {
    if n > 0 {
      CollectedEmpty(os, n - 1);
    }
  }

  /** When result j is the first that is not `false`, it heads what `all` collects. */
  lemma {:induction false} CollectedHead<T>(os: seq<Option<T>>, j: nat, n: nat)
    requires j < n <= |os| && os[j].Some?
    requires forall k :: 0 <= k < j ==> os[k].None?
    ensures Collected(os, n) != [] && Collected(os, n)[0] == os[j].value
  {
    if n == j + 1 {
      CollectedEmpty(os, j);
    } else {
      CollectedHead(os, j, n - 1);
    }
  }

  /** `first` finds nothing exactly when `all` is empty, and otherwise it finds the first
      thing `all` collects. */
  lemma FirstAll<T>(os: seq<Option<T>>)
    ensures FirstFound(os, 0).None? <==> Collect(os) == []
    ensures FirstFound(os, 0).Some? ==> Collect(os)[0] == FirstFound(os, 0).value.0
  {
    FirstFoundFirst(os, 0);
    CollectedEmpty(os, |os|);
    if FirstFound(os, 0).Some? {
      CollectedHead(os, FirstFound(os, 0).value.1 - 1, |os|);
    }
  }

  /** One step of the scan: the occurrence found from `k` is the next one of the template,
      and its record is appended. */
  lemma {:induction false} ScanStep(template: string, k: nat, seen: seq<Placeholder>)
    requires k <= |template| && FindFrom(template, k).Some?
    requires Holes(Tokenize(template)) == seen + Holes(Tokenize(template[k..]))
    ensures var f := FindFrom(template, k).value;
            && k < End(f) <= |template|
            && Holes(Tokenize(template)) == (seen + [f.hole]) + Holes(Tokenize(template[End(f)..]))
  {
    var f := FindFrom(template, k).value;
    HolesFrom(template, k);
    var rest := Holes(Tokenize(template[End(f)..]));
    assert seen + ([f.hole] + rest) == (seen + [f.hole]) + rest;
  }

  /** The scan has seen every occurrence once nothing more is found. */
  lemma {:induction false} ScanDone(template: string, k: nat, seen: seq<Placeholder>)
    requires k <= |template| && FindFrom(template, k).None?
    requires Holes(Tokenize(template)) == seen + Holes(Tokenize(template[k..]))
    ensures seen == Holes(Tokenize(template))
  {
    HolesFrom(template, k);
  }

  /** The loop of `parse` that reads the parameters: record i takes capture i + 1, decoded,
      when that is truthy. */
  method ReadParams(h: Host, ids: seq<Ident>, caps: Caps) returns (params: map<string, string>)
    ensures params == Params(h, ids, caps)
  {
    params := map[];
    var i := 0;
    while i < |ids|
      invariant i <= |ids| && params == Params(h, ids[..i], caps)
    {
      var val := Decoded(h, Capture(caps, i));
      assert ids[..i + 1][..i] == ids[..i];
      if Truthy(val) {
        params := params[ids[i].name := val.value];
      }
      i := i + 1;
    }
    assert ids[..|ids|] == ids;
  }
}
