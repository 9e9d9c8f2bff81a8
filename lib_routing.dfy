/** The CommonJS router: `Route` of lib/route.js and `Router` of lib/router.js. A route holds
    its template, the method it is bound to, its identifier records and their index, its
    terminal and name, and the memoised expression; a router holds its routes in
    registration order and the named ones by name. */
module LibRouting {
  import opened Runtime
  import opened Strings
  import opened Placeholders
  import opened Identifiers
  import opened Conditions
  import opened Compiler
  import opened Matcher
  import opened Generator
  import opened Routing

  /** What `next` returns: the parameters of the route that parsed, on which `next` is then
      set to the offset to resume from; that property replaces a parameter named `next`. */
  datatype Hit = Hit(params: map<string, string>, next: nat)

  function Resumable(found: Option<(map<string, string>, nat)>): Option<Hit> {
    match found
    case None => None
    case Some((ps, n)) => Some(Hit(ps - {"next"}, n))
  }

  /** A route as `parse` sees it. */
  datatype Parser = Parser(bound: Option<string>, prog: Program, ids: seq<Ident>)

  /** What `parse` returns: `false` (None) when the method filter rejects the caller's
      method or the expression does not match, and otherwise the decoded, truthy captures
      by record name. */
  function ParseBy(p: Parser, h: Host, s: string, m: Option<string>): Option<map<string, string>> {
    if !Admits(p.bound, m) then None
    else
      match Exec(h, p.prog, s, 0)
      case None => None
      case Some(caps) => Some(Params(h, p.ids, caps))
  }

  class Route {
    const router: Router
    var uri: string
    /** The `method` field. */
    var verb: Option<string>
    var idents: seq<Ident>
    var identsByName: map<string, Ident>
    var terminal: Option<string>
    var controller: Option<string>
    var action: Option<string>
    var name: Option<string>
    /** The `regex` field that `regex()` fills on its first call. */
    var memo: Option<Program>

    ghost predicate Valid()
      reads this`uri, this`idents, this`identsByName
    {
      Indexed(uri, idents, identsByName)
    }

    /** What `match(template, bound)` leaves in the fields it sets. */
    ghost predicate Matched(template: string, bound: Option<string>)
      reads this
    {
      && uri == template && verb == bound
      && idents == IdentsOf(Holes(Tokenize(template))) && identsByName == ByName(idents)
      && Valid()
    }

    /** The state right after `match(template, bound)` on a fresh route. */
    ghost predicate Initial(template: string, bound: Option<string>)
      reads this
    {
      && Matched(template, bound)
      && terminal == None && controller == None && action == None && name == None && memo == None
    }

    /** Every field but the memo is as it was in the earlier state. */
    twostate predicate Kept()
      reads this
    {
      && uri == old(uri) && verb == old(verb) && idents == old(idents)
      && identsByName == old(identsByName) && terminal == old(terminal)
      && controller == old(controller) && action == old(action) && name == old(name)
    }

    /** The part of `new Route(router, ...)` before `match` runs. */
    constructor (router: Router)
      ensures this.router == router && uri == "" && verb == None && idents == [] && identsByName == map[]
      ensures terminal == None && controller == None && action == None && name == None && memo == None
      ensures Valid()
    {
      this.router := router;
      uri := "";
      verb := None;
      idents := [];
      identsByName := map[];
      terminal := None;
      controller := None;
      action := None;
      name := None;
      memo := None;
      HolesFrom("", 0);
      assert ""[0..] == "";
    }

    /** `match`: a truthy method outside `Methods` throws before anything changes; otherwise
        the template is scanned and one record per placeholder occurrence is pushed and
        indexed by name. The memo is left as it is. */
    method Match(template: string, bound: Option<string>) returns (r: Outcome<()>)
      modifies this`uri, this`verb, this`idents, this`identsByName
      ensures !Accepted(bound) ==> r == Throw(InvalidMethod)
      ensures !Accepted(bound) ==>
                uri == old(uri) && verb == old(verb) && idents == old(idents) && identsByName == old(identsByName)
      ensures Accepted(bound) ==> r == Return(())
      ensures Accepted(bound) ==> Matched(template, bound)
    {
      if !Accepted(bound) {
        return Throw(InvalidMethod);
      }
      uri := template;
      verb := bound;
      Scan(template);
      ScannedIndexed(template);
      return Return(());
    }

    /** The scan of `match`: the records are reset, and every placeholder occurrence found
        by the global search pushes its record and indexes it by name. */
    method Scan(template: string)
      modifies this`idents, this`identsByName
      ensures idents == IdentsOf(Holes(Tokenize(template))) && identsByName == ByName(idents)
    {
      idents := [];
      identsByName := map[];
      var k := 0;
      ghost var seen: seq<Placeholder> := [];
      var found := FindFrom(template, 0);
      assert template[0..] == template;
      while found.Some?
        invariant k <= |template| && found == FindFrom(template, k)
        invariant Holes(Tokenize(template)) == seen + Holes(Tokenize(template[k..]))
        invariant idents == IdentsOf(seen) && identsByName == ByName(idents)
        decreases |template| - k
      {
        var f := found.value;
        ScanStep(template, k, seen);
        IdentsOfSnoc(seen, f.hole);
        var ident := IdentOf(f.hole);
        ByNameSnoc(idents, ident);
        idents := idents + [ident];
        identsByName := identsByName[ident.name := ident];
        seen := seen + [f.hole];
        k := End(f);
        found := FindFrom(template, k);
      }
      ScanDone(template, k, seen);
    }

    /** `where`: the conditions are applied in order; each rewrites the record its name
        indexes, which is also the last record of that name in `idents` (the two are the
        same object in the source). A condition that is `null` or `undefined`, or a name the
        template does not have, throws a TypeError with the earlier conditions applied. */
    method Where(conds: seq<(string, Condition)>) returns (r: Outcome<()>)
      requires Valid()
      modifies this`idents, this`identsByName
      ensures Valid()
      ensures idents == Conditioned(Lib, old(idents), conds).0
      ensures Conditioned(Lib, old(idents), conds).1.None? ==> r == Return(())
      ensures Conditioned(Lib, old(idents), conds).1.Some? ==>
                r == Throw(Conditioned(Lib, old(idents), conds).1.value)
    {
      var k := 0;
      while k < |conds|
        invariant k <= |conds| && Valid()
        invariant Conditioned(Lib, old(idents), conds) == Conditioned(Lib, idents, conds[k..])
      {
        assert conds[k..][0] == conds[k] && conds[k..][1..] == conds[k + 1..];
        var (n, cond) := conds[k];
        var pattern := PatternOf(Lib, cond);
        if pattern.Throw? {
          return Throw(pattern.error);
        }
        ByNameLast(idents);
        if n !in identsByName {
          return Throw(TypeError);
        }
        var i := LastIndex(idents, n);
        var ident := Constrained(identsByName[n], pattern.value);
        ConditionStepIndex(Lib, idents, n, cond);
        ConditionedIndexed(Lib, uri, idents, [(n, cond)]);
        idents := idents[i := ident];
        identsByName := identsByName[n := ident];
        k := k + 1;
      }
      return Return(());
    }

    /** `to`: a terminal that is not a string, or that does not split on `.` into exactly two
        parts, throws before anything changes; otherwise it is stored with its controller
        and action, the text before and after its one dot. */
    method To(t: Option<string>) returns (r: Outcome<()>)
      modifies this`terminal, this`controller, this`action
      ensures t.None? ==> r == Throw(TerminalNotString)
      ensures t.Some? && Count(t.value, '.') != 1 ==> r == Throw(TerminalFormat)
      ensures r.Throw? ==> terminal == old(terminal) && controller == old(controller) && action == old(action)
      ensures t.Some? && Count(t.value, '.') == 1 ==>
                && r == Return(()) && terminal == t && controller.Some? && action.Some?
                && t.value == controller.value + "." + action.value
                && '.' !in controller.value && '.' !in action.value
    {
      if t.None? {
        return Throw(TerminalNotString);
      }
      var parts := Split(t.value, '.');
      SplitTwo(t.value, '.');
      if |parts| != 2 {
        return Throw(TerminalFormat);
      }
      terminal := t;
      controller := Some(parts[0]);
      action := Some(parts[1]);
      return Return(());
    }

    /** `as`: the route takes the name and is registered under it, replacing any route of
        that name. */
    method As(n: string) returns (r: Route)
      modifies this`name, router`routesByName
      ensures r == this && name == Some(n)
      ensures router.routesByName == old(router.routesByName)[n := this]
    {
      name := Some(n);
      router.routesByName := router.routesByName[n := this];
      return this;
    }

    /** The expression `regex()` returns: the memo once there is one, and otherwise the
        compilation of the template with the current records. */
    function Program(): Program
      reads this
      requires Valid()
    {
      if memo.Some? then memo.value
      else
        IndexedCovered(uri, idents, identsByName);
        Compiled(uri, identsByName)
    }

    /** `regex()`: compiled on the first call and reused afterwards, so that records
        rewritten by a later `where` no longer change it. */
    method Regex() returns (prog: Program)
      requires Valid()
      modifies this`memo
      ensures Valid() && memo == Some(prog) && prog == old(Program())
      ensures old(memo).Some? ==> prog == old(memo).value
    {
      if memo.Some? {
        return memo.value;
      }
      IndexedCovered(uri, idents, identsByName);
      prog := Compiled(uri, identsByName);
      memo := Some(prog);
    }

    /** `test`: whether the route's expression matches the whole URI. */
    method Test(h: Host, s: string) returns (r: bool)
      requires Valid()
      modifies this`memo
      ensures Valid() && Program() == old(Program()) && memo == Some(old(Program()))
      ensures r == Exec(h, Program(), s, 0).Some?
    {
      var prog := Regex();
      r := Exec(h, prog, s, 0).Some?;
    }

    /** What `parse` returns for this route. */
    function Parsed(h: Host, s: string, m: Option<string>): Option<map<string, string>>
      reads this
      requires Valid()
    {
      ParseBy(AsParser(), h, s, m)
    }

    /** What `parse` depends on: the bound method, the expression and the records. */
    function AsParser(): Parser
      reads this
      requires Valid()
    {
      Parser(verb, Program(), idents)
    }

    /** `parse`: the method filter comes first and does not compile the expression; then
        each record i takes capture i + 1, decoded, when that is truthy. */
    method Parse(h: Host, s: string, m: Option<string>) returns (r: Option<map<string, string>>)
      requires Valid()
      modifies this`memo
      ensures Valid() && Program() == old(Program())
      ensures Admits(verb, m) ==> memo == Some(old(Program()))
      ensures !Admits(verb, m) ==> memo == old(memo)
      ensures r == Parsed(h, s, m)
    {
      var compared := if m == Some("HEAD") then Some("GET") else m;
      if Truthy(compared) && Truthy(verb) && compared.value != verb.value {
        return None;
      }
      var prog := Regex();
      var matched := Exec(h, prog, s, 0);
      if matched.None? {
        return None;
      }
      var params := ReadParams(h, idents, matched.value);
      return Some(params);
    }

    /** `stringify`: the `do ... while (found && matched)` loop over a copy of the
        parameters. A failed substitution writes `false` into the text and ends the loop, and
        the call then returns `false`; a placeholder whose name has no record raises a
        TypeError. */
    method Stringify(h: Host, params: map<string, string>) returns (r: Generated)
      ensures r == FillText(h, identsByName, uri, params)
    {
      var p := params;
      var w := uri;
      var found := true;
      var matched := true;
      while found && matched
        invariant matched && found ==> FillText(h, identsByName, w, p) == FillText(h, identsByName, uri, params)
        invariant matched && !found ==> FillText(h, identsByName, uri, params) == Return(Some((w, p)))
        invariant !matched ==> FillText(h, identsByName, uri, params) == Return(None)
        decreases found && matched, |p|, |w|
      {
        found := false;
        var next := FindFirst(w);
        if next.Some? {
          var f := next.value;
          var q := f.hole;
          found := true;
          if q.name !in p {
            if q.optional {
              w := w[..f.pos] + w[End(f)..];
            } else {
              matched := false;
              w := w[..f.pos] + "false" + w[End(f)..];
            }
          } else {
            var v := p[q.name];
            p := p - {q.name};
            if q.name !in identsByName {
              return Throw(TypeError);
            }
            if !Validate(h, identsByName[q.name], v) {
              matched := false;
              w := w[..f.pos] + "false" + w[End(f)..];
            } else {
              w := w[..f.pos] + Lead(q) + v + w[End(f)..];
            }
          }
        }
      }
      if !matched {
        return Return(None);
      }
      return Return(Some((w, p)));
    }
  }

  /** The routes as `parse` sees them. */
  function Parsers(rs: seq<Route>): (r: seq<Parser>)
    reads rs
    requires forall k :: 0 <= k < |rs| ==> rs[k].Valid()
    ensures |r| == |rs| && forall k {:trigger r[k]} :: 0 <= k < |rs| ==> r[k] == rs[k].AsParser()
    decreases |rs|
  {
    if rs == [] then [] else Parsers(rs[..|rs| - 1]) + [rs[|rs| - 1].AsParser()]
  }

  /** What each of the parsers makes of the URI. */
  function ParseAll(ps: seq<Parser>, h: Host, s: string, m: Option<string>): (r: seq<Option<map<string, string>>>)
    ensures |r| == |ps|
  {
    if ps == [] then [] else ParseAll(ps[..|ps| - 1], h, s, m) + [ParseBy(ps[|ps| - 1], h, s, m)]
  }

  /** Entry i of `ParseAll` is what parser i makes of the URI. */
  lemma {:induction false} ParseAllAt(ps: seq<Parser>, h: Host, s: string, m: Option<string>, i: nat)
    requires i < |ps|
    ensures ParseAll(ps, h, s, m)[i] == ParseBy(ps[i], h, s, m)
    decreases |ps|
  {
    if i < |ps| - 1 {
      ParseAllAt(ps[..|ps| - 1], h, s, m, i);
      assert ps[..|ps| - 1][i] == ps[i];
    }
  }

  /** What every route parses the URI to, in registration order. */
  function Outcomes(rs: seq<Route>, h: Host, s: string, m: Option<string>): seq<Option<map<string, string>>>
    reads rs
    requires forall k :: 0 <= k < |rs| ==> rs[k].Valid()
  {
    ParseAll(Parsers(rs), h, s, m)
  }

  /** The parse of route i, which fills its memo and changes nothing else, nor how any route
      parses. */
  method ParseAt(rs: seq<Route>, ghost ps: seq<Parser>, i: nat, h: Host, s: string, m: Option<string>)
    returns (ret: Option<map<string, string>>)
    requires i < |rs| == |ps|
    requires forall k :: 0 <= k < |rs| ==> rs[k].Valid() && rs[k].AsParser() == ps[k]
    modifies (rs[i] as Route)`memo
    ensures ret == ParseAll(ps, h, s, m)[i]
    ensures rs[i].memo == if Admits(rs[i].verb, m) then Some(old(rs[i].Program())) else old(rs[i].memo)
    ensures forall k :: 0 <= k < |rs| ==> rs[k].Valid() && rs[k].Kept() && rs[k].AsParser() == ps[k]
  {
    ret := rs[i].Parse(h, s, m);
    ParseAllAt(ps, h, s, m, i);
    forall k | 0 <= k < |rs|
      ensures rs[k].Valid() && rs[k].Kept() && rs[k].AsParser() == ps[k]
    {
      if rs[k] != rs[i] {
        assert rs[k].memo == old(rs[k].memo);
      }
    }
  }

  /** The loop of `next` over routes whose parsers are `ps`: the routes from `index` on are
      parsed in order until one gives a result. */
  method NextFrom(rs: seq<Route>, ghost ps: seq<Parser>, h: Host, s: string, m: Option<string>, index: nat)
    returns (r: Option<Hit>)
    requires |rs| == |ps|
    requires forall k :: 0 <= k < |rs| ==> rs[k].Valid() && rs[k].AsParser() == ps[k]
    modifies rs
    ensures forall k :: 0 <= k < |rs| ==> rs[k].Valid() && rs[k].Kept() && rs[k].AsParser() == ps[k]
    ensures r == Resumable(FirstFound(ParseAll(ps, h, s, m), index))
  {
    ghost var os := ParseAll(ps, h, s, m);
    var i := index;
    while i < |rs|
      invariant index <= i
      invariant forall k :: 0 <= k < |rs| ==> rs[k].Valid() && rs[k].Kept() && rs[k].AsParser() == ps[k]
      invariant FirstFound(os, index) == FirstFound(os, i)
    {
      var ret := ParseAt(rs, ps, i, h, s, m);
      if ret.Some? {
        return Some(Hit(ret.value - {"next"}, i + 1));
      }
      i := i + 1;
    }
    return None;
  }

  /** One pass of `all`: route i is parsed, and its result is pushed when it is not `false`. */
  method CollectAt(rs: seq<Route>, ghost ps: seq<Parser>, i: nat, h: Host, s: string, m: Option<string>,
                   all: seq<map<string, string>>)
    returns (all': seq<map<string, string>>)
    requires i < |rs| == |ps| && all == Collected(ParseAll(ps, h, s, m), i)
    requires forall k :: 0 <= k < |rs| ==> rs[k].Valid() && rs[k].AsParser() == ps[k]
    modifies (rs[i] as Route)`memo
    ensures all' == Collected(ParseAll(ps, h, s, m), i + 1)
    ensures forall k :: 0 <= k < |rs| ==> rs[k].Valid() && rs[k].Kept() && rs[k].AsParser() == ps[k]
  {
    var ret := ParseAt(rs, ps, i, h, s, m);
    CollectedNext(ParseAll(ps, h, s, m), i, ret, all);
    all' := all;
    if ret.Some? {
      all' := all + [ret.value];
    }
  }

  /** The loop of `all` over routes whose parsers are `ps`: every route is parsed in order and
      every result kept. */
  method AllOf(rs: seq<Route>, ghost ps: seq<Parser>, h: Host, s: string, m: Option<string>)
    returns (all: seq<map<string, string>>)
    requires |rs| == |ps|
    requires forall k :: 0 <= k < |rs| ==> rs[k].Valid() && rs[k].AsParser() == ps[k]
    modifies rs
    ensures forall k :: 0 <= k < |rs| ==> rs[k].Valid() && rs[k].Kept() && rs[k].AsParser() == ps[k]
    ensures all == Collect(ParseAll(ps, h, s, m))
  {
    ghost var os := ParseAll(ps, h, s, m);
    all := [];
    var i := 0;
    while i < |rs|
      invariant i <= |rs|
      invariant forall k :: 0 <= k < |rs| ==> rs[k].Valid() && rs[k].Kept() && rs[k].AsParser() == ps[k]
      invariant all == Collected(os, i)
    {
      all := CollectAt(rs, ps, i, h, s, m, all);
      i := i + 1;
    }
  }

  class Router {
    var routes: seq<Route>
    var routesByName: map<string, Route>

    constructor ()
      ensures routes == [] && routesByName == map[]
    {
      routes := [];
      routesByName := map[];
    }

    /** `match`: a new route is made and appended, unless its method is refused. */
    method Match(template: string, bound: Option<string>) returns (r: Outcome<Route>)
      modifies this`routes
      ensures !Accepted(bound) ==> r == Throw(InvalidMethod) && routes == old(routes)
      ensures Accepted(bound) ==>
                && r.Return? && fresh(r.value) && routes == old(routes) + [r.value]
                && r.value.router == this && r.value.Initial(template, bound)
    {
      var route := new Route(this);
      var o := route.Match(template, bound);
      if o.Throw? {
        return Throw(o.error);
      }
      assert Accepted(bound) && route.Matched(template, bound);
      assert route.terminal == None && route.controller == None && route.action == None;
      assert route.name == None && route.memo == None;
      routes := routes + [route];
      return Return(route);
    }

    /** The verb helpers: one per method but HEAD, each registering a route bound to it. */
    method Get(template: string) returns (route: Route)
      modifies this`routes
      ensures fresh(route) && routes == old(routes) + [route]
      ensures route.router == this && route.Initial(template, Some("GET"))
    {
      var r := Match(template, Some("GET"));
      route := r.value;
    }

    method Post(template: string) returns (route: Route)
      modifies this`routes
      ensures fresh(route) && routes == old(routes) + [route]
      ensures route.router == this && route.Initial(template, Some("POST"))
    {
      var r := Match(template, Some("POST"));
      route := r.value;
    }

    method Put(template: string) returns (route: Route)
      modifies this`routes
      ensures fresh(route) && routes == old(routes) + [route]
      ensures route.router == this && route.Initial(template, Some("PUT"))
    {
      var r := Match(template, Some("PUT"));
      route := r.value;
    }

    method Delete(template: string) returns (route: Route)
      modifies this`routes
      ensures fresh(route) && routes == old(routes) + [route]
      ensures route.router == this && route.Initial(template, Some("DELETE"))
    {
      var r := Match(template, Some("DELETE"));
      route := r.value;
    }

    method Options(template: string) returns (route: Route)
      modifies this`routes
      ensures fresh(route) && routes == old(routes) + [route]
      ensures route.router == this && route.Initial(template, Some("OPTIONS"))
    {
      var r := Match(template, Some("OPTIONS"));
      route := r.value;
    }

    /** `next`: the routes from `index` on are parsed in order and the first result is
        returned with `next` set to the offset after its route. Parsing only fills memos. */
    method Next(h: Host, s: string, m: Option<string>, index: nat) returns (r: Option<Hit>)
      requires forall k :: 0 <= k < |routes| ==> routes[k].Valid()
      modifies routes
      ensures forall k :: 0 <= k < |routes| ==>
                routes[k].Valid() && routes[k].Kept() && routes[k].AsParser() == old(routes[k].AsParser())
      ensures r == Resumable(FirstFound(old(Outcomes(routes, h, s, m)), index))
    {
      var rs := routes;
      r := NextFrom(rs, Parsers(rs), h, s, m, index);
    }

    /** `first`: `next` from the first route. */
    method First(h: Host, s: string, m: Option<string>) returns (r: Option<Hit>)
      requires forall k :: 0 <= k < |routes| ==> routes[k].Valid()
      modifies routes
      ensures forall k :: 0 <= k < |routes| ==>
                routes[k].Valid() && routes[k].Kept() && routes[k].AsParser() == old(routes[k].AsParser())
      ensures r == Resumable(FirstFound(old(Outcomes(routes, h, s, m)), 0))
    {
      r := Next(h, s, m, 0);
    }

    /** `all`: the parse result of every route that parses, in registration order. */
    method All(h: Host, s: string, m: Option<string>) returns (all: seq<map<string, string>>)
      requires forall k :: 0 <= k < |routes| ==> routes[k].Valid()
      modifies routes
      ensures forall k :: 0 <= k < |routes| ==>
                routes[k].Valid() && routes[k].Kept() && routes[k].AsParser() == old(routes[k].AsParser())
      ensures all == Collect(old(Outcomes(routes, h, s, m)))
    {
      var rs := routes;
      all := AllOf(rs, Parsers(rs), h, s, m);
    }

    /** `url`: an unknown name throws; a failed generation gives `false`; otherwise the
        generated path, followed, unless the query is ignored, by `?` and the encoded
        unconsumed parameters when that encoding is not empty. */
    method Url(h: Host, n: string, params: map<string, string>, ignoreQuery: bool) returns (r: Outcome<Option<string>>)
      ensures n !in routesByName ==> r == Throw(InvalidRouteName(n))
      ensures n in routesByName ==>
                var g := FillText(h, routesByName[n].identsByName, routesByName[n].uri, params);
                && (g.Throw? ==> r == Throw(g.error))
                && (g.Return? && g.value.None? ==> r == Return(None))
                && (g.Return? && g.value.Some? ==>
                      var path := g.value.value.0;
                      var query := h.encode(g.value.value.1);
                      r == Return(Some(if ignoreQuery || |query| == 0 then path else path + "?" + query)))
    {
      if n !in routesByName {
        return Throw(InvalidRouteName(n));
      }
      var route := routesByName[n];
      var ret := route.Stringify(h, params);
      if ret.Throw? {
        return Throw(ret.error);
      }
      if ret.value.None? {
        return Return(None);
      }
      var (path, rest) := ret.value.value;
      if ignoreQuery {
        return Return(Some(path));
      }
      var query := h.encode(rest);
      if |query| > 0 {
        return Return(Some(path + "?" + query));
      }
      return Return(Some(path));
    }
  }
}
