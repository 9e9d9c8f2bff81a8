/** Identifier records: one per placeholder occurrence of a template, carrying the pattern its
    value must match and the anchored validation expression built from it, and the index by
    name that keeps the last occurrence of every name. */
module Identifiers {
  import opened Runtime
  import opened Placeholders

  /** `[\w\-\s]+`: the value class of a `:` placeholder. */
  const KeyPattern: string := "[\\w\\-\\s]+"
  /** `[\w\-\s\/]+`: the value class of a `*` placeholder. */
  const GlobPattern: string := "[\\w\\-\\s\\/]+"

  /** The source of the validation expression of a pattern: `'^' + pattern + '$'`. */
  function Anchored(pattern: string): string {
    "^" + pattern + "$"
  }

  predicate IsKeyChar(c: char) {
    IsWordChar(c) || c == '-' || IsSpaceChar(c)
  }

  predicate IsGlobChar(c: char) {
    IsKeyChar(c) || c == '/'
  }

  /** The strings the anchored default classes accept: one or more class characters. */
  predicate IsKeyValue(v: string) {
    |v| > 0 && forall i :: 0 <= i < |v| ==> IsKeyChar(v[i])
  }

  predicate IsGlobValue(v: string) {
    |v| > 0 && forall i :: 0 <= i < |v| ==> IsGlobChar(v[i])
  }

  /** An identifier record: `{name, pattern, regex}`, with the regex kept as its source. */
  datatype Ident = Ident(name: string, pattern: string, regex: string)

  /** The record is consistent: its regex is the anchored form of its pattern. */
  predicate Consistent(id: Ident) {
    id.regex == Anchored(id.pattern)
  }

  function DefaultPattern(k: Kind): (r: string)
    ensures r == KeyPattern || r == GlobPattern
  {
    if k == Segment then KeyPattern else GlobPattern
  }

  /** The record the scan makes for one occurrence. */
  function IdentOf(p: Placeholder): Ident {
    Ident(p.name, DefaultPattern(p.kind), Anchored(DefaultPattern(p.kind)))
  }

  /** The records of a list of occurrences, in order. */
  function IdentsOf(ps: seq<Placeholder>): (ids: seq<Ident>)
    ensures |ids| == |ps|
  {
    if ps == [] then [] else IdentsOf(ps[..|ps| - 1]) + [IdentOf(ps[|ps| - 1])]
  }

  /** `identsByName` as filled by successive `identsByName[name] = ident` assignments. */
  function ByName(ids: seq<Ident>): map<string, Ident> {
    if ids == [] then map[] else ByName(ids[..|ids| - 1])[ids[|ids| - 1].name := ids[|ids| - 1]]
  }

  /** The offset of the last record named `n`. */
  predicate IsLast(ids: seq<Ident>, n: string, i: int) {
    0 <= i < |ids| && ids[i].name == n && forall j :: i < j < |ids| ==> ids[j].name != n
  }

  function LastIndex(ids: seq<Ident>, n: string): (i: nat)
    requires exists j :: 0 <= j < |ids| && ids[j].name == n
    ensures IsLast(ids, n, i)
  {
    if ids[|ids| - 1].name == n then |ids| - 1
    else
      var k :| 0 <= k < |ids| && ids[k].name == n;
      assert ids[..|ids| - 1][k] == ids[k];
      LastIndex(ids[..|ids| - 1], n)
  }

  /** The records made for a list of occurrences: record i belongs to occurrence i, has its
      name, and has the segment class for `:` and the glob class for `*`. */
  lemma {:induction false} IdentsOfExact(ps: seq<Placeholder>)
    ensures forall i :: 0 <= i < |ps| ==>
              && IdentsOf(ps)[i].name == ps[i].name
              && IdentsOf(ps)[i].pattern == (if ps[i].kind == Segment then KeyPattern else GlobPattern)
              && Consistent(IdentsOf(ps)[i])
    decreases |ps|
  {
    if ps != [] {
      IdentsOfExact(ps[..|ps| - 1]);
    }
  }

  /** The index holds exactly the names of the records, and under each name the last record
      that has it. */
  lemma {:induction false} ByNameLast(ids: seq<Ident>)
    ensures forall n :: n in ByName(ids) <==> exists j :: 0 <= j < |ids| && ids[j].name == n
    ensures forall n, i :: IsLast(ids, n, i) ==> n in ByName(ids) && ByName(ids)[n] == ids[i]
    decreases |ids|
  {
    if ids != [] {
      var pre := ids[..|ids| - 1];
      var x := ids[|ids| - 1];
      ByNameLast(pre);
      forall n | n in ByName(ids)
        ensures exists j :: 0 <= j < |ids| && ids[j].name == n
      {
        if n != x.name {
          assert n in ByName(pre);
          var j :| 0 <= j < |pre| && pre[j].name == n;
          assert ids[j].name == n;
        }
      }
      forall n | exists j :: 0 <= j < |ids| && ids[j].name == n
        ensures n in ByName(ids)
      {
        var j :| 0 <= j < |ids| && ids[j].name == n;
        if j < |pre| {
          assert pre[j].name == n;
        }
      }
      forall n, i | IsLast(ids, n, i)
        ensures n in ByName(ids) && ByName(ids)[n] == ids[i]
      {
        if i < |ids| - 1 {
          assert IsLast(pre, n, i);
        }
      }
    }
  }

  /** The index entry of a name is the record at its last offset. */
  lemma ByNameAt(ids: seq<Ident>, n: string)
    requires exists j :: 0 <= j < |ids| && ids[j].name == n
    ensures n in ByName(ids) && ByName(ids)[n] == ids[LastIndex(ids, n)]
  {
    ByNameLast(ids);
  }

  /** Updating the record at the last offset of its name updates the index entry and nothing
      else in the index. */
  lemma {:induction false} ByNameUpdate(ids: seq<Ident>, i: nat, id: Ident)
    requires i < |ids| && IsLast(ids, id.name, i)
    ensures ByName(ids[i := id]) == ByName(ids)[id.name := id]
    decreases |ids|
  {
    var pre := ids[..|ids| - 1];
    if i == |ids| - 1 {
      assert ids[i := id][..|ids| - 1] == pre;
    } else {
      assert ids[i := id][..|ids| - 1] == pre[i := id];
      assert IsLast(pre, id.name, i);
      ByNameUpdate(pre, i, id);
    }
  }

  /** Every record of the index is consistent when every record of the list is. */
  lemma {:induction false} ByNameConsistent(ids: seq<Ident>)
    requires forall i :: 0 <= i < |ids| ==> Consistent(ids[i])
    ensures forall n :: n in ByName(ids) ==> Consistent(ByName(ids)[n])
    decreases |ids|
  {
    if ids != [] {
      ByNameConsistent(ids[..|ids| - 1]);
    }
  }

  /** Indexing one more record. */
  lemma {:induction false} ByNameSnoc(ids: seq<Ident>, id: Ident)
    ensures ByName(ids + [id]) == ByName(ids)[id.name := id]
  {
    assert (ids + [id])[..|ids|] == ids;
  }

  /** Making the record of one more occurrence. */
  lemma {:induction false} IdentsOfSnoc(ps: seq<Placeholder>, p: Placeholder)
    ensures IdentsOf(ps + [p]) == IdentsOf(ps) + [IdentOf(p)]
  {
    assert (ps + [p])[..|ps|] == ps;
  }
}
