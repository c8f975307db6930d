/** `tableNameLookup`: the dictionary from table name to position in the list. */
module Lookup {
  import opened Tables

  /** The position of the last table called `name`, or `None` when no table is. */
  function LastIndex(tables: seq<Table>, name: string): (r: Option<nat>)
    ensures r.None? <==> forall i :: 0 <= i < |tables| ==> tables[i].name != name
    ensures r.Some? ==> r.value < |tables| && tables[r.value].name == name
    ensures r.Some? ==> forall j :: r.value < j < |tables| ==> tables[j].name != name
  {
    if tables == [] then None
    else if tables[|tables| - 1].name == name then Some(|tables| - 1)
    else LastIndex(tables[..|tables| - 1], name)
  }

  /** The names that occur in the list. */
  function Names(tables: seq<Table>): set<string> {
    set t | t in tables :: t.name
  }

  /** Builds the dictionary one table at a time, each write for a name
      overwriting the earlier ones, so the last position wins. */
  method NameLookup(tables: seq<Table>) returns (lookup: map<string, nat>)
    ensures lookup.Keys == Names(tables)
    ensures forall name :: name in lookup ==> LastIndex(tables, name) == Some(lookup[name])
  {
    lookup := map[];
    var i := 0;
    while i < |tables|
      invariant 0 <= i <= |tables|
      invariant lookup.Keys == Names(tables[..i])
      invariant forall name :: name in lookup ==> LastIndex(tables[..i], name) == Some(lookup[name])
    {
      assert tables[..i + 1] == tables[..i] + [tables[i]];
      assert tables[..i + 1][..i] == tables[..i];
      lookup := lookup[tables[i].name := i];
      i := i + 1;
    }
    assert tables[..i] == tables;
  }

  /** Which position a name looks up depends only on the names in the list, so
      replacing a table by one of the same name keeps every lookup. */
  lemma LastIndexSameNames(a: seq<Table>, b: seq<Table>, name: string)
    requires |a| == |b|
    requires forall i :: 0 <= i < |a| ==> a[i].name == b[i].name
    ensures LastIndex(a, name) == LastIndex(b, name)
  {
  }
}
