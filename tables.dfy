/** The table records the admin context holds, and the pure list operations the
    editor derives from them: the name filter, the comparator sort, the rows
    shown, and the count of schemas still missing. */
module Tables {
  import opened Text

  datatype Option<T> = None | Some(value: T)

  /** The generated schema, as the text the backend returned. The empty
      string is falsy, so a stored schema is never empty. */
  type Schema = s: string | s != "" witness "{}"

  /** One table record. `schema` is `None` whenever the field is falsy
      (absent, `undefined` or `null`). */
  datatype Table = Table(name: string, active: bool, schema: Option<Schema>)

  /** `Array.prototype.filter`: keeps, in order, the elements satisfying `p`. */
  function Filter(s: seq<Table>, p: Table -> bool): (r: seq<Table>)
    ensures |r| <= |s|
    ensures forall t :: t in r <==> t in s && p(t)
  {
    if s == [] then []
    else
      assert s == [s[0]] + s[1..];
      (if p(s[0]) then [s[0]] else []) + Filter(s[1..], p)
  }

  /** Each kept element is kept as often as it occurs, and the others not at all. */
  lemma {:induction false} FilterCount(s: seq<Table>, p: Table -> bool)
    ensures forall t :: multiset(Filter(s, p))[t] == if p(t) then multiset(s)[t] else 0
  {
    if s != [] {
      FilterCount(s[1..], p);
      assert s == [s[0]] + s[1..];
    }
  }

  /** Filtering two permutations of each other gives permutations of each other. */
  lemma FilterPermutation(a: seq<Table>, b: seq<Table>, p: Table -> bool)
    requires multiset(a) == multiset(b)
    ensures multiset(Filter(a, p)) == multiset(Filter(b, p))
    ensures |Filter(a, p)| == |Filter(b, p)|
  {
    FilterCount(a, p);
    FilterCount(b, p);
    assert multiset(Filter(a, p)) == multiset(Filter(b, p));
    assert |Filter(a, p)| == |multiset(Filter(a, p))|;
  }

  // ---------------------------------------------------------------------------
  // Filtering by name

  /** The test a table passes under a non-empty filter term: its lower-cased
      name includes the lower-cased term. Every table passes for the empty
      term, and none passes for a term longer than its name. */
  predicate Matches(t: Table, term: string)
    ensures term == "" ==> Matches(t, term)
    ensures Matches(t, term) ==> |term| <= |t.name|
  {
    Contains(Lower(t.name), Lower(term))
  }

  function Matching(tables: seq<Table>, term: string): (r: seq<Table>) {
    Filter(tables, t => Matches(t, term))
  }

  /** The empty term matches every table, so the special case for it keeps the
      same tables as filtering would have. */
  lemma MatchingEmptyTerm(tables: seq<Table>)
    ensures Matching(tables, "") == tables
  {
    forall t | t in tables ensures Matches(t, "") {
    }
    FilterAll(tables, t => Matches(t, ""));
  }

  /** A filter that every element passes returns its input. */
  lemma {:induction false} FilterAll(s: seq<Table>, p: Table -> bool)
    requires forall t :: t in s ==> p(t)
    ensures Filter(s, p) == s
  {
    if s != [] {
      assert s == [s[0]] + s[1..];
      FilterAll(s[1..], p);
    }
  }

  // ---------------------------------------------------------------------------
  // Sorting by name

  /** The comparator handed to `sort`: -1 when `a.name < b.name`, 1 when
      `a.name > b.name`, 0 otherwise. */
  function Compare(a: Table, b: Table): (c: int)
    ensures c == -1 || c == 0 || c == 1
    ensures c == -1 <==> Less(a.name, b.name)
    ensures c == 1 <==> Less(b.name, a.name)
    ensures c == 0 <==> a.name == b.name
  {
    LessTotal(a.name, b.name);
    LessAsymmetric(a.name, b.name);
    if Less(a.name, b.name) then -1
    else if Less(b.name, a.name) then 1
    else 0
  }

  /** The comparator is consistent, as `sort` requires of it: swapping the
      arguments negates the result, and "not after" is transitive. */
  lemma CompareAntisymmetric(a: Table, b: Table)
    ensures Compare(a, b) == -Compare(b, a)
  {
  }

  lemma CompareTransitive(a: Table, b: Table, c: Table)
    requires Compare(a, b) <= 0 && Compare(b, c) <= 0
    ensures Compare(a, c) <= 0
  {
    if Less(a.name, b.name) && Less(b.name, c.name) {
      LessTransitive(a.name, b.name, c.name);
    }
  }

  /** Ascending by name under `Compare`. */
  predicate Sorted(s: seq<Table>) {
    forall i, j :: 0 <= i < j < |s| ==> Compare(s[i], s[j]) <= 0
  }

  /** Sorting is modelled by insertion sort, which like `Array.prototype.sort`
      keeps tables of equal name in their original order. */
  function Insert(t: Table, s: seq<Table>): (r: seq<Table>)
  {
    if s == [] then [t]
    else if Compare(t, s[0]) <= 0 then [t] + s
    else [s[0]] + Insert(t, s[1..])
  }

  /** The sort puts the tables in ascending order of name and only reorders
      them. */
  function SortByName(s: seq<Table>): (r: seq<Table>)
    ensures Sorted(r)
    ensures multiset(r) == multiset(s)
    ensures |r| == |s|
  {
    if s == [] then []
    else
      var rest := SortByName(s[1..]);
      InsertSorted(s[0], rest);
      assert s == [s[0]] + s[1..];
      var r := Insert(s[0], rest);
      assert |r| == |multiset(r)|;
      r
  }

  /** A table that comes no later than every element of a sorted sequence can
      be put in front of it. */
  lemma SortedCons(x: Table, s: seq<Table>)
    requires Sorted(s)
    requires forall y :: y in s ==> Compare(x, y) <= 0
    ensures Sorted([x] + s)
  {
  }

  /** The head of a sorted sequence comes no later than anything after it. */
  lemma SortedHead(s: seq<Table>)
    requires Sorted(s) && s != []
    ensures forall y :: y in s[1..] ==> Compare(s[0], y) <= 0
  {
  }

  lemma {:induction false} InsertSorted(t: Table, s: seq<Table>)
    requires Sorted(s)
    ensures multiset(Insert(t, s)) == multiset(s) + multiset{t}
    ensures Sorted(Insert(t, s))
  {
    if s == [] {
    } else if Compare(t, s[0]) <= 0 {
      SortedHead(s);
      forall y | y in s ensures Compare(t, y) <= 0 {
        if y != s[0] {
          assert y in s[1..] by { assert s == [s[0]] + s[1..]; }
          CompareTransitive(t, s[0], y);
        }
      }
      SortedCons(t, s);
    } else {
      var rest := Insert(t, s[1..]);
      InsertSorted(t, s[1..]);
      SortedHead(s);
      assert s == [s[0]] + s[1..];
      forall y | y in rest ensures Compare(s[0], y) <= 0 {
        assert y in multiset(rest);
        assert y == t || y in s[1..];
      }
      SortedCons(s[0], rest);
    }
  }

  /** Every sub-sequence kept by a filter of a sorted sequence is sorted. */
  lemma {:induction false} FilterSorted(s: seq<Table>, p: Table -> bool)
    requires Sorted(s)
    ensures Sorted(Filter(s, p))
  {
    if s != [] {
      assert Sorted(s[1..]);
      FilterSorted(s[1..], p);
      if p(s[0]) {
        SortedHead(s);
        SortedCons(s[0], Filter(s[1..], p));
      }
    }
  }

  // ---------------------------------------------------------------------------
  // The list the editor shows

  /** `filteredTables`: every table for an empty term, otherwise the matching
      tables, then sorted by name. */
  function Filtered(tables: seq<Table>, term: string): (r: seq<Table>)
    ensures Sorted(r)
    ensures multiset(r) == multiset(Matching(tables, term))
    ensures forall t :: t in r <==> t in tables && Matches(t, term)
    ensures term == "" ==> multiset(r) == multiset(tables) && |r| == |tables|
  {
    var allowed := if term == "" then tables else Matching(tables, term);
    MatchingEmptyTerm(tables);
    FilterCount(tables, t => Matches(t, term));
    var r := SortByName(allowed);
    assert forall t :: t in r <==> t in multiset(r);
    r
  }

  predicate IsActive(t: Table) {
    t.active
  }

  /** The rows rendered: the filtered, sorted tables that are active. */
  function Visible(tables: seq<Table>, term: string): (rows: seq<Table>)
    ensures Sorted(rows)
    ensures forall t :: t in rows <==> t in tables && t.active && Matches(t, term)
    ensures forall t :: multiset(rows)[t] == if t.active && Matches(t, term) then multiset(tables)[t] else 0
  {
    var f := Filtered(tables, term);
    FilterSorted(f, IsActive);
    FilterCount(f, IsActive);
    FilterCount(tables, t => Matches(t, term));
    Filter(f, IsActive)
  }

  // ---------------------------------------------------------------------------
  // Missing schemas

  /** A table still waiting for its schema: active, with a falsy schema. */
  predicate IsMissing(t: Table) {
    t.active && t.schema.None?
  }

  /** `missingSchemaCount`: the number of tables that are active and have no
      schema. */
  function MissingSchemaCount(tables: seq<Table>): (n: nat)
    ensures n <= |tables|
    ensures n == 0 <==> forall i :: 0 <= i < |tables| ==> !IsMissing(tables[i])
  {
    var missing := Filter(tables, IsMissing);
    assert forall i :: 0 <= i < |tables| && IsMissing(tables[i]) ==> tables[i] in missing;
    assert missing != [] ==> missing[0] in tables && IsMissing(missing[0]);
    |missing|
  }

  /** Reordering the tables leaves the count unchanged. */
  lemma MissingSchemaCountPermutation(a: seq<Table>, b: seq<Table>)
    requires multiset(a) == multiset(b)
    ensures MissingSchemaCount(a) == MissingSchemaCount(b)
  {
    FilterPermutation(a, b, IsMissing);
  }

  /** If every table missing in `a` is missing at the same place in `b`, `a`
      has no more missing schemas than `b`. */
  lemma {:induction false} MissingSchemaCountMonotone(a: seq<Table>, b: seq<Table>)
    requires |a| == |b|
    requires forall i :: 0 <= i < |a| && IsMissing(a[i]) ==> IsMissing(b[i])
    ensures MissingSchemaCount(a) <= MissingSchemaCount(b)
  {
    if a != [] {
      MissingSchemaCountMonotone(a[1..], b[1..]);
    }
  }
}
