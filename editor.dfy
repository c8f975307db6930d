/** The `TableEditor` component as an object: the list of tables it shares
    with the admin context, the filter term typed by the user, and the
    `generating` flag. Each handler is a method that updates these in place. */
module Editor {
  import opened Tables
  import opened Lookup
  import opened Generation

  class TableEditor {
    /** The array held by the admin context (`tables` / `setTables`). */
    var tables: seq<Table>
    /** `tableFilterTerm`. */
    var filterTerm: string
    /** `generating`. */
    var generating: bool

    /** The component's first render: both pieces of local state start at
        their initial values. */
    constructor (tables: seq<Table>)
      ensures this.tables == tables
      ensures filterTerm == "" && !generating
    {
      this.tables := tables;
      filterTerm := "";
      generating := false;
    }

    /** The filter input's change handler. */
    method SetFilterTerm(term: string)
      modifies this
      ensures filterTerm == term
      ensures tables == old(tables) && generating == old(generating)
    {
      filterTerm := term;
    }

    /** `setGenerating`, handed to every `ColumnSelector`, which may set or
        clear the flag while it generates a schema of its own. */
    method SetGenerating(b: bool)
      modifies this
      ensures generating == b
      ensures tables == old(tables) && filterTerm == old(filterTerm)
    {
      generating := b;
    }

    /** `filteredTables`. With an empty term the sort runs on the shared
        array itself, so the admin context's list is left sorted; with a
        non-empty term it runs on the fresh array `filter` returned. */
    method FilteredTables() returns (r: seq<Table>)
      modifies this
      ensures r == Filtered(old(tables), filterTerm)
      ensures tables == if filterTerm == "" then r else old(tables)
      ensures multiset(tables) == multiset(old(tables))
      ensures MissingSchemaCount(tables) == MissingSchemaCount(old(tables))
      ensures filterTerm == old(filterTerm) && generating == old(generating)
    {
      r := Filtered(tables, filterTerm);
      if filterTerm == "" {
        MissingSchemaCountPermutation(r, tables);
        tables := r;
      }
    }

    /** The rendered rows: the filtered list restricted to active tables. */
    method VisibleRows() returns (rows: seq<Table>)
      modifies this
      ensures rows == Visible(old(tables), filterTerm)
      ensures tables == if filterTerm == "" then Filtered(old(tables), filterTerm) else old(tables)
      ensures filterTerm == old(filterTerm) && generating == old(generating)
    {
      var filtered := FilteredTables();
      rows := Filter(filtered, IsActive);
    }

    /** `updateTable`: a copy of the list with the slot the lookup gives for
        `name` overwritten. For a name that is not in the list the lookup is
        `undefined`, the assignment does not touch any element, and the list
        stays as it was. */
    method UpdateTable(name: string, newTable: Table)
      modifies this
      ensures tables == match LastIndex(old(tables), name)
        case None => old(tables)
        case Some(k) => old(tables)[k := newTable]
      ensures filterTerm == old(filterTerm) && generating == old(generating)
    {
      var lookup := NameLookup(tables);
      var newTables := tables;
      if name in lookup {
        newTables := newTables[lookup[name] := newTable];
      }
      tables := newTables;
    }

    /** `generateRemainingSchemas`, with the generator call for position `i`
        answering `respond(i)`. A re-entrant call returns at once; otherwise
        the loop fills in schemas until the end of the list or the first
        exception, and `generating` is cleared on both paths. */
    method GenerateRemainingSchemas(respond: nat -> Reply)
      modifies this
      ensures old(generating) ==> tables == old(tables) && generating
      ensures !old(generating) ==> tables == Generated(old(tables), respond) && !generating
      ensures filterTerm == old(filterTerm)
    {
      if generating {
        return;
      }
      generating := true;
      var newTables := tables;
      var i := 0;
      var raised := false;
      while i < |newTables| && !raised
        invariant 0 <= i <= |newTables| == |old(tables)|
        invariant tables == newTables
        invariant forall k :: 0 <= k < i ==> !Throws(old(tables)[k], respond(k))
        invariant raised ==> i < |newTables| && Throws(old(tables)[i], respond(i))
        invariant forall k :: 0 <= k < i ==> newTables[k] == Fill(old(tables)[k], respond(k))
        invariant forall k :: i <= k < |newTables| ==> newTables[k] == old(tables)[k]
        invariant generating && filterTerm == old(filterTerm)
        decreases |newTables| - i, if raised then 0 else 1
      {
        var table := newTables[i];
        if table.active {
          if table.schema.None? {
            var reply := respond(i);
            if reply.Raised? {
              raised := true;
            } else if reply.status == SuccessStatus {
              newTables := newTables[i := table.(schema := reply.message)];
              tables := newTables;
            }
          }
        }
        if !raised {
          i := i + 1;
        }
      }
      FirstThrowUnique(old(tables), respond, i);
      // cleared after the loop and in the handler of an exception alike
      generating := false;
    }
  }

  /** What a click on "Generate Remaining Schemas" achieves: the flag ends
      cleared, the count of missing schemas has not gone up, and it is zero
      when every generator call returned a schema. */
  method GenerateAndCount(tables: seq<Table>, respond: nat -> Reply) returns (before: nat, after: nat)
    ensures before == MissingSchemaCount(tables)
    ensures after <= before
    ensures (forall k :: 0 <= k < |tables| && IsMissing(tables[k]) ==>
      Succeeded(respond(k)) && respond(k).message.Some?) ==> after == 0
  {
    var editor := new TableEditor(tables);
    before := MissingSchemaCount(editor.tables);
    editor.GenerateRemainingSchemas(respond);
    assert !editor.generating;
    after := MissingSchemaCount(editor.tables);
    GeneratedCountDoesNotIncrease(tables, respond);
    if forall k :: 0 <= k < |tables| && IsMissing(tables[k]) ==> Succeeded(respond(k)) && respond(k).message.Some? {
      GeneratedAllSucceeded(tables, respond);
    }
  }
}
