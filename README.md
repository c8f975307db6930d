# Table editor: list handling of the admin schema editor

This project models the list logic of the `TableEditor` component of the
sports admin client (`sports/sports-next-client/components/admin_database/table_editor.js`).
The component works on the list of table records `{ name, active, schema }`
held by the admin context. It derives a filtered list sorted by name, a
dictionary from name to position, and a count of active tables without a
schema. It replaces one record by name, and it runs a loop that asks a backend
generator for every missing schema.

Modules:

- `Text` (`text.dfy`): `toLowerCase` restricted to ASCII, `includes` as a
  substring test, and the string `<` as lexicographic order on characters. The
  module proves that `<` is a strict total order and that it agrees with
  ECMAScript's definition by first differing character.
- `Tables` (`tables.dfy`): the `Table` record, `Array.prototype.filter`, the
  three-way comparator, the sort, `filteredTables`, the rendered rows and
  `missingSchemaCount`. The sort is modelled as a stable insertion sort.
- `Lookup` (`lookup.dfy`): `tableNameLookup` as a loop that builds a map. The
  map is proved against `LastIndex`, the last position holding a name.
- `Generation` (`generation.dfy`): the effect of `generateRemainingSchemas` on
  the list, stated as a function of the list and of the generator's replies.
- `Editor` (`editor.dfy`): the component as a class. Its fields are the shared
  list `tables`, the filter term and the `generating` flag. Its methods are the
  handlers, and each one updates these fields in place.

The backend generator is a parameter `respond: nat -> Reply`. The call for
position `i` answers `respond(i)`. A `Reply` is either a response with a status
and a message, or `Raised`, which stands for a thrown exception. An exception
ends the loop early, as the `catch` does. Each position is asked at most once,
so `respond` can describe any sequence of backend answers.

JavaScript falsiness of `schema`: `None` stands for an absent, `undefined` or
`null` schema. A success response whose message is falsy stores `None`, so
that table still counts as missing.

The source has two aliasing effects, and the model handles them as follows.

- With an empty filter term, `filteredTables` sorts the shared `tables` array
  in place. `TableEditor.FilteredTables` models this: it reassigns `tables` to
  the sorted list when the term is empty. It is proved that this only reorders
  the list and leaves the missing-schema count unchanged.
- `[...tables]` is a shallow copy, so `newTables[i].schema = …` also changes the
  record object that the old array references. The model uses value semantics
  instead. This agrees with the source when the entries of the list are
  distinct objects: each assignment is followed at once by
  `setTables([...newTables])`, and no other position sees the changed record.
  The loop invariant `tables == newTables` in `GenerateRemainingSchemas`
  records that the shared list and the working copy stay equal throughout.
  When one object sits at two positions the two differ (see "Left out").

## Model

| member | source | states |
|---|---|---|
| `Text.Lower` | sports/sports-next-client/components/admin_database/table_editor.js:21 | lower-casing keeps the length and maps each character on its own; the result has no upper-case ASCII letter |
| `Text.Contains` | sports/sports-next-client/components/admin_database/table_editor.js:21 | `includes` never finds a longer string, and it finds every prefix of the string, the empty one among them |
| `Text.Less` | sports/sports-next-client/components/admin_database/table_editor.js:26-29 | the string `<`: no name is less than itself, and the lesser name never starts with the greater character |
| `Text.LessMatchesFirstDifference` | sports/sports-next-client/components/admin_database/table_editor.js:26-29 | `a < b` holds exactly when `a` is a proper prefix of `b`, or `a` has the smaller character at the first index where the two differ |
| `Text.LessAsymmetric` | sports/sports-next-client/components/admin_database/table_editor.js:26-29 | `a < b` and `b < a` never both hold |
| `Text.LessTransitive` | sports/sports-next-client/components/admin_database/table_editor.js:26-29 | `<` on names is transitive |
| `Text.LessTotal` | sports/sports-next-client/components/admin_database/table_editor.js:26-33 | of two different names, one is less than the other |
| `Tables.Filter` | sports/sports-next-client/components/admin_database/table_editor.js:20-22 | the kept elements are exactly those satisfying the predicate, and the result is no longer than the input |
| `Tables.FilterCount` | sports/sports-next-client/components/admin_database/table_editor.js:20-22 | each element satisfying the predicate is kept as often as it occurs in the input, and no other element is kept |
| `Tables.FilterPermutation` | sports/sports-next-client/components/admin_database/table_editor.js:56 | filtering two reorderings of one list gives lists with the same elements and length |
| `Tables.Matches` | sports/sports-next-client/components/admin_database/table_editor.js:20-22 | the per-table test of the filter: every table passes for the empty term, and no table passes for a term longer than its name |
| `Tables.FilterAll` | sports/sports-next-client/components/admin_database/table_editor.js:18-22 | a filter every element passes returns its input unchanged |
| `Tables.MatchingEmptyTerm` | sports/sports-next-client/components/admin_database/table_editor.js:17-22 | filtering by the empty term keeps every table, so the special case at line 18 selects the same tables |
| `Tables.Compare` | sports/sports-next-client/components/admin_database/table_editor.js:25-33 | the comparator returns -1, 0 or 1; -1 exactly when `a.name < b.name`, 1 exactly when `b.name < a.name`, 0 exactly when the names are equal |
| `Tables.CompareAntisymmetric` | sports/sports-next-client/components/admin_database/table_editor.js:25-33 | swapping the arguments negates the comparator's result |
| `Tables.CompareTransitive` | sports/sports-next-client/components/admin_database/table_editor.js:25-33 | "not after" under the comparator is transitive, so the comparator is consistent |
| `Tables.InsertSorted` | sports/sports-next-client/components/admin_database/table_editor.js:25-33 | inserting into a sorted list keeps it sorted and adds exactly that one table |
| `Tables.SortByName` | sports/sports-next-client/components/admin_database/table_editor.js:25-34 | the sort (insertion through `Insert` with the comparator) returns a list in ascending order of name that is a permutation of its input, of the same length |
| `Tables.FilterSorted` | sports/sports-next-client/components/admin_database/table_editor.js:134-135 | filtering a sorted list keeps it sorted |
| `Tables.Filtered` | sports/sports-next-client/components/admin_database/table_editor.js:15-35 | the result is sorted by name; it holds exactly the tables whose lower-cased name includes the lower-cased term, each as often as in the input; with an empty term it is a permutation of the whole list, of the same length |
| `Tables.Visible` | sports/sports-next-client/components/admin_database/table_editor.js:134-135 | the rendered rows are sorted and are exactly the active tables that match the term, each as often as in the input |
| `Tables.MissingSchemaCount` | sports/sports-next-client/components/admin_database/table_editor.js:55-57 | the count lies between 0 and the length of the list, and it is 0 exactly when no table is active without a schema |
| `Tables.MissingSchemaCountPermutation` | sports/sports-next-client/components/admin_database/table_editor.js:55-57 | reordering the list, as the in-place sort does, leaves the count unchanged |
| `Tables.MissingSchemaCountMonotone` | sports/sports-next-client/components/admin_database/table_editor.js:55-57 | a list whose missing positions are among another's has no larger count |
| `Lookup.LastIndex` | sports/sports-next-client/components/admin_database/table_editor.js:39-41 | `None` exactly when no table has the name; otherwise a valid position holding that name with no later position holding it |
| `Lookup.NameLookup` | sports/sports-next-client/components/admin_database/table_editor.js:37-43 | the keys are exactly the names in the list, and each maps to the last position holding it (later writes win) |
| `Lookup.LastIndexSameNames` | sports/sports-next-client/components/admin_database/table_editor.js:45-49 | the position a name looks up depends only on the names, so replacing a table by one of the same name keeps every lookup |
| `Generation.Fill` | sports/sports-next-client/components/admin_database/table_editor.js:67-79 | one iteration keeps the name and `active`; it changes the record only when the table is active, has no schema and the reply has status "success", and then the schema becomes the message |
| `Generation.FirstThrow` | sports/sports-next-client/components/admin_database/table_editor.js:66-85 | the loop's exit position: no generator call before it throws, and the call at it throws unless it is the end of the list |
| `Generation.Generated` | sports/sports-next-client/components/admin_database/table_editor.js:63-81 | the list keeps its length, names and `active` flags; a record changes only if it was active without a schema and its reply succeeded, and then it holds the message; every such table before the exception gets its message; tables from the exception on are untouched |
| `Generation.GeneratedCountDoesNotIncrease` | sports/sports-next-client/components/admin_database/table_editor.js:63-85 | the missing-schema count after the run is at most the count before |
| `Generation.GeneratedAllSucceeded` | sports/sports-next-client/components/admin_database/table_editor.js:66-81 | if every missing table's call succeeds with a schema, no schema is missing afterwards |
| `Editor.TableEditor.constructor` | sports/sports-next-client/components/admin_database/table_editor.js:10-13 | the filter term starts empty, `generating` starts false, and the list is the context's |
| `Editor.TableEditor.SetFilterTerm` | sports/sports-next-client/components/admin_database/table_editor.js:106-112 | the input sets the term and changes nothing else |
| `Editor.TableEditor.SetGenerating` | sports/sports-next-client/components/admin_database/table_editor.js:143 | the setter passed to each `ColumnSelector` sets the `generating` flag and changes nothing else |
| `Editor.TableEditor.FilteredTables` | sports/sports-next-client/components/admin_database/table_editor.js:15-35 | returns `Filtered` of the list; with an empty term the shared list is left sorted, otherwise it is unchanged; either way its contents and missing count are unchanged |
| `Editor.TableEditor.VisibleRows` | sports/sports-next-client/components/admin_database/table_editor.js:134-135 | returns `Visible` of the list, with the same effect on the shared list as `FilteredTables` |
| `Editor.TableEditor.UpdateTable` | sports/sports-next-client/components/admin_database/table_editor.js:45-49 | the new list has the new table at the last position holding the name and is otherwise the old list; for an absent name the list is unchanged |
| `Editor.TableEditor.GenerateRemainingSchemas` | sports/sports-next-client/components/admin_database/table_editor.js:59-86 | a call while `generating` is set changes nothing; otherwise the list becomes `Generated` of the old list and `generating` ends false, on normal exit and on exception |
| `Editor.GenerateAndCount` | sports/sports-next-client/components/admin_database/table_editor.js:55-86 | after a generation run from a fresh editor the missing-schema count has not increased, and it is 0 when every call returned a schema |

## Left out

- `handleSave` (lines 51-53) is a call to `handleSaveTables`, a backend request with no local logic.
- The body of `generateSchema` is not part of this model; it is the oracle `respond`. `ColumnSelector` is not part of this model either, so the records it passes to `updateTable` and the values it passes to `setGenerating` are arbitrary; the guarded branch of `GenerateRemainingSchemas` is reached after `SetGenerating(true)`.
- `results_container.js` is not part of this model. It only composes child components.
- React mechanics are not modelled: `useMemo` caching, batching of `setTables`, re-rendering, and the `async`/`await` interleaving. In the model every handler runs to completion on the current state. The `generating` guard and the list read by the loop are therefore current. In the component they are the values captured at render.
- `Lookup.NameLookup` is recomputed from the current list on every `UpdateTable`. In the component the lookup is cached by array identity. After the in-place sort at line 25 it can refer to positions from before the sort; this staleness is not modelled.
- Sort algorithm: `Array.prototype.sort` is modelled by a stable insertion sort. Only sortedness and permutation are proved. The order of tables that share a name is not stated.
- The `console.log` calls (lines 68-74), all JSX markup, the CSS classes, the spinner, and the conditions that show the generate button (lines 114-129).
- Full Unicode case folding and UTF-16 code-unit order are not modelled. `toLowerCase` folds only ASCII letters, and `<` compares characters.
- A `null` or `undefined` `tables` (the `?.` at lines 20 and 134) is not modelled. The list is always a sequence.
- `tableNameLookup` is modelled as a map from strings. JavaScript object keys inherited from the prototype (such as `constructor`) are not modelled.
- The schema is modelled as non-empty text (the empty string is falsy and counts as missing); its contents do not matter here.
- Editor.TableEditor.GenerateRemainingSchemas: the model treats records as values, so it does not capture the shallow copy when one record object sits at two positions of the list. In the source, filling the first position also fills the second, which is then skipped: with replies `success` "s0" and then "s1", the second position ends with "s0", where `Generated` gives "s1"; and an exception at the second call does not happen at all in the source.
