/** What `generateRemainingSchemas` does to the list of tables, stated as a
    function of the list and of the generator's replies. */
module Generation {
  import opened Tables

  /** What one call of the schema generator gives back: a response carrying a
      status and a message (`None` for a falsy message), or a thrown
      exception. */
  datatype Reply = Reply(status: string, message: Option<Schema>) | Raised

  /** The status that marks a successful response. */
  const SuccessStatus: string := "success"

  predicate Succeeded(reply: Reply) {
    reply.Reply? && reply.status == SuccessStatus
  }

  /** The generator is called for `t` (it is active with no schema) and throws. */
  predicate Throws(t: Table, reply: Reply) {
    IsMissing(t) && reply.Raised?
  }

  /** One iteration of the loop: a table with a missing schema whose
      generation succeeded takes the returned message as its schema. */
  function Fill(t: Table, reply: Reply): (u: Table)
    ensures u.name == t.name && u.active == t.active
    ensures u != t ==> IsMissing(t) && Succeeded(reply) && u.schema == reply.message
    ensures IsMissing(t) && Succeeded(reply) ==> u.schema == reply.message
  {
    if IsMissing(t) && Succeeded(reply) then t.(schema := reply.message) else t
  }

  /** The position, at or after `from`, where the loop ends by an exception,
      or the length of the list when no call there throws. */
  function FirstThrow(tables: seq<Table>, respond: nat -> Reply, from: nat): (k: nat)
    requires from <= |tables|
    ensures from <= k <= |tables|
    ensures forall i :: from <= i < k ==> !Throws(tables[i], respond(i))
    ensures k < |tables| ==> Throws(tables[k], respond(k))
    decreases |tables| - from
  {
    if from == |tables| then from
    else if Throws(tables[from], respond(from)) then from
    else FirstThrow(tables, respond, from + 1)
  }

  /** The list after the loop, when the generator call for position `i`
      answers `respond(i)`: every position before the first exception has been
      through `Fill`, the rest are as they were. */
  function Generated(tables: seq<Table>, respond: nat -> Reply): (r: seq<Table>)
    ensures |r| == |tables|
    ensures forall k :: 0 <= k < |tables| ==> r[k].name == tables[k].name && r[k].active == tables[k].active
    ensures forall k :: 0 <= k < |tables| && r[k] != tables[k] ==>
      IsMissing(tables[k]) && Succeeded(respond(k)) && r[k].schema == respond(k).message
    ensures forall k :: 0 <= k < FirstThrow(tables, respond, 0) && IsMissing(tables[k]) && Succeeded(respond(k)) ==>
      r[k].schema == respond(k).message
    ensures forall k :: FirstThrow(tables, respond, 0) <= k < |tables| ==> r[k] == tables[k]
  {
    var stop := FirstThrow(tables, respond, 0);
    seq(|tables|, k requires 0 <= k < |tables| => if k < stop then Fill(tables[k], respond(k)) else tables[k])
  }

  /** The run never adds a missing schema: the count cannot go up. */
  lemma GeneratedCountDoesNotIncrease(tables: seq<Table>, respond: nat -> Reply)
    ensures MissingSchemaCount(Generated(tables, respond)) <= MissingSchemaCount(tables)
  {
    MissingSchemaCountMonotone(Generated(tables, respond), tables);
  }

  /** When the generator succeeds with a schema for every table that lacks
      one, no schema is missing afterwards. */
  lemma GeneratedAllSucceeded(tables: seq<Table>, respond: nat -> Reply)
    requires forall k :: 0 <= k < |tables| && IsMissing(tables[k]) ==>
      Succeeded(respond(k)) && respond(k).message.Some?
    ensures MissingSchemaCount(Generated(tables, respond)) == 0
  {
  }

  /** `FirstThrow` is the only position with no exception before it and an
      exception at it (or the end of the list). */
  lemma FirstThrowUnique(tables: seq<Table>, respond: nat -> Reply, k: nat)
    requires k <= |tables|
    requires forall i :: 0 <= i < k ==> !Throws(tables[i], respond(i))
    requires k < |tables| ==> Throws(tables[k], respond(k))
    ensures FirstThrow(tables, respond, 0) == k
  {
  }
}
