/** The RIL's table of outstanding requests, as far as the data response
    handlers rely on it. The real `RIL.processResponse`,
    `processResponseDone` and `processRequestAck` are not part of this model;
    the handlers depend only on the abstraction stated here: a response's
    serial is looked up and the entry is removed in the same step, so a
    second response for the same serial finds nothing. */
module PendingTable {
  import opened Common

  /** The caller's completion target (an Android `Message`). */
  datatype Target = Target(handle: int)

  /** An outstanding request. `result` is the caller's result `Message`,
      which may be null. The serial is the table key. */
  datatype RilRequest = RilRequest(result: Option<Target>)

  type Table = map<int, RilRequest>

  datatype Lookup = Lookup(rest: Table, found: Option<RilRequest>)

  /** `RIL.processResponse`: find the request answered by `serial` and
      retire it. An unknown, stale or duplicate serial finds nothing and
      leaves the table as it was. */
  function ProcessResponse(table: Table, serial: int): (l: Lookup)
    ensures l.found.Some? <==> serial in table
    ensures l.found.Some? ==> l.found.value == table[serial]
    ensures serial !in l.rest
    ensures forall k :: k in table && k != serial ==> k in l.rest && l.rest[k] == table[k]
    ensures forall k :: k in l.rest ==> k in table
  {
    if serial in table then Lookup(table - {serial}, Some(table[serial]))
    else Lookup(table, None)
  }

  /** A second lookup of the same serial always finds nothing. */
  lemma LookupRetires(table: Table, serial: int)
    ensures ProcessResponse(ProcessResponse(table, serial).rest, serial).found == None
  {
  }
}
