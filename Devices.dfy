/** `Device` (pyass.py:13-58): a producer of records holding a local replica
    `records` of the service's log and the list `sent` of records it has
    originated. The random drops of the source are boolean parameters. */
module Devices {
  import opened Messages
  import PySlice

  /** The replica after applying an update `{from, data}` (pyass.py:53-58):
      an update from beyond the replica's end is rejected; otherwise the
      replica becomes `records[:from] + data`, in Python's slice semantics. */
  function Apply(records: seq<Entry>, from: int, data: seq<Entry>): (r: seq<Entry>)
    ensures from > |records| ==> r == records
    ensures 0 <= from <= |records| ==>
      |r| == from + |data| && r[..from] == records[..from] && r[from..] == data
    ensures -|records| <= from < 0 ==>
      |r| == |records| + from + |data| && r == records[..|records| + from] + data
    ensures from < -|records| ==> r == data
  {
    if from > |records| then records
    else PySlice.Take(records, from) + data
  }

  /** The replica after `onMessage` (pyass.py:45-58). Only a delivered
      `update` whose offset is not beyond the replica's end changes it. */
  function Receive(records: seq<Entry>, mistake: bool, msg: Option<Message>): (r: seq<Entry>)
    ensures mistake || msg.None? || !msg.value.UpdateMsg? ==> r == records
    ensures !mistake && msg.Some? && msg.value.UpdateMsg? ==> r == Apply(records, msg.value.from, msg.value.entries)
  {
    if mistake then records
    else match msg
      case Some(UpdateMsg(from, data)) => Apply(records, from, data)
      case _ => records
  }

  /** An accepted update with a non-negative offset keeps the first `from`
      records and is idempotent: applying it twice is applying it once. */
  lemma ApplyIdempotent(records: seq<Entry>, from: int, data: seq<Entry>)
    requires 0 <= from
    ensures Apply(Apply(records, from, data), from, data) == Apply(records, from, data)
  {
  }

  /** The sentinel update `{from: -1, data: []}` is not ignored: it drops
      the last record of a non-empty replica (Python's `records[:-1]`). */
  lemma ApplySentinel(records: seq<Entry>)
    ensures records != [] ==> Apply(records, -1, []) == records[..|records| - 1]
    ensures records == [] ==> Apply(records, -1, []) == []
  {
  }

  class Device {
    /** `_id`. */
    const id: DeviceId
    /** The local replica of the service's log. */
    var records: seq<Entry>
    /** The `record` messages this device has originated, oldest first. */
    var sent: seq<Message>

    /** Every sent message is a `record` of this device. */
    ghost predicate Valid()
      reads this
    {
      forall i :: 0 <= i < |sent| ==>
        sent[i].RecordMsg? && sent[i].devId == id
    }

    /** `__init__` (pyass.py:15-18). */
    constructor (id: DeviceId)
      ensures Valid() && this.id == id && records == [] && sent == []
    {
      this.id := id;
      records := [];
      sent := [];
    }

    /** `obtainData` (pyass.py:20-35). With `noData` the device has nothing
        new and returns `{}`; otherwise it builds a `record` from the clock
        reading `timestamp` and the three generated values, remembers it in
        `sent` and returns it. */
    method ObtainData(noData: bool, timestamp: Timestamp, a: string, b: string, c: string)
      returns (m: Message)
      requires Valid()
      modifies this
      ensures Valid() && records == old(records)
      ensures noData ==> m == EmptyMsg && sent == old(sent)
      ensures !noData ==>
        && m.RecordMsg? && m.devId == id && m.timestamp == timestamp
        && m.payload == map["a" := a, "b" := b, "c" := c]
        && sent == old(sent) + [m]
    {
      if noData {
        return EmptyMsg;
      }
      var payload := map["a" := a, "b" := b, "c" := c];
      m := RecordMsg(timestamp, id, payload);
      sent := sent + [m];
    }

    /** `probe` (pyass.py:37-43). A device that forgets to probe returns
        `{}`; otherwise it asks for everything from the end of its replica.
        Either way no state changes. */
    method Probe(forget: bool) returns (m: Message)
      ensures forget ==> m == EmptyMsg
      ensures !forget ==> m == ProbeMsg(id, |records|)
    {
      if forget {
        return EmptyMsg;
      }
      return ProbeMsg(id, |records|);
    }

    /** `onMessage` (pyass.py:45-58). */
    method OnMessage(mistake: bool, msg: Option<Message>)
      modifies this
      ensures records == Receive(old(records), mistake, msg) && sent == old(sent)
    {
      if mistake {
        return;
      }
      if msg.Some? && msg.value.UpdateMsg? {
        var from := msg.value.from;
        if from > |records| {
          return;
        }
        records := PySlice.Take(records, from) + msg.value.entries;
      }
    }
  }
}
