/** `SyncService` (pyass.py:60-93): the single authoritative, append-only log
    `synced_data`, fed by `record` messages and read by `probe` messages. */
module Service {
  import opened Messages
  import PySlice

  /** The reply to a probe asking from offset `start` against the log `log`
      (pyass.py:81-89). A requester strictly behind gets the exact missing
      suffix; one that is caught up, or a probe against an empty log, gets the
      sentinel update with `from == -1` and no data. A negative `start`, which
      no device sends, is answered with Python's negative slice. */
  function Answer(log: seq<Entry>, start: int): (r: Message)
    ensures r.UpdateMsg?
    ensures |r.entries| <= |log| && r.entries == log[|log| - |r.entries|..]
    ensures 0 <= start < |log| ==>
      r.from == start && |r.entries| == |log| - start && log[..start] + r.entries == log
    ensures start >= |log| ==> r.from == -1 && r.entries == []
    ensures |log| == 0 ==> r == UpdateMsg(-1, [])
    ensures start < 0 && |log| > 0 ==>
      r.from == start && |r.entries| == (if -start <= |log| then -start else |log|)
  {
    var serverLength := |log|;
    if serverLength > 0 && start <= serverLength - 1 then
      UpdateMsg(start, PySlice.Drop(log, start))
    else
      UpdateMsg(-1, [])
  }

  /** The log after the service has handled the messages of `history` in
      order: one entry, holding the essential fields, per `record` message. */
  function Logged(history: seq<Message>): (log: seq<Entry>)
    ensures |log| <= |history|
  {
    if history == [] then []
    else
      var last := history[|history| - 1];
      Logged(history[..|history| - 1]) + (if last.RecordMsg? then [Essentials(last)] else [])
  }

  /** The log is append-only: whatever happens later, the entries already
      stored keep their positions and contents. */
  lemma {:induction false} LoggedAppendOnly(earlier: seq<Message>, later: seq<Message>)
    ensures |Logged(earlier)| <= |Logged(earlier + later)|
    ensures Logged(earlier + later)[..|Logged(earlier)|] == Logged(earlier)
  {
    if later != [] {
      var all := earlier + later;
      assert all[..|all| - 1] == earlier + later[..|later| - 1];
      LoggedAppendOnly(earlier, later[..|later| - 1]);
    } else {
      assert earlier + later == earlier;
    }
  }

  /** Every entry of the log is the essential part of a `record` message
      that was received. */
  lemma {:induction false} LoggedFromRecords(history: seq<Message>, j: nat)
    requires j < |Logged(history)|
    ensures exists i :: 0 <= i < |history| && history[i].RecordMsg? && Essentials(history[i]) == Logged(history)[j]
  {
    var prefix := history[..|history| - 1];
    if j < |Logged(prefix)| {
      LoggedFromRecords(prefix, j);
      var i :| 0 <= i < |prefix| && prefix[i].RecordMsg? && Essentials(prefix[i]) == Logged(prefix)[j];
      assert history[i] == prefix[i];
    } else {
      assert history[|history| - 1].RecordMsg?;
    }
  }

  class SyncService {
    /** `synced_data`. */
    var syncedData: seq<Entry>
    /** Every message handled so far, oldest first. */
    ghost var history: seq<Message>

    ghost predicate Valid()
      reads this
    {
      syncedData == Logged(history)
    }

    /** `__init__` (pyass.py:62-64). */
    constructor ()
      ensures Valid() && syncedData == [] && history == []
    {
      syncedData := [];
      history := [];
    }

    /** `onMessage` (pyass.py:66-93). A `record` appends its essential fields
        and gets no reply; a `probe` is answered by `Answer` and changes
        nothing; anything else is ignored. */
    method OnMessage(m: Message) returns (reply: Option<Message>)
      requires Valid()
      modifies this
      ensures Valid() && history == old(history) + [m]
      ensures m.RecordMsg? ==> syncedData == old(syncedData) + [Essentials(m)] && reply == None
      ensures m.ProbeMsg? ==> syncedData == old(syncedData) && reply == Some(Answer(syncedData, m.from))
      ensures !m.RecordMsg? && !m.ProbeMsg? ==> syncedData == old(syncedData) && reply == None
    {
      ghost var h := history + [m];
      assert h[..|h| - 1] == history;
      history := h;
      if m.RecordMsg? {
        var newRec := Entry(m.timestamp, m.devId, m.payload);
        syncedData := syncedData + [newRec];
        return None;
      } else if m.ProbeMsg? {
        return Some(Answer(syncedData, m.from));
      }
      return None;
    }
  }
}
