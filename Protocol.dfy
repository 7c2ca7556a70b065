/** One device and the service exchanging messages as the driver in
    pyass.py does: `syn.onMessage(dev.obtainData())` (pyass.py:103) and
    `dev.onMessage(syn.onMessage(dev.probe()))` (pyass.py:105, 110). */
module Protocol {
  import opened Messages
  import opened Service
  import opened Devices

  /** `replica` is an initial segment of `log`. */
  predicate IsPrefix(replica: seq<Entry>, log: seq<Entry>)
  {
    |replica| <= |log| && log[..|replica|] == replica
  }

  /** The replica after one probe, answer and apply round against the
      log `log`. A forgotten probe reaches the service as `{}`, which gets
      no reply, so the device then receives nothing. */
  function Round(records: seq<Entry>, log: seq<Entry>, forgetProbe: bool, mistake: bool): (r: seq<Entry>)
    ensures forgetProbe || mistake ==> r == records
    ensures !forgetProbe && !mistake && |records| < |log| ==> r == records + log[|records|..]
    ensures !forgetProbe && !mistake && |log| <= |records| ==>
      r == if records == [] then [] else records[..|records| - 1]
  {
    if forgetProbe then Receive(records, mistake, None)
    else Receive(records, mistake, Some(Answer(log, |records|)))
  }

  /** Catch-up: a replica strictly behind the log becomes the whole log
      after one round in which nothing is dropped. */
  lemma CatchUp(records: seq<Entry>, log: seq<Entry>)
    requires IsPrefix(records, log) && |records| < |log|
    ensures Round(records, log, false, false) == log
  {
  }

  /** The sentinel defect: a replica that already equals a non-empty log
      loses its last record in a round in which nothing is dropped, because
      the caught-up reply `{from: -1, data: []}` is applied as `records[:-1]`.
      An empty replica against an empty log stays empty. */
  lemma SentinelShrinks(records: seq<Entry>, log: seq<Entry>)
    requires records == log
    ensures records != [] ==> Round(records, log, false, false) == records[..|records| - 1]
    ensures records == [] ==> Round(records, log, false, false) == []
  {
  }

  /** The outcome of a drop-free round from any replica that is a prefix of
      the log: the whole log when behind, the log minus its last record when
      caught up. */
  lemma DropFreeRound(records: seq<Entry>, log: seq<Entry>)
    requires IsPrefix(records, log) && log != []
    ensures Round(records, log, false, false) ==
      if |records| < |log| then log else log[..|log| - 1]
  {
  }

  /** A caught-up device never stays caught up under repeated drop-free
      probing: its replica alternates between the log and the log without
      its last record. */
  lemma CaughtUpOscillates(log: seq<Entry>)
    requires log != []
    ensures Round(log, log, false, false) == log[..|log| - 1]
    ensures Round(log[..|log| - 1], log, false, false) == log
  {
  }

  /** Whatever is dropped, a round keeps a replica an initial segment of the
      log: a replica is never ahead of, and never diverges from, the log. */
  lemma RoundKeepsPrefix(records: seq<Entry>, log: seq<Entry>, forgetProbe: bool, mistake: bool)
    requires IsPrefix(records, log)
    ensures IsPrefix(Round(records, log, forgetProbe, mistake), log)
  {
  }

  /** Appending a record to the log keeps every replica an initial segment. */
  lemma AppendKeepsPrefix(records: seq<Entry>, log: seq<Entry>, e: Entry)
    requires IsPrefix(records, log)
    ensures IsPrefix(records, log + [e])
  {
  }

  /** `dev.onMessage(syn.onMessage(dev.probe()))` (pyass.py:105, 110). */
  method SyncRound(svc: SyncService, dev: Device, forgetProbe: bool, mistake: bool)
    requires svc.Valid()
    modifies svc, dev
    ensures svc.Valid() && svc.syncedData == old(svc.syncedData)
    ensures dev.records == Round(old(dev.records), svc.syncedData, forgetProbe, mistake)
    ensures dev.sent == old(dev.sent)
  {
    var probe := dev.Probe(forgetProbe);
    var reply := svc.OnMessage(probe);
    dev.OnMessage(mistake, reply);
  }

  /** One pass of the driver's main loop for one device (pyass.py:103-105):
      offer new data, then synchronise. A replica that is an initial segment
      of the log stays one. */
  method Step(svc: SyncService, dev: Device, noData: bool, timestamp: Timestamp,
              a: string, b: string, c: string, forgetProbe: bool, mistake: bool)
    requires svc.Valid() && dev.Valid() && IsPrefix(dev.records, svc.syncedData)
    modifies svc, dev
    ensures svc.Valid() && dev.Valid() && IsPrefix(dev.records, svc.syncedData)
    ensures dev.records == Round(old(dev.records), svc.syncedData, forgetProbe, mistake)
    ensures noData ==> svc.syncedData == old(svc.syncedData) && dev.sent == old(dev.sent)
    ensures !noData ==>
      && dev.sent == old(dev.sent) + [RecordMsg(timestamp, dev.id, map["a" := a, "b" := b, "c" := c])]
      && svc.syncedData == old(svc.syncedData) + [Essentials(dev.sent[|dev.sent| - 1])]
  {
    var m := dev.ObtainData(noData, timestamp, a, b, c);
    var none := svc.OnMessage(m);
    if !noData {
      AppendKeepsPrefix(dev.records, old(svc.syncedData), Essentials(m));
    }
    RoundKeepsPrefix(dev.records, svc.syncedData, forgetProbe, mistake);
    SyncRound(svc, dev, forgetProbe, mistake);
  }

  /** Probing is idempotent: the same probe handled twice with no record in
      between gets identical replies and leaves the log as it was. */
  method ProbeTwice(svc: SyncService, probe: Message) returns (first: Option<Message>, second: Option<Message>)
    requires svc.Valid() && probe.ProbeMsg?
    modifies svc
    ensures svc.Valid() && svc.syncedData == old(svc.syncedData)
    ensures first == second == Some(Answer(old(svc.syncedData), probe.from))
  {
    first := svc.OnMessage(probe);
    second := svc.OnMessage(probe);
  }
}
