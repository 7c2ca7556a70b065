/** The values exchanged between devices and the synchronisation service
    (pyass.py). Python dictionaries with a `type` key become one tagged
    datatype, so a message with a missing or misspelt key cannot be built. */
module Messages {

  datatype Option<+T> = None | Some(value: T)

  /** Timestamps are ISO-8601 strings and device ids are strings like "dev_3";
      both are opaque to the protocol. */
  type Timestamp = string
  type DeviceId = string

  /** The collected data: one uuid string per key of `DataKeys`. */
  type Payload = map<string, string>

  /** `_DATA_KEYS`. */
  const DataKeys: seq<string> := ["a", "b", "c"]

  /** The essential fields of a record, as the service stores them. */
  datatype Entry = Entry(timestamp: Timestamp, devId: DeviceId, payload: Payload)

  datatype Message =
    | RecordMsg(timestamp: Timestamp, devId: DeviceId, payload: Payload)  // type 'record'
    | ProbeMsg(devId: DeviceId, from: int)                                // type 'probe'
    | UpdateMsg(from: int, entries: seq<Entry>)                           // type 'update'
    | EmptyMsg                                                            // `{}`: no type key

  /** The fields the service copies out of a `record` message. */
  function Essentials(m: Message): (e: Entry)
    requires m.RecordMsg?
    ensures RecordMsg(e.timestamp, e.devId, e.payload) == m
  {
    Entry(m.timestamp, m.devId, m.payload)
  }

  /** A payload as a device generates it: exactly the keys of `DataKeys`. */
  predicate WellFormedPayload(p: Payload)
  {
    p.Keys == DataKeySet()
  }

  /** The set of the data keys. */
  function DataKeySet(): set<string>
  {
    set k | k in DataKeys
  }

  /** Comparing two payloads key by key along `DataKeys` is comparing
      their restrictions to the data keys. */
  lemma AgreeOnDataKeys(p1: Payload, p2: Payload)
    ensures (forall i :: 0 <= i < |DataKeys| ==>
               DataKeys[i] in p1 && DataKeys[i] in p2 && p1[DataKeys[i]] == p2[DataKeys[i]])
      <==> (&& DataKeySet() <= p1.Keys && DataKeySet() <= p2.Keys
            && (map k | k in DataKeySet() :: p1[k]) == (map k | k in DataKeySet() :: p2[k]))
  {
    var keywise := forall i :: 0 <= i < |DataKeys| ==>
      DataKeys[i] in p1 && DataKeys[i] in p2 && p1[DataKeys[i]] == p2[DataKeys[i]];
    if keywise {
      forall k | k in DataKeySet() ensures k in p1 && k in p2 && p1[k] == p2[k] {
        var i :| 0 <= i < |DataKeys| && DataKeys[i] == k;
      }
    }
    if DataKeySet() <= p1.Keys && DataKeySet() <= p2.Keys {
      var m1 := map k | k in DataKeySet() :: p1[k];
      var m2 := map k | k in DataKeySet() :: p2[k];
      if m1 == m2 {
        forall i | 0 <= i < |DataKeys| ensures p1[DataKeys[i]] == p2[DataKeys[i]] {
          assert DataKeys[i] in DataKeySet();
          assert m1[DataKeys[i]] == m2[DataKeys[i]];
        }
      }
    }
  }

  /** `assertEquivalent` (pyass.py:131-135): the two records agree on device
      id and timestamp, both payloads hold every data key, and the payloads
      agree on those keys; whatever else a payload holds is not compared. */
  predicate Equivalent(d1: Entry, d2: Entry): (b: bool)
    ensures b <==>
      && d1.devId == d2.devId && d1.timestamp == d2.timestamp
      && DataKeySet() <= d1.payload.Keys && DataKeySet() <= d2.payload.Keys
      && (map k | k in DataKeySet() :: d1.payload[k]) == (map k | k in DataKeySet() :: d2.payload[k])
  {
    AgreeOnDataKeys(d1.payload, d2.payload);
    d1.devId == d2.devId && d1.timestamp == d2.timestamp &&
    forall i :: 0 <= i < |DataKeys| ==>
      DataKeys[i] in d1.payload && DataKeys[i] in d2.payload &&
      d1.payload[DataKeys[i]] == d2.payload[DataKeys[i]]
  }

  /** For generated records, `assertEquivalent` is exactly equality. */
  lemma EquivalentIsEquality(d1: Entry, d2: Entry)
    requires WellFormedPayload(d1.payload) && WellFormedPayload(d2.payload)
    ensures Equivalent(d1, d2) <==> d1 == d2
  {
  }
}
