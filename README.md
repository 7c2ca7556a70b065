# Pull-based log replication: a Dafny model

This project models the synchronisation protocol of `pyass.py`. Several
devices produce records and keep a local replica of one authoritative,
append-only log held by a `SyncService`. Every exchange starts at a device
and goes over a channel that may drop any message:

- a device offers a new record (`record` message), and the service appends
  its essential fields (`timestamp`, `dev_id`, `data`) to `synced_data`;
- a device asks for everything from the end of its replica (`probe` with
  `from = len(records)`), and the service answers with an `update` that
  carries the missing suffix;
- the device applies the update by rewriting its replica as
  `records[:from] + data`, unless `from` lies beyond the replica's end.

The modules follow the source's structure:

- `PySlice` (PySlice.dfy): Python's `s[:k]` and `s[k:]`, including negative
  and out-of-range bounds.
- `Messages` (Messages.dfy): records (`Entry`), the tagged `Message` datatype
  (`RecordMsg | ProbeMsg | UpdateMsg | EmptyMsg`, where `EmptyMsg` is the
  `{}` a device returns when it has nothing to send), `Option` for the
  service's "no reply", and `assertEquivalent` as `Equivalent`.
- `Service` (Service.dfy): the class `SyncService` with its `seq` field
  `syncedData`. The pure function `Answer` gives the reply to a probe. A ghost
  history of handled messages, tied to the log by `Valid()`, states
  append-only behaviour as a lemma.
- `Devices` (Devices.dfy): the class `Device` with its fields `records` and
  `sent`. The pure functions `Apply` and `Receive` specify how an update
  changes the replica.
- `Protocol` (Protocol.dfy): one probe, answer and apply round (`Round`,
  `SyncRound`), one pass of the driver loop (`Step`), and the lemmas about
  rounds.

Each `random.random()` drop becomes a boolean parameter: `noData` for
`obtainData`, `forget` / `forgetProbe` for `probe`, and `mistake` for
`Device.onMessage`. The clock reading and the three uuid strings of a new
record are parameters of `ObtainData`.

The sentinel behaviour of the code is reproduced and not corrected. A device
that is already caught up (`start >= n`) probes a non-empty log. It gets
`{from: -1, data: []}`. Because `-1 > len(records)` is false, it applies
Python's `records[:-1]` and loses its last record. `SentinelShrinks` and
`CaughtUpOscillates` state this. A replica's length can therefore decrease: a
drop-free round takes a caught-up replica of a non-empty log from `n` to
`n - 1` records. `RoundKeepsPrefix` shows the replica nonetheless always stays
an initial segment of the log.

## Model

| member | source | states |
|---|---|---|
| PySlice.Bound | pyass.py:58 | the position Python uses for a slice bound: never beyond the end; `k` itself when `0 <= k <= len`; the end when `k > len`; `-k` positions before the end for negative `k`, clamped at 0 |
| PySlice.Take | pyass.py:58 | `records[:k]` is an initial segment: of length `k` for `0 <= k <= len`; for negative `k` it drops `-k` elements from the end; empty below `-len`; the whole list above `len` |
| PySlice.Drop | pyass.py:85 | `s[k:]` is a final segment: of length `len - k` for `0 <= k <= len`, of length `-k` for negative `k`, the whole list below `-len`; empty above `len` |
| PySlice.TakeDrop | pyass.py:58 | `s[:k] + s[k:] == s` for every integer `k`: the two slices split the list |
| PySlice.TakeMinusOne | pyass.py:58 | `records[:-1]` drops the last record of a non-empty list and leaves an empty list empty |
| Messages.Essentials | pyass.py:74 | the stored entry carries exactly the `timestamp`, `dev_id` and `data` of the record message |
| Messages.Equivalent | pyass.py:131-135 | `assertEquivalent` holds exactly when the records have the same device id and timestamp, both payloads hold every data key, and the payloads restricted to the data keys are equal maps |
| Messages.EquivalentIsEquality | pyass.py:131-135 | for records with exactly the data keys, `assertEquivalent` holds if and only if the records are equal |
| Service.Answer | pyass.py:80-91 | the reply is always an `update` whose data is a final segment of the log; for `0 <= start < n`, `from == start`, the data has length `n - start` and `log[..start] + data == log`; for `start >= n`, including the empty log, it is `{from: -1, data: []}`; against a non-empty log a negative `start` gets `from == start` and the last `min(-start, n)` entries; against the empty log every probe gets `{from: -1, data: []}` |
| Service.Logged | pyass.py:72-78 | the log after a sequence of messages: one entry with the essential fields per `record` message, in arrival order, so never longer than the sequence |
| Service.LoggedAppendOnly | pyass.py:72-78 | the log is append-only: later messages never move or change an entry already stored, so its length never decreases |
| Service.LoggedFromRecords | pyass.py:72-76 | every log entry is the essential part of a `record` message the service received |
| Service.SyncService.constructor | pyass.py:62-64 | the service starts with an empty log |
| Service.SyncService.OnMessage | pyass.py:66-93 | a `record` appends exactly one entry with its essential fields at the end, earlier entries unchanged, no reply; a `probe` leaves the log unchanged and is answered by `Answer`; any other message leaves the log unchanged and gets no reply |
| Devices.Apply | pyass.py:53-58 | an update whose `from` exceeds the replica length is rejected; for `0 <= from <= len` the first `from` records are kept and followed by exactly the update's data; a negative `from` drops `-from` records from the end before appending |
| Devices.Receive | pyass.py:45-58 | a mistake, a missing message or a message that is not an `update` leaves the replica unchanged; a delivered `update` is applied by `Apply` |
| Devices.ApplyIdempotent | pyass.py:58 | applying the same update with `from >= 0` twice gives the same replica as applying it once |
| Devices.ApplySentinel | pyass.py:54-58 | the sentinel update `{from: -1, data: []}` removes the last record of a non-empty replica and leaves an empty one empty |
| Devices.Device.constructor | pyass.py:15-18 | a new device has its id, an empty replica and nothing sent |
| Devices.Device.ObtainData | pyass.py:20-35 | either returns `{}` with `sent` unchanged, or returns a `record` with the device id, the timestamp and the three data values, appended to `sent`, so `sent` grows by exactly one; the replica is unchanged and every sent message stays a record of this device |
| Devices.Device.Probe | pyass.py:37-43 | a forgotten probe is `{}`; otherwise the probe carries the device id and `from == len(records)`; no state changes |
| Devices.Device.OnMessage | pyass.py:45-58 | the replica becomes `Receive(old replica, mistake, msg)` and `sent` is unchanged |
| Protocol.Round | pyass.py:105 | one probe, reply and apply: a forgotten probe or a device mistake leaves the replica unchanged; otherwise a replica shorter than the log is extended by exactly the log's entries from its length on, and a replica at least as long as the log loses its last record (an empty one stays empty) |
| Protocol.CatchUp | pyass.py:83-85 | a replica that is a proper initial segment of the log equals the log after one round with no drops |
| Protocol.SentinelShrinks | pyass.py:83-89 | a replica equal to a non-empty log loses its last record in a round with no drops; an empty replica against an empty log stays empty |
| Protocol.DropFreeRound | pyass.py:81-89 | from an initial segment of a non-empty log, a round with no drops gives the whole log when behind and the log without its last record when caught up |
| Protocol.CaughtUpOscillates | pyass.py:107-113 | under repeated drop-free probing a caught-up replica alternates between the log and the log without its last record |
| Protocol.RoundKeepsPrefix | pyass.py:105 | whatever is dropped, a round keeps the replica an initial segment of the log |
| Protocol.AppendKeepsPrefix | pyass.py:76 | appending to the log keeps every replica an initial segment of it |
| Protocol.SyncRound | pyass.py:105 | the device's probe, the service's reply and the device's apply leave the log and `sent` unchanged and set the replica to `Round` of the old replica |
| Protocol.Step | pyass.py:101-105 | one pass of the driver for one device: with new data, `sent` grows by exactly the new record (this device's id, the timestamp, the three data values) with earlier entries unchanged, and the log grows by that record's essential fields; without new data the log and `sent` are unchanged; the replica becomes `Round` of the old replica against the new log and stays an initial segment of it |
| Protocol.ProbeTwice | pyass.py:80-89 | the same probe handled twice with no record in between gets identical replies and leaves the log unchanged |

## Left out

- Drops are modelled as explicit boolean choices, not as probabilities (pyass.py:24, 40, 47).
- `datetime.datetime.now()` and `uuid.uuid4()` are foreign calls; their values are parameters of `ObtainData`.
- `testSyncing` (pyass.py:95-129) is not modelled as a whole: its million randomised rounds, its "until all lengths equal" loop, which has no termination argument (and, given `CaughtUpOscillates`, may stop only thanks to the random drops), and its parsing of device ids. One pass of its inner loop for one device is `Step`; one device's call inside its final loop (pyass.py:110) is `SyncRound`, and a pass of that loop over all devices is not modelled. The top-level call (pyass.py:137) is not modelled.
- Devices.Receive: in Python, a `Device.onMessage` given a dictionary without a `type` key (such as `{}`) raises `KeyError`. The model treats such a message as ignored. The service never sends one.
- Other `KeyError`s on malformed dictionaries cannot arise: messages are a typed datatype.
- Sharing: Python's service stores the device's `data` dictionary by reference, and replicas share entry dictionaries with the log. No code mutates them, so they are modelled as values.
- Concurrency and locking: the source is sequential.
