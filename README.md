# node-discovery P2P engine, modelled in Dafny

This project models the membership engine of node-discovery: the `P2P` class in
`p2p/p2p.ts`. One node holds its own identity (`current`), a table of known
peers keyed by address (a JavaScript `Map`, kept in insertion order), a shared
group key, an optional bootstrap address (`lookup`) and a scan flag. The model
covers these operations:

- Peers register with a signed identity (`register`, `validate`, `save`).
- A scanning node posts its own signed identity to every known peer and merges
  what comes back (`scan`, `discover`).
- A non-scanning node evicts entries whose refresh stamp is stale (`check`).
- Every change made by `discover` and `check` sends a snapshot of the table
  (`state`) to the "state" listeners (`subscribe`).

Files:

- `model.dfy`: the data shapes. These are the peer record `Client`, the
  snapshot `State`, `Config`, a `Date` that carries its minute field, the
  outcome of one HTTP exchange (`Reply`) and an outbound request (`Post`).
- `ordered_map.dfy`: the JavaScript `Map` as a value. It holds the key order
  plus the entries, with `set`, `delete` and `values`.
- `auth.dfy`: the shared-key signature. It is the hash of id, name, address
  and key, concatenated.
- `notifier.dfy`: the list of "state" listeners, with `on` and `off`.
- `registry.dfy`: what `save`, `discover` and `check` do to the table, as
  functions on table values. It also holds the two table invariants and the
  lemmas saying what each operation means:
  - the node's own address is never stored;
  - every entry is stored under its own address.
- `p2p.dfy`: the class `P2P` itself. Its fields are mutated by methods that
  are proved against the functions of `registry.dfy`. Outbound requests and
  emitted snapshots are kept as append-only logs (`outbox`, `emitted`). Each
  method's contract gives the new table and both logs as a function of the
  old state: `Registry.Save`, `Registry.Discover`, `Registry.Sweep` with
  `Registry.SweepLog`, and `Registry.ScanRun` for the whole of `scan`.

The network, the clock, the uuid generator and the hash are all inputs:

- **Network.** `discover` receives the `Reply` of its request. `scan`
  receives the sequence of replies, one per request in order. A request made
  after the sequence runs out counts as failed, as a request that times out
  would.
- **Clock.** `now` / `at` are `Date` parameters.
- **uuid and construction time.** The uuid and the ISO strings are
  constructor arguments.
- **Hash.** `sha256` is a function value given to the constructor.

Behaviours of the code that the model keeps as written:

- **Staleness.** `check` compares minute fields (`getMinutes()`), not elapsed
  time. A record stamped at minute 58 and checked twelve minutes later is not
  stale. A record stamped in minute 55 or later is never stale
  (`Registry.MinuteFieldWraps`, `Registry.LateStampNeverStale`).
- **No notification from `save` or `register`.** Neither of them emits.
  Only `discover` (once per call, on success or failure) and `check` (once
  per deleted entry) do.
- **Scan or check, never both.** `start()` schedules `scan` when the scan
  flag is set and `check` otherwise (`P2P.Tick`).
- **A lookup of `""`.** The bootstrap branch of `scan` treats `""` as
  absent, like an unset lookup.
- **No configuration error.** A bad config raises nothing; the constructor
  takes any config.
- **Signatures.** They cover only id, name and address, with no separators.
  So the timestamps are unsigned (`Auth.SignatureIgnoresTimestamps`). Two
  different identities can also share a signature
  (`Auth.FieldBoundariesAreNotSigned`).

The live iteration of the `Map` in `scan` is modelled with a cursor into the
current key list:

- If a `discover` keeps the key, the cursor moves past it.
- If a `discover` evicts the key, the cursor stays, and the next key slides
  into its place.
- Keys that a `discover` appends are visited later in the same scan, as
  JavaScript does.
- `Registry.ScanRun` runs this loop on values. The n-th `discover` of the
  scan gets `replies[n]`. After each one, it appends one request to the
  outbox and one snapshot of the new table to the emitted log.

`check` deletes only the entry it is visiting. So its live iteration visits
exactly the keys present at the start, and it is modelled as a loop over
that key list.

## Model

| member | source | states |
|---|---|---|
| OrderedMap.Set | p2p/p2p.ts:75 | `Map.set`: the key now maps to the value and every other key is unchanged. A present key keeps its position; a new key is appended. The key list stays duplicate-free and in step with the entries. |
| OrderedMap.Remove | p2p/p2p.ts:88 | Removing a key from the key order keeps exactly the other keys. An absent key changes nothing; distinctness is kept; a present distinct key shortens the list by one. |
| OrderedMap.RemoveAt | p2p/p2p.ts:113 | Removing the key at index i closes the gap: the result is the keys before i followed by the keys after i. |
| OrderedMap.Delete | p2p/p2p.ts:88 | `Map.delete`: the key is gone, every other key is unchanged, and the size drops by one exactly when the key was present. Deleting an absent key changes nothing. |
| OrderedMap.ValuesListsEveryEntry | p2p/p2p.ts:52 | `Array.from(map.values())` (`OrderedMap.Values`) lists every entry: the value of each key is in the list, at the position of that key in the insertion order. |
| Auth.Payload | p2p/p2p.ts:79 | The hashed text is id, name, address and key concatenated. Its length is the sum of theirs; it starts with the id and ends with the key. |
| Auth.Sign | p2p/p2p.ts:105 | The signature `discover` sends is the hash of that text for the node's own record. It is the same for every record that shares the node's id, name and address. |
| Auth.Validate | p2p/p2p.ts:78-81 | `validate` passes exactly when the signature equals the hash of id+name+addr+key; otherwise it fails with "Invalid signature". |
| Auth.SignedIsAccepted | p2p/p2p.ts:105 | The signature `discover` sends passes `validate` on a node with the same key. |
| Auth.WrongKeyIsRefused | p2p/p2p.ts:79-80 | With a collision-free hash, a record signed under another key fails with "Invalid signature". |
| Auth.SignatureIgnoresTimestamps | p2p/p2p.ts:79 | The signature does not depend on createdAt, updatedAt or refreshedAt. |
| Auth.FieldBoundariesAreNotSigned | p2p/p2p.ts:79 | Two distinct records, with id/name "a"/"bc" and "ab"/"c", have the same signature. |
| Notifier.On | p2p/p2p.ts:55-59 | `on` appends the callback to the list. Calling the handle that `subscribe` returns, an `off` of the same callback, gives back the list from before the `on`. |
| Notifier.Off | p2p/p2p.ts:57-59 | `off` removes one registration of the callback; an absent callback changes nothing. The multiset of listeners loses exactly one copy. |
| Notifier.OffRemovesLast | p2p/p2p.ts:58 | The copy `off` removes is the last registration of the callback. Every other listener stays, in its order. |
| Notifier.LastIndex | p2p/p2p.ts:58 | Gives the index of the registration that `off` removes. It is the last registration of the callback, and removing it keeps the listeners before and after it in order. |
| Notifier.OffKeepsLater | p2p/p2p.ts:58 | `off` leaves registrations of other callbacks made after it in place. |
| Registry.Save | p2p/p2p.ts:72-76 | `save` with the node's own address changes nothing. Otherwise it upserts the stamped record under its address. The stamp (`Registry.Stamp`) sets `refreshedAt` to the clock and keeps every other field. Every other entry is unchanged. The old key order is a prefix of the new one, the size grows by at most one, a known address keeps its position, and both invariants are kept. |
| Registry.SaveTwice | p2p/p2p.ts:72-76 | Saving the same record twice leaves a single entry, carrying the later stamp. |
| Registry.Merge | p2p/p2p.ts:108-109 | Saving the records of a reply one by one only appends keys and keeps both invariants. |
| Registry.LastWith | p2p/p2p.ts:108-109 | Finds a record with the given address that no later record in the list shares its address with, so it is the last one with it. It reports that none is found exactly when no record has the address. |
| Registry.MergeLastWins | p2p/p2p.ts:108-109 | After a merge, the own address is still absent. Every other address holds the last record for it in the reply, stamped with the reply's clock, or its previous entry if the reply does not mention it. |
| Registry.Discover | p2p/p2p.ts:103-117 | A discover keeps both invariants. Success only appends keys. Failure removes exactly the contacted address and leaves all other entries unchanged. |
| Registry.DiscoverMerges | p2p/p2p.ts:108-109 | A successful discover is the merge of the peer's own record followed by its peer list, and the last record wins. |
| Registry.DiscoverAt | p2p/p2p.ts:98-99 | After a discover of the key at index i, that key is either still at i with the table only grown, or gone with the later keys shifted down by one. |
| Registry.Visit | p2p/p2p.ts:98-99 | One pass of scan's loop is `Registry.Discover` of the key at the cursor. On success, keys are only appended and the cursor moves on. On failure, exactly that key is removed and the cursor stays. Only that key can leave the table. Both invariants are kept. |
| Registry.ScanRun | p2p/p2p.ts:98-100 | The live for-of loop of `scan`, from a cursor and a count of replies used. It keeps both invariants, and it only appends to the request and snapshot logs. |
| Registry.ScanRunSigned | p2p/p2p.ts:105-107 | Each request of a scan carries the node's own record and its signature. There is one snapshot of the node's identity per request. |
| Registry.ScanRunVisitsInOrder | p2p/p2p.ts:98 | Every key from the cursor on is sent a request, in insertion order, before any key added during the scan. |
| Registry.ScanRunEvictsOnlyContacted | p2p/p2p.ts:111-113 | An entry that leaves the table during a scan was the target of one of its requests. |
| Registry.ScanRunUnreachable | p2p/p2p.ts:111-113 | When every request fails (each reply still to come is a failure, or none is left), the scan reaches each key once, from the cursor on, and evicts it. Only the keys before the cursor remain. |
| Registry.JoinThroughBootstrap | p2p/p2p.ts:95-96 | A node with an empty table that joins through a peer B knowing C ends up knowing B, then C, both stamped. |
| Registry.Stale | p2p/p2p.ts:86-87 | check's test subtracts minute fields. It can only hold when the stamp's minute is below 55 and the current minute is at least 5. |
| Registry.MinuteFieldWraps | p2p/p2p.ts:86-87 | Staleness uses minute fields: 12 minutes across an hour boundary is not stale, and 4 minutes 1 second within the hour is. |
| Registry.LateStampNeverStale | p2p/p2p.ts:86-87 | A record stamped in minute 55 or later is never stale. |
| Registry.SweepStep | p2p/p2p.ts:87-88 | Visiting one key deletes it exactly when its entry is stale. Every other key keeps its entry. |
| Registry.SweepLog | p2p/p2p.ts:87-90 | check emits at most one snapshot per key it visits. |
| Registry.Sweep | p2p/p2p.ts:85-91 | check's loop only deletes: every remaining entry was there before, with the same record. |
| Registry.SweepRemovesStale | p2p/p2p.ts:85-91 | Over distinct keys, check deletes exactly the stale entries among them and keeps every other entry unchanged. |
| Registry.SweepKeepsInv | p2p/p2p.ts:85-91 | check keeps both table invariants. |
| Registry.Snapshot | p2p/p2p.ts:51-53 | The `state` snapshot carries the node's identity and one record per entry, in key order. Under the invariants, no record has the node's own address. |
| Registry.StaleCountFrame | p2p/p2p.ts:86-87 | The number of stale keys depends only on the entries under those keys. |
| Registry.SweepLogCounts | p2p/p2p.ts:87-90 | check emits exactly one snapshot per stale entry, and each one carries the node's identity. |
| P2PNode.P2P.constructor | p2p/p2p.ts:36-49 | The node starts with the configured key, lookup and scan flag, and its own record built from the config. The table, listeners and logs start empty. |
| P2PNode.P2P.Snapshot | p2p/p2p.ts:51-53 | The `state` getter returns the node's identity, then the table's records in key order, none of them with the node's own address. |
| P2PNode.P2P.Emit | p2p/p2p.ts:89 | An emit appends exactly the current snapshot to the log of notifications. |
| P2PNode.P2P.Subscribe | p2p/p2p.ts:55-56 | `subscribe` appends the callback to the listener list. |
| P2PNode.P2P.Unsubscribe | p2p/p2p.ts:57-59 | The returned handle removes one registration of that callback (`Notifier.Off`). |
| P2PNode.P2P.Validate | p2p/p2p.ts:78-81 | The check passes exactly when the signature is this node's signature of the record. |
| P2PNode.P2P.Register | p2p/p2p.ts:62-65 | A bad signature fails with "Invalid signature" and leaves the table unchanged. A good one behaves as `save`. The invariants are kept. |
| P2PNode.P2P.Save | p2p/p2p.ts:72-76 | The table becomes `Registry.Save` of the old one; the invariants are kept. |
| P2PNode.P2P.Check | p2p/p2p.ts:83-92 | The table becomes the sweep of the old table over its keys. The notifications are the old ones followed by one snapshot per deletion. The invariants are kept. |
| P2PNode.P2P.CheckEntry | p2p/p2p.ts:86-90 | Visiting one entry deletes it if it is stale and then emits the new snapshot; otherwise it changes nothing. |
| P2PNode.P2P.Discover | p2p/p2p.ts:103-117 | Exactly one signed request goes to the address, and exactly one snapshot is emitted. The table becomes `Registry.Discover` of the old one for the reply. |
| P2PNode.P2P.Scan | p2p/p2p.ts:94-101 | With an empty table and a lookup that is set (`Model.IsSetString`: present and not `""`, as JavaScript truthiness has it), one discover of the lookup with the first reply, then one snapshot of the result. Otherwise the table and both logs become `Registry.ScanRun` from the first key and the first reply (nothing happens with an empty table). Every starting key gets a request, in insertion order. An entry disappears only if a request went to its address. |
| P2PNode.P2P.DiscoverKeys | p2p/p2p.ts:98-100 | The for-of loop over the live keys. The table, the outbox and the emitted log become `Registry.ScanRun` of the old ones. The invariants are kept. |
| P2PNode.P2P.VisitKey | p2p/p2p.ts:98-99 | One pass of the loop. It does `Registry.Visit` with the next reply, or a failure past the last reply. One signed request goes to the key at the cursor, and the snapshot taken after the discover is emitted. The rest of the scan is unchanged by the step. |
| P2PNode.P2P.Tick | p2p/p2p.ts:67-70 | One timer tick runs either scan or check, never both. With the flag set (`Model.IsSetFlag`: present and `true`), the result is exactly what `Scan` ensures. Without it, the table becomes the sweep of the old one, the log gains `Registry.SweepLog`, and nothing is sent. |
| P2PNode.CheckStep | p2p/p2p.ts:85-90 | In check's loop, the next starting key is still present, stored under itself. Visiting it is the first step of the sweep and of its log. |

## Left out

- I/O: `axios.post` is replaced by the `Reply` parameter, and the `console.log` lines are not modelled.
- Concurrency: `setInterval` and its 10-second period are not modelled. A timer tick is one call of `Tick`, and ticks never overlap. In the source, an async `scan` can overlap the next tick. Inbound `register` calls (the `/api/connect` handler) can also run while a scan waits at its `await`. They add keys that the live for-of loop then visits. The model's scan never sees such an interleaving, because its replies are fixed before it starts.
- Hashing and identity: the `sha256` hash, `uuid()` and `new Date()` are parameters, not computed.
- Listener callbacks: they are represented by numbers and never run. Emission is appended to the `emitted` log.
- Throwing: an error thrown by `register` is the `Fail("Invalid signature")` result.
- P2P.Save: does not model aliasing. The source writes `refreshedAt` into the caller's own object, which the table then shares; the model stores a stamped copy.
- P2P.Discover: does not model a reply that is malformed partway through. In the source, the records before the bad one are saved and then the address is evicted. The model treats any such reply as `Failed` without those partial saves.
- P2P.Discover: one clock reading (`at`) stamps every record of a reply. The source calls `new Date()` for each save.
- P2P.Scan: replies past the end of the given sequence count as failures.
- Post: a request records the target address, the body and the signature header. The fixed route suffix `/api/connect` is not recorded.
- The `/api/connect` route handler and `bootstrap.ts` are not part of this model.
