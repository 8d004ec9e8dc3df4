/** The P2P membership engine: one node's identity, its peer table, the
    shared key, the optional bootstrap address and the scan flag. Outbound
    requests and emitted snapshots are kept as logs. */
module P2PNode {
  import opened Model
  import opened OrderedMap
  import Auth
  import Registry
  import Notifier

  class P2P {
    const scaneable: Option<bool>
    const current: Client
    const key: string
    const lookup: Option<string>
    /** The hash library, taken as given. */
    const sha256: string -> string

    /** The peer table (a Map in the source). */
    var clients: Registry.Table
    /** The "state" listeners, in subscription order. */
    var listeners: seq<Notifier.Listener>
    /** Every snapshot emitted on "state", oldest first. */
    var emitted: seq<State>
    /** Every request posted to a peer, oldest first. */
    var outbox: seq<Post>

    ghost predicate Valid()
      reads this`clients
    {
      Registry.Inv(clients, current.addr)
    }

    /** `id` is the uuid, `createdAt`/`updatedAt` the ISO strings and `now`
        the Date the constructor reads. */
    constructor (config: Config, id: string, createdAt: string, updatedAt: string, now: Date, sha256: string -> string)
      ensures Valid()
      ensures scaneable == config.scan && key == config.key && lookup == config.lookup
      ensures current == Client(id, config.name, config.addr, createdAt, updatedAt, now)
      ensures this.sha256 == sha256
      ensures clients == OMap([], map[]) && listeners == [] && emitted == [] && outbox == []
    {
      scaneable := config.scan;
      key := config.key;
      lookup := config.lookup;
      clients := OMap([], map[]);
      current := Client(id, config.name, config.addr, createdAt, updatedAt, now);
      this.sha256 := sha256;
      listeners := [];
      emitted := [];
      outbox := [];
    }

    /** The `state` getter. */
    function Snapshot(): (s: State)
      reads this`clients
      requires Valid()
      ensures s.current == current && |s.clients| == Size(clients)
      ensures forall i :: 0 <= i < |s.clients| ==>
                s.clients[i] == clients.vals[clients.keys[i]] && s.clients[i].addr != current.addr
    {
      Registry.Snapshot(current, clients)
    }

    /** emitter.emit("state", this.state). */
    method Emit()
      requires Valid()
      modifies this`emitted
      ensures emitted == old(emitted) + [Snapshot()]
    {
      emitted := emitted + [Snapshot()];
    }

    method Subscribe(cb: Notifier.Listener)
      modifies this`listeners
      ensures listeners == Notifier.On(old(listeners), cb)
    {
      listeners := listeners + [cb];
    }

    /** The body of the handle that Subscribe hands back. */
    method Unsubscribe(cb: Notifier.Listener)
      modifies this`listeners
      ensures listeners == Notifier.Off(old(listeners), cb)
    {
      listeners := Notifier.Off(listeners, cb);
    }

    /** The signature check of validate. */
    function Validate(signature: string, client: Client): (r: Outcome<string>)
      ensures r == Pass <==> signature == Auth.Sign(sha256, key, client)
    {
      Auth.Validate(sha256, key, signature, client)
    }

    method Register(signature: string, client: Client, now: Date) returns (r: Outcome<string>)
      requires Valid()
      modifies this`clients
      ensures Valid()
      ensures r == Pass <==> signature == Auth.Sign(sha256, key, client)
      ensures r != Pass ==> r == Fail(Auth.InvalidSignature) && clients == old(clients)
      ensures r == Pass ==> clients == Registry.Save(old(clients), current.addr, client, now)
    {
      r := Validate(signature, client);
      if r != Pass {
        return;
      }
      Save(client, now);
    }

    method Save(client: Client, now: Date)
      requires Valid()
      modifies this`clients
      ensures Valid()
      ensures clients == Registry.Save(old(clients), current.addr, client, now)
    {
      if client.addr == current.addr {
        return;
      }
      clients := Set(clients, client.addr, client.(refreshedAt := now));
    }

    /** check: delete each stale entry, emitting a snapshot after every
        deletion. Only the visited entry is ever deleted, so the live
        iteration visits exactly the keys present at the start. */
    method Check(now: Date)
      requires Valid()
      modifies this`clients, this`emitted
      ensures Valid()
      ensures clients == Registry.Sweep(old(clients), old(clients).keys, now)
      ensures emitted == old(emitted) + Registry.SweepLog(current, old(clients), old(clients).keys, now)
    {
      var ks := clients.keys;
      var j := 0;
      while j < |ks|
        invariant 0 <= j <= |ks| && Valid()
        invariant forall p :: j <= p < |ks| ==> Get(clients, ks[p]) == Get(old(clients), ks[p])
        invariant Registry.Sweep(clients, ks[j..], now) == Registry.Sweep(old(clients), ks, now)
        invariant emitted + Registry.SweepLog(current, clients, ks[j..], now)
                  == old(emitted) + Registry.SweepLog(current, old(clients), ks, now)
      {
        CheckStep(old(clients), current, j, clients, now);
        ghost var log := emitted;
        ghost var rest := Registry.SweepLog(current, Registry.SweepStep(clients, ks[j], now), ks[j + 1..], now);
        CheckEntry(clients.vals[ks[j]], now);
        Notifier.AppendAssoc(log, emitted[|log|..], rest);
        j := j + 1;
      }
    }

    /** The body of check's loop for one entry: if it is stale, delete it and
        emit. */
    method CheckEntry(client: Client, now: Date)
      requires Valid() && client.addr in clients.vals && clients.vals[client.addr] == client
      modifies this`clients, this`emitted
      ensures Valid()
      ensures clients == Registry.SweepStep(old(clients), client.addr, now)
      ensures emitted == old(emitted) +
                (if Registry.Stale(client, now) then [Registry.Snapshot(current, clients)] else [])
    {
      if now.minutes - client.refreshedAt.minutes >= 5 {
        clients := Delete(clients, client.addr);
        Emit();
      }
    }

    /** discover: post the signed identity to addr; merge the reply on
        success, evict addr on failure, and emit one snapshot either way. */
    method Discover(addr: string, reply: Reply)
      requires Valid()
      modifies this`clients, this`emitted, this`outbox
      ensures Valid()
      ensures outbox == old(outbox) + [Post(addr, current, Auth.Sign(sha256, key, current))]
      ensures clients == Registry.Discover(old(clients), current.addr, addr, reply)
      ensures emitted == old(emitted) + [Snapshot()]
    {
      var signature := Auth.Sign(sha256, key, current);
      outbox := outbox + [Post(addr, current, signature)];
      match reply {
      case Ok(data, at) =>
        var list := [data.current] + data.clients;
        var j := 0;
        while j < |list|
          invariant 0 <= j <= |list| && Valid()
          invariant clients == Registry.Merge(old(clients), current.addr, list[..j], at)
          invariant outbox == old(outbox) + [Post(addr, current, signature)] && emitted == old(emitted)
        {
          assert list[..j + 1][..j] == list[..j];
          Save(list[j], at);
          j := j + 1;
        }
        assert list[..j] == list;
      case Failed =>
        clients := Delete(clients, addr);
      }
      Emit();
    }

    /** scan: with an empty table and a bootstrap address, one discover of
        it; otherwise a discover of every key in insertion order, one at a
        time. The key iteration is live: a key added meanwhile is visited
        too. The n-th discover gets replies[n]; one past the end of replies
        fails, as a request that times out does. */
    method Scan(replies: seq<Reply>)
      requires Valid()
      modifies this`clients, this`emitted, this`outbox
      ensures Valid()
      ensures Scanned(old(clients), clients, old(outbox), outbox, old(emitted), emitted,
                      current, Auth.Sign(sha256, key, current), lookup, replies)
    {
      if Size(clients) == 0 && IsSetString(lookup) {
        Discover(lookup.value, if |replies| > 0 then replies[0] else Failed);
        return;
      }
      ghost var signature := Auth.Sign(sha256, key, current);
      Registry.ScanRunVisitsInOrder(clients, current, signature, 0, replies, 0, outbox, emitted, clients.keys);
      Registry.ScanRunEvictsOnlyContacted(clients, current, signature, 0, replies, 0, outbox, emitted);
      DiscoverKeys(replies);
    }

    /** scan's for-of loop over the live key iteration: it does what
        Registry.ScanRun says, from the first key and the first reply, to the
        table and to the two logs. */
    method DiscoverKeys(replies: seq<Reply>)
      requires Valid()
      modifies this`clients, this`emitted, this`outbox
      ensures Valid()
      ensures (clients, outbox, emitted)
              == Registry.ScanRun(old(clients), current, Auth.Sign(sha256, key, current), 0, replies, 0,
                                  old(outbox), old(emitted))
    {
      ghost var signature := Auth.Sign(sha256, key, current);
      ghost var run := Registry.ScanRun(clients, current, signature, 0, replies, 0, outbox, emitted);
      var i: nat, used: nat := 0, 0;
      while i < Size(clients)
        invariant Valid()
        invariant Registry.ScanRun(clients, current, signature, i, replies, used, outbox, emitted) == run
        decreases if used < |replies| then |replies| - used else 0, Size(clients) - i
      {
        i := VisitKey(i, replies, used);
        used := used + 1;
      }
      assert Registry.ScanRun(clients, current, signature, i, replies, used, outbox, emitted) == (clients, outbox, emitted);
    }

    /** One pass of scan's loop: discover the key at the cursor, then move
        the cursor past it unless the discover evicted it. */
    method VisitKey(i: nat, replies: seq<Reply>, used: nat) returns (next: nat)
      requires Valid() && i < Size(clients)
      modifies this`clients, this`emitted, this`outbox
      ensures Valid()
      ensures (clients, next) == Registry.Visit(old(clients), current.addr, i, if used < |replies| then replies[used] else Failed)
      ensures outbox == old(outbox) + [Post(old(clients).keys[i], current, Auth.Sign(sha256, key, current))]
      ensures emitted == old(emitted) + [Snapshot()]
      ensures used >= |replies| ==> next == i && Size(clients) == Size(old(clients)) - 1
      ensures Registry.ScanRun(clients, current, Auth.Sign(sha256, key, current), next, replies, used + 1, outbox, emitted)
              == Registry.ScanRun(old(clients), current, Auth.Sign(sha256, key, current), i, replies, used,
                                  old(outbox), old(emitted))
    {
      var addr := clients.keys[i];
      Discover(addr, if used < |replies| then replies[used] else Failed);
      next := if addr in clients.vals then i + 1 else i;
    }

    /** One timer tick as start() sets it up: scan when scanning is enabled,
        otherwise check; never both. */
    method Tick(replies: seq<Reply>, now: Date)
      requires Valid()
      modifies this`clients, this`emitted, this`outbox
      ensures Valid()
      ensures !IsSetFlag(scaneable) ==>
                outbox == old(outbox)
                && clients == Registry.Sweep(old(clients), old(clients).keys, now)
                && emitted == old(emitted) + Registry.SweepLog(current, old(clients), old(clients).keys, now)
      ensures IsSetFlag(scaneable) ==>
                Scanned(old(clients), clients, old(outbox), outbox, old(emitted), emitted,
                        current, Auth.Sign(sha256, key, current), lookup, replies)
    {
      if IsSetFlag(scaneable) {
        Scan(replies);
      } else {
        Check(now);
      }
    }
  }

  /** What a scan from table t0 leaves, with out0/em0 the request and
      notification logs before it and signature the node's own. An empty
      table with a bootstrap address: one discover of it, one snapshot.
      Otherwise the loop of Registry.ScanRun, whose first requests go to the
      starting keys in insertion order, and which evicts only addresses it
      posted to. (An empty table without a bootstrap address: no request,
      no change.) */
  ghost predicate Scanned(t0: Registry.Table, t: Registry.Table, out0: seq<Post>, out: seq<Post>,
                          em0: seq<State>, em: seq<State>, current: Client, signature: string,
                          lookup: Option<string>, replies: seq<Reply>)
  {
    && Wf(t0)
    && if Size(t0) == 0 && IsSetString(lookup) then
         && out == out0 + [Post(lookup.value, current, signature)]
         && t == Registry.Discover(t0, current.addr, lookup.value, if |replies| > 0 then replies[0] else Failed)
         && em == em0 + [Registry.Snapshot(current, t)]
       else
         && (t, out, em) == Registry.ScanRun(t0, current, signature, 0, replies, 0, out0, em0)
         && |out0| + Size(t0) <= |out|
         && (forall p :: 0 <= p < Size(t0) ==> out[|out0| + p].peer == t0.keys[p])
         && (forall a :: a in t0.vals && a !in t.vals ==> exists p :: |out0| <= p < |out| && out[p].peer == a)
  }

  /** One iteration of check's loop, on values: the key visited next is still
      in the table, stored under itself, and the visit does to the table and
      to the log what the first step of the sweep does. */
  lemma CheckStep(t0: Registry.Table, current: Client, j: nat, cur: Registry.Table, now: Date)
    requires Registry.Inv(t0, current.addr) && Registry.Inv(cur, current.addr) && j < |t0.keys|
    requires forall p :: j <= p < |t0.keys| ==> Get(cur, t0.keys[p]) == Get(t0, t0.keys[p])
    ensures var ks, k := t0.keys, t0.keys[j];
            var next := Registry.SweepStep(cur, k, now);
            && k in cur.vals && cur.vals[k].addr == k
            && Registry.Sweep(cur, ks[j..], now) == Registry.Sweep(next, ks[j + 1..], now)
            && Registry.SweepLog(current, cur, ks[j..], now)
                 == (if Registry.Stale(cur.vals[k], now) then [Registry.Snapshot(current, Delete(cur, k))] else [])
                    + Registry.SweepLog(current, next, ks[j + 1..], now)
            && forall p :: j + 1 <= p < |ks| ==> Get(next, ks[p]) == Get(t0, ks[p])
  {
    var ks := t0.keys;
    assert ks[j..][0] == ks[j] && ks[j..][1..] == ks[j + 1..];
    assert ks[j] in ks;
  }
}
