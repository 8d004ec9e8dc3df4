/** What the engine's mutations do to the peer table, as functions on the
    table value, with the invariants they keep and the lemmas that say what
    they mean. The class in p2p.dfy is proved against these. */
module Registry {
  import opened Model
  import opened OrderedMap

  /** The peer table: address -> record, in insertion order. */
  type Table = OMap<Client>

  /** The table invariants: no entry for the node's own address, and every
      entry is stored under its own address. */
  ghost predicate Inv(t: Table, self: string)
  {
    Wf(t) && self !in t.vals && forall a :: a in t.vals ==> t.vals[a].addr == a
  }

  /** The record as save stores it: the liveness stamp replaced by the clock. */
  function Stamp(c: Client, now: Date): Client
  {
    c.(refreshedAt := now)
  }

  /** save: a record for the own address is ignored; any other is stamped and
      upserted under its address. */
  function Save(t: Table, self: string, c: Client, now: Date): (r: Table)
    requires Wf(t)
    ensures Wf(r)
    ensures c.addr == self ==> r == t
    ensures c.addr != self ==> Get(r, c.addr) == Some(Stamp(c, now))
    ensures forall a :: a != c.addr ==> Get(r, a) == Get(t, a)
    ensures t.keys <= r.keys && Size(r) <= Size(t) + 1
    ensures c.addr in t.vals ==> r.keys == t.keys
    ensures Inv(t, self) ==> Inv(r, self)
  {
    if c.addr == self then t else Set(t, c.addr, Stamp(c, now))
  }

  /** Saving the same record twice leaves one entry: the second save only
      refreshes the stamp. */
  lemma SaveTwice(t: Table, self: string, c: Client, now: Date, later: Date)
    requires Wf(t)
    ensures var once := Save(t, self, c, now);
            var twice := Save(once, self, c, later);
            twice.keys == once.keys && Size(twice) <= Size(t) + 1
            && (c.addr != self ==> Get(twice, c.addr) == Some(Stamp(c, later)))
  {
  }

  /** The records of one response, saved one after the other, in order. */
  function Merge(t: Table, self: string, cs: seq<Client>, now: Date): (r: Table)
    requires Wf(t)
    ensures Wf(r)
    ensures t.keys <= r.keys
    ensures Inv(t, self) ==> Inv(r, self)
    decreases |cs|
  {
    if cs == [] then t
    else Save(Merge(t, self, cs[..|cs| - 1], now), self, cs[|cs| - 1], now)
  }

  /** The last record in cs with address a. */
  function LastWith(cs: seq<Client>, a: string): (r: Option<Client>)
    ensures r.Some? ==> r.value in cs && r.value.addr == a
    ensures r.Some? ==> exists k :: 0 <= k < |cs| && cs[k] == r.value && forall j :: k < j < |cs| ==> cs[j].addr != a
    ensures r.None? <==> forall c :: c in cs ==> c.addr != a
    decreases |cs|
  {
    if cs == [] then None
    else
      var init := cs[..|cs| - 1];
      assert cs == init + [cs[|cs| - 1]];
      if cs[|cs| - 1].addr == a then Some(cs[|cs| - 1]) else LastWith(init, a)
  }

  /** A merge keeps the own address out, and for every other address the
      last record with it wins; addresses not in the response keep their entry. */
  lemma {:induction false} MergeLastWins(t: Table, self: string, cs: seq<Client>, now: Date, a: string)
    requires Wf(t)
    ensures Get(Merge(t, self, cs, now), self) == Get(t, self)
    ensures a != self ==>
              Get(Merge(t, self, cs, now), a) ==
                (match LastWith(cs, a)
                 case Some(c) => Some(Stamp(c, now))
                 case None => Get(t, a))
  {
    if cs != [] {
      MergeLastWins(t, self, cs[..|cs| - 1], now, a);
    }
  }

  /** What one discover does to the table: merge the peer's own record and
      its peer list on success, evict the contacted address on failure. */
  function Discover(t: Table, self: string, addr: string, reply: Reply): (r: Table)
    requires Wf(t)
    ensures Wf(r)
    ensures Inv(t, self) ==> Inv(r, self)
    ensures reply.Ok? ==> t.keys <= r.keys
    ensures reply.Failed? ==> Get(r, addr) == None
    ensures reply.Failed? ==> forall a :: a != addr ==> Get(r, a) == Get(t, a)
    ensures reply.Failed? ==> Size(r) == if addr in t.vals then Size(t) - 1 else Size(t)
  {
    match reply
    case Ok(data, at) => Merge(t, self, [data.current] + data.clients, at)
    case Failed => Delete(t, addr)
  }

  /** A successful exchange ends as if the peer's own record and then each
      of its peers had been saved; the last record for an address wins. */
  lemma DiscoverMerges(t: Table, self: string, addr: string, data: State, at: Date, a: string)
    requires Wf(t) && a != self
    ensures var r := Discover(t, self, addr, Ok(data, at));
            Get(r, self) == Get(t, self)
            && Get(r, a) == match LastWith([data.current] + data.clients, a)
                            case Some(c) => Some(Stamp(c, at))
                            case None => Get(t, a)
  {
    MergeLastWins(t, self, [data.current] + data.clients, at, a);
  }

  /** Where the contacted key is after a discover of the key at index i: still
      at i (the table only grew), or gone with the gap closed. */
  lemma DiscoverAt(t: Table, self: string, i: nat, reply: Reply)
    requires Inv(t, self) && i < |t.keys|
    ensures var r := Discover(t, self, t.keys[i], reply);
            if reply.Ok? then t.keys <= r.keys && t.keys[i] in r.vals
            else r.keys == t.keys[..i] + t.keys[i + 1..] && t.keys[i] !in r.vals
  {
    assert t.keys[i] in t.keys;
    if reply.Failed? {
      RemoveAt(t.keys, i);
    } else {
      var r := Discover(t, self, t.keys[i], reply);
      assert r.keys[i] == t.keys[i];
    }
  }

  /** A node that knows nobody joins through its bootstrap peer B that knows
      C: afterwards it knows B and then C. */
  lemma JoinThroughBootstrap(self: string, lookup: string, b: Client, c: Client, at: Date)
    requires b.addr != self && c.addr != self && b.addr != c.addr
    ensures var r := Discover(OMap([], map[]), self, lookup, Ok(State(b, [c]), at));
            r.keys == [b.addr, c.addr]
            && Get(r, b.addr) == Some(Stamp(b, at)) && Get(r, c.addr) == Some(Stamp(c, at))
  {
    var empty: Table := OMap([], map[]);
    var cs := [b] + [c];
    assert cs[..1] == [b] && [b][..0] == [];
    var one := Save(empty, self, b, at);
    assert Merge(empty, self, [b], at) == one;
    assert one.keys == [b.addr];
    assert Merge(empty, self, cs, at) == Save(one, self, c, at);
  }

  /** One pass of scan's loop: discover the key at cursor i with the given
      reply, and the cursor after it (past the key if it was kept, unchanged if
      it was evicted). */
  function Visit(t: Table, self: string, i: nat, reply: Reply): (r: (Table, nat))
    requires Wf(t) && i < |t.keys|
    ensures Wf(r.0) && (Inv(t, self) ==> Inv(r.0, self))
    ensures r.0 == Discover(t, self, t.keys[i], reply)
    ensures reply.Ok? ==> t.keys <= r.0.keys && r.1 == i + 1
    ensures reply.Failed? ==> r.0.keys == t.keys[..i] + t.keys[i + 1..] && r.1 == i
    ensures forall a :: a in t.vals && a !in r.0.vals ==> reply.Failed? && a == t.keys[i]
  {
    var next := Discover(t, self, t.keys[i], reply);
    assert t.keys[i] in t.keys;
    if reply.Failed? then
      RemoveAt(t.keys, i);
      (next, i)
    else
      assert next.keys[i] == t.keys[i];
      assert forall a :: a in t.vals ==> a in t.keys;
      (next, i + 1)
  }

  /** scan's for-of loop over the live key list, from cursor i, with the
      used-th reply answering the next request (a request past the end of
      replies fails). It yields the final table, and the requests posted and
      snapshots emitted, one per request, appended to sent and log. */
  function ScanRun(t: Table, current: Client, signature: string, i: nat, replies: seq<Reply>, used: nat,
                   sent: seq<Post>, log: seq<State>): (r: (Table, seq<Post>, seq<State>))
    requires Wf(t)
    ensures Wf(r.0) && (Inv(t, current.addr) ==> Inv(r.0, current.addr))
    ensures sent <= r.1 && log <= r.2
    decreases if used < |replies| then |replies| - used else 0, |t.keys| - i
  {
    if i >= |t.keys| then (t, sent, log)
    else
      var step := Visit(t, current.addr, i, if used < |replies| then replies[used] else Failed);
      ScanRun(step.0, current, signature, step.1, replies, used + 1,
              sent + [Post(t.keys[i], current, signature)], log + [Snapshot(current, step.0)])
  }

  /** Every request of a scan carries the node's own record and signature,
      and each is paired with one snapshot of the node's identity. */
  lemma {:induction false} ScanRunSigned(t: Table, current: Client, signature: string, i: nat,
                                          replies: seq<Reply>, used: nat, sent: seq<Post>, log: seq<State>)
    requires Wf(t)
    ensures var r := ScanRun(t, current, signature, i, replies, used, sent, log);
            && |r.1| - |sent| == |r.2| - |log|
            && (forall p :: |sent| <= p < |r.1| ==> r.1[p].body == current && r.1[p].signature == signature)
            && (forall p :: |log| <= p < |r.2| ==> r.2[p].current == current)
    decreases if used < |replies| then |replies| - used else 0, |t.keys| - i
  {
    if i < |t.keys| {
      var step := Visit(t, current.addr, i, if used < |replies| then replies[used] else Failed);
      var sent', log' := sent + [Post(t.keys[i], current, signature)], log + [Snapshot(current, step.0)];
      ScanRunSigned(step.0, current, signature, step.1, replies, used + 1, sent', log');
      var r := ScanRun(step.0, current, signature, step.1, replies, used + 1, sent', log');
      assert ScanRun(t, current, signature, i, replies, used, sent, log) == r;
      forall p | |sent| <= p < |r.1|
        ensures r.1[p].body == current && r.1[p].signature == signature
      {
        if p == |sent| {
          PrefixAt(sent', r.1, p);
        }
      }
      forall p | |log| <= p < |r.2|
        ensures r.2[p].current == current
      {
        if p == |log| {
          PrefixAt(log', r.2, p);
        }
      }
    }
  }

  /** Every key ks that stands from the cursor on is posted to, in order:
      the |ks| requests after sent go to ks. */
  lemma {:induction false} ScanRunVisitsInOrder(t: Table, current: Client, signature: string, i: nat,
                                                 replies: seq<Reply>, used: nat, sent: seq<Post>, log: seq<State>,
                                                 ks: seq<string>)
    requires Wf(t) && i <= |t.keys| && ks <= t.keys[i..]
    ensures var r := ScanRun(t, current, signature, i, replies, used, sent, log);
            |sent| + |ks| <= |r.1| && forall p :: 0 <= p < |ks| ==> r.1[|sent| + p].peer == ks[p]
    decreases if used < |replies| then |replies| - used else 0, |t.keys| - i
  {
    if i < |t.keys| {
      var reply := if used < |replies| then replies[used] else Failed;
      var step := Visit(t, current.addr, i, reply);
      var post := Post(t.keys[i], current, signature);
      var rest := if ks == [] then [] else ks[1..];
      PrefixTail(ks, t.keys, i);
      if reply.Ok? {
        assert t.keys[i + 1..] <= step.0.keys[i + 1..];
      } else {
        assert step.0.keys[i..] == t.keys[i + 1..];
      }
      var sent', log' := sent + [post], log + [Snapshot(current, step.0)];
      ScanRunVisitsInOrder(step.0, current, signature, step.1, replies, used + 1, sent', log', rest);
      var r := ScanRun(step.0, current, signature, step.1, replies, used + 1, sent', log');
      assert ScanRun(t, current, signature, i, replies, used, sent, log) == r;
      ShiftedPeers(sent, sent', post, ks, rest, r.1);
    } else {
      assert t.keys[i..] == [];
    }
  }

  /** If the requests after sent + [post] go to rest, those after sent go
      to ks = [post.peer] + rest. */
  lemma ShiftedPeers(sent: seq<Post>, sent': seq<Post>, post: Post, ks: seq<string>, rest: seq<string>, out: seq<Post>)
    requires sent' == sent + [post] && sent' <= out && |sent'| + |rest| <= |out|
    requires forall q :: 0 <= q < |rest| ==> out[|sent'| + q].peer == rest[q]
    requires ks != [] ==> ks[0] == post.peer && rest == ks[1..]
    requires ks == [] ==> rest == []
    ensures |sent| + |ks| <= |out| && forall p :: 0 <= p < |ks| ==> out[|sent| + p].peer == ks[p]
  {
    PrefixAt(sent', out, |sent|);
    forall p | 0 <= p < |ks|
      ensures out[|sent| + p].peer == ks[p]
    {
      if p > 0 {
        var q := p - 1;
        assert out[|sent'| + q].peer == rest[q];
        assert |sent'| + q == |sent| + p;
      }
    }
  }

  /** The keys after the first of ks stand after the cursor's next slot. */
  lemma PrefixTail(ks: seq<string>, s: seq<string>, i: nat)
    requires i < |s| && ks <= s[i..]
    ensures ks != [] ==> ks[0] == s[i] && ks[1..] <= s[i + 1..]
  {
    assert s[i + 1..] == s[i..][1..];
  }

  /** A prefix agrees with the sequence at each of its indices. */
  lemma PrefixAt<T>(a: seq<T>, b: seq<T>, k: nat)
    requires a <= b && k < |a|
    ensures b[k] == a[k]
  {
  }

  /** scan evicts only addresses it posted to: each entry gone from the table
      is the peer of one of the requests after sent. */
  lemma {:induction false} ScanRunEvictsOnlyContacted(t: Table, current: Client, signature: string, i: nat,
                                                       replies: seq<Reply>, used: nat, sent: seq<Post>, log: seq<State>)
    requires Wf(t)
    ensures var r := ScanRun(t, current, signature, i, replies, used, sent, log);
            forall a :: a in t.vals && a !in r.0.vals ==> exists p :: |sent| <= p < |r.1| && r.1[p].peer == a
    decreases if used < |replies| then |replies| - used else 0, |t.keys| - i
  {
    if i < |t.keys| {
      var reply := if used < |replies| then replies[used] else Failed;
      var step := Visit(t, current.addr, i, reply);
      var post := Post(t.keys[i], current, signature);
      var sent', log' := sent + [post], log + [Snapshot(current, step.0)];
      ScanRunEvictsOnlyContacted(step.0, current, signature, step.1, replies, used + 1, sent', log');
      var r := ScanRun(step.0, current, signature, step.1, replies, used + 1, sent', log');
      assert ScanRun(t, current, signature, i, replies, used, sent, log) == r;
      PrefixAt(sent', r.1, |sent|);
      forall a | a in t.vals && a !in r.0.vals
        ensures exists p :: |sent| <= p < |r.1| && r.1[p].peer == a
      {
        if a == post.peer {
          assert r.1[|sent|].peer == a;
        } else {
          assert a in step.0.vals;
          var p :| |sent'| <= p < |r.1| && r.1[p].peer == a;
          assert |sent| <= p;
        }
      }
    }
  }

  /** When no peer answers (every reply left is a failure, or none is left),
      scan evicts every key from the cursor on, posting once to each: from
      cursor 0 the table ends up empty. */
  lemma {:induction false} ScanRunUnreachable(t: Table, current: Client, signature: string, i: nat,
                                              replies: seq<Reply>, used: nat, sent: seq<Post>, log: seq<State>)
    requires Wf(t) && i <= |t.keys|
    requires forall p :: used <= p < |replies| ==> replies[p].Failed?
    ensures var r := ScanRun(t, current, signature, i, replies, used, sent, log);
            r.0.keys == t.keys[..i] && |r.1| == |sent| + |t.keys| - i
    decreases |t.keys| - i
  {
    if i < |t.keys| {
      var next := Delete(t, t.keys[i]);
      assert t.keys[i] in t.keys;
      RemoveAt(t.keys, i);
      assert next.keys[..i] == t.keys[..i];
      ScanRunUnreachable(next, current, signature, i, replies, used + 1,
                         sent + [Post(t.keys[i], current, signature)], log + [Snapshot(current, next)]);
    }
  }

  /** check's staleness test, on the minute fields as the source computes it. */
  predicate Stale(c: Client, now: Date)
    ensures Stale(c, now) ==> c.refreshedAt.minutes < 55 && now.minutes >= 5
  {
    now.minutes - c.refreshedAt.minutes >= 5
  }

  /** The test reads minute fields, not elapsed time (times here in ms): a
      record refreshed twelve minutes earlier, across an hour boundary, is not
      stale, and one refreshed four minutes and one second earlier is. */
  lemma MinuteFieldWraps(c: Client)
    ensures !Stale(c.(refreshedAt := Date(58 * 60000, 58)), Date(70 * 60000, 10))
    ensures Stale(c.(refreshedAt := Date(10 * 60000 + 59000, 10)), Date(15 * 60000, 15))
  {
  }

  /** A record stamped in minute 55 or later of an hour is never stale,
      whatever the clock says: the difference of minute fields is at most 4. */
  lemma LateStampNeverStale(c: Client, now: Date)
    requires c.refreshedAt.minutes >= 55
    ensures !Stale(c, now)
  {
  }

  /** One visit of check's loop: delete the entry under a if it is stale. */
  function SweepStep(t: Table, a: string, now: Date): (r: Table)
    requires Wf(t)
    ensures Wf(r)
    ensures Get(r, a) == if a in t.vals && Stale(t.vals[a], now) then None else Get(t, a)
    ensures forall b :: b != a ==> Get(r, b) == Get(t, b)
  {
    if a in t.vals && Stale(t.vals[a], now) then Delete(t, a) else t
  }

  /** check's loop over the keys ks, visited in order. */
  function Sweep(t: Table, ks: seq<string>, now: Date): (r: Table)
    requires Wf(t)
    ensures Wf(r)
    ensures forall a :: a in r.vals ==> a in t.vals && r.vals[a] == t.vals[a]
    decreases |ks|
  {
    if ks == [] then t
    else Sweep(SweepStep(t, ks[0], now), ks[1..], now)
  }

  /** Sweeping over distinct keys deletes exactly the stale entries among them
      and leaves every other entry as it was. */
  lemma {:induction false} SweepRemovesStale(t: Table, ks: seq<string>, now: Date, a: string)
    requires Wf(t) && Distinct(ks)
    ensures Get(Sweep(t, ks, now), a) ==
              if a in ks && a in t.vals && Stale(t.vals[a], now) then None else Get(t, a)
    decreases |ks|
  {
    if ks != [] {
      assert ks == [ks[0]] + ks[1..];
      assert ks[0] !in ks[1..];
      SweepRemovesStale(SweepStep(t, ks[0], now), ks[1..], now, a);
    }
  }

  /** A sweep keeps the table invariants. */
  lemma SweepKeepsInv(t: Table, self: string, ks: seq<string>, now: Date)
    requires Inv(t, self)
    ensures Inv(Sweep(t, ks, now), self)
  {
  }

  /** The snapshot that the `state` getter returns for identity `current`. */
  function Snapshot(current: Client, t: Table): (s: State)
    requires Wf(t)
    ensures s.current == current && |s.clients| == Size(t)
    ensures forall i :: 0 <= i < |s.clients| ==> s.clients[i] == t.vals[t.keys[i]]
    ensures Inv(t, current.addr) ==>
              forall i :: 0 <= i < |s.clients| ==> s.clients[i].addr == t.keys[i] != current.addr
  {
    State(current, Values(t))
  }

  /** The snapshots check emits: one after each deletion, taken once the
      entry is gone. */
  function SweepLog(current: Client, t: Table, ks: seq<string>, now: Date): (r: seq<State>)
    requires Wf(t)
    ensures |r| <= |ks|
    decreases |ks|
  {
    if ks == [] then []
    else
      var k := ks[0];
      (if k in t.vals && Stale(t.vals[k], now) then [Snapshot(current, Delete(t, k))] else [])
        + SweepLog(current, SweepStep(t, k, now), ks[1..], now)
  }

  /** How many of the keys ks name a stale entry of t. */
  function StaleCount(t: Table, ks: seq<string>, now: Date): nat
    decreases |ks|
  {
    if ks == [] then 0
    else (if ks[0] in t.vals && Stale(t.vals[ks[0]], now) then 1 else 0) + StaleCount(t, ks[1..], now)
  }

  /** The count only looks at the entries under the keys counted. */
  lemma {:induction false} StaleCountFrame(t: Table, u: Table, ks: seq<string>, now: Date)
    requires forall a :: a in ks ==> Get(t, a) == Get(u, a)
    ensures StaleCount(t, ks, now) == StaleCount(u, ks, now)
    decreases |ks|
  {
    if ks != [] {
      assert ks[0] in ks && forall a :: a in ks[1..] ==> a in ks;
      StaleCountFrame(t, u, ks[1..], now);
    }
  }

  /** check emits exactly one snapshot per stale entry, each carrying the
      node's own identity. */
  lemma {:induction false} SweepLogCounts(current: Client, t: Table, ks: seq<string>, now: Date)
    requires Wf(t) && Distinct(ks)
    ensures |SweepLog(current, t, ks, now)| == StaleCount(t, ks, now)
    ensures forall j :: 0 <= j < |SweepLog(current, t, ks, now)| ==>
              SweepLog(current, t, ks, now)[j].current == current
    decreases |ks|
  {
    if ks != [] {
      var k, rest := ks[0], ks[1..];
      assert ks == [k] + rest;
      assert k !in rest;
      var next := SweepStep(t, k, now);
      SweepLogCounts(current, next, rest, now);
      StaleCountFrame(next, t, rest, now);
    }
  }
}
