/** The "state" listener list of the event emitter. A listener is identified
    by a number standing for the callback's identity; callbacks are not run. */
module Notifier {

  type Listener = nat

  /** emitter.on: listeners are appended; the same one may be added twice.
      Calling the handle that subscribe returns (an off of the same callback)
      gives back the list from before the on. */
  function On(ls: seq<Listener>, cb: Listener): (r: seq<Listener>)
    ensures |r| == |ls| + 1 && r[..|ls|] == ls && r[|ls|] == cb
    ensures Off(r, cb) == ls
  {
    assert (ls + [cb])[..|ls|] == ls;
    ls + [cb]
  }

  /** emitter.off: removes one registration of cb, the most recently added. */
  function Off(ls: seq<Listener>, cb: Listener): (r: seq<Listener>)
    ensures cb !in ls ==> r == ls
    ensures cb in ls ==> |r| == |ls| - 1
    ensures multiset(r) == multiset(ls) - multiset{cb}
    decreases |ls|
  {
    if ls == [] then []
    else
      var init := ls[..|ls| - 1];
      assert ls == init + [ls[|ls| - 1]];
      if ls[|ls| - 1] == cb then init else Off(init, cb) + [ls[|ls| - 1]]
  }

  /** off removes the last registration of cb and keeps every other
      listener, in order. */
  lemma OffRemovesLast(ls: seq<Listener>, cb: Listener)
    ensures cb in ls ==>
              exists k :: 0 <= k < |ls| && ls[k] == cb && cb !in ls[k + 1..] && Off(ls, cb) == ls[..k] + ls[k + 1..]
  {
    if cb in ls {
      var k := LastIndex(ls, cb);
    }
  }

  /** The index of the registration of cb that off removes: its last one. */
  lemma {:induction false} LastIndex(ls: seq<Listener>, cb: Listener) returns (k: nat)
    requires cb in ls
    ensures k < |ls| && ls[k] == cb && cb !in ls[k + 1..] && Off(ls, cb) == ls[..k] + ls[k + 1..]
    decreases |ls|
  {
    var init, last := ls[..|ls| - 1], ls[|ls| - 1];
    assert ls == init + [last];
    if last == cb {
      OffAtLast(init, cb);
      k := |init|;
    } else {
      assert cb in init;
      k := LastIndex(init, cb);
      OffBeforeLast(init, last, cb, k);
    }
  }

  /** The base of LastIndex: cb is the last listener. */
  lemma OffAtLast(init: seq<Listener>, cb: Listener)
    ensures var ls, k := init + [cb], |init|;
            ls[k] == cb && cb !in ls[k + 1..] && Off(ls, cb) == ls[..k] + ls[k + 1..]
  {
    var ls := init + [cb];
    assert ls[..|init|] == init && ls[|init| + 1..] == [];
  }

  /** The step of LastIndex past a last listener other than cb. */
  lemma OffBeforeLast(init: seq<Listener>, last: Listener, cb: Listener, k: nat)
    requires last != cb && k < |init| && init[k] == cb && cb !in init[k + 1..]
    requires Off(init, cb) == init[..k] + init[k + 1..]
    ensures var ls := init + [last];
            ls[k] == cb && cb !in ls[k + 1..] && Off(ls, cb) == ls[..k] + ls[k + 1..]
  {
    SliceAppend(init, last, k);
    OffKeepsLater(init, cb, last);
    AppendAssoc(init[..k], init[k + 1..], [last]);
  }

  /** Cutting init + [x] around index k of init. */
  lemma SliceAppend(init: seq<Listener>, x: Listener, k: nat)
    requires k < |init|
    ensures var ls := init + [x];
            ls[k] == init[k] && ls[..k] == init[..k] && ls[k + 1..] == init[k + 1..] + [x]
  {
  }

  lemma AppendAssoc<T>(a: seq<T>, b: seq<T>, c: seq<T>)
    ensures (a + b) + c == a + (b + c)
  {
  }

  /** Later registrations are untouched: removing cb from ls + [x], x != cb,
      removes it from ls. */
  lemma {:induction false} OffKeepsLater(ls: seq<Listener>, cb: Listener, x: Listener)
    requires x != cb
    ensures Off(ls + [x], cb) == Off(ls, cb) + [x]
  {
    assert (ls + [x])[..|ls|] == ls;
  }
}
