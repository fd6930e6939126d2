/** The stateful part of `InstagramBusinessMessenger`: the handler registry
    that `onNewMessage` and its unsubscribe closures change in place, and the
    monitor started by `startMonitoring`, whose `checkMessages` closure loops
    over the fetched messages and reassigns its cursor `lastCheck`. */
module Messenger {
  import opened Registry
  import opened Events
  import opened Poll

  class InstagramBusinessMessenger {
    const accessToken: string
    const accountId: Id
    /** `messageHandlers`, in `Set` iteration order. */
    var handlers: seq<HandlerId>

    ghost predicate Valid()
      reads this
    {
      Distinct(handlers)
    }

    /** A new messenger starts with no handlers. */
    constructor (accessToken: string, accountId: Id)
      ensures Valid()
      ensures this.accessToken == accessToken && this.accountId == accountId
      ensures handlers == []
    {
      this.accessToken := accessToken;
      this.accountId := accountId;
      handlers := [];
    }

    /** `onNewMessage`: adds the handler (a handler already present stays
        where it is) and returns the function that removes it again. */
    method OnNewMessage(handler: HandlerId) returns (unsubscribe: Unsubscriber)
      requires Valid()
      modifies this
      ensures Valid()
      ensures handlers == Added(old(handlers), handler)
      ensures fresh(unsubscribe) && unsubscribe.owner == this && unsubscribe.handler == handler
    {
      if handler !in handlers {
        handlers := handlers + [handler];
      }
      unsubscribe := new Unsubscriber(this, handler);
    }

    /** `startMonitoring` without the timer: a fresh monitor whose cursor is
        the clock reading at the start. */
    method StartMonitoring(start: int) returns (monitor: Monitor)
      ensures fresh(monitor) && monitor.owner == this && monitor.lastCheck == start
    {
      monitor := new Monitor(this, start);
    }
  }

  /** The closure `() => this.messageHandlers.delete(handler)`. */
  class Unsubscriber {
    const owner: InstagramBusinessMessenger
    const handler: HandlerId

    constructor (owner: InstagramBusinessMessenger, handler: HandlerId)
      ensures this.owner == owner && this.handler == handler
    {
      this.owner := owner;
      this.handler := handler;
    }

    /** Removes the handler, leaving the other handlers in their order, and
        returns what `Set.prototype.delete` returns: whether it was there. */
    method Call() returns (removed: bool)
      requires owner.Valid()
      modifies owner
      ensures owner.Valid()
      ensures owner.handlers == Removed(old(owner.handlers), handler)
      ensures removed == (handler in old(owner.handlers))
    {
      removed := handler in owner.handlers;
      owner.handlers := Removed(owner.handlers, handler);
    }
  }

  /** One monitoring loop: the cursor that `startMonitoring` keeps in the
      closure it hands to the timer. */
  class Monitor {
    const owner: InstagramBusinessMessenger
    var lastCheck: int

    constructor (owner: InstagramBusinessMessenger, start: int)
      ensures this.owner == owner && lastCheck == start
    {
      this.owner := owner;
      lastCheck := start;
    }

    /** `checkMessages`, given what the fetch produced, the clock reading
        after it, and which handler calls throw (by their position among the
        cycle's calls): returns the handler calls
        it makes, in order, and sets the cursor as the one-cycle model says. */
    method CheckMessages(fetch: Fetch, now: int, throws: (nat, Delivery) -> bool) returns (invoked: seq<Delivery>)
      modifies this
      ensures invoked == Cycle(old(lastCheck), owner.handlers, owner.accountId, fetch, now, throws).invoked
      ensures lastCheck == Cycle(old(lastCheck), owner.handlers, owner.accountId, fetch, now, throws).cursor
    {
      invoked := [];
      if fetch.Failed? {
        return;
      }
      if fetch.data.None? {
        lastCheck := now;
        return;
      }
      var completed;
      invoked, completed := DeliverAll(fetch.data.value, owner.handlers, owner.accountId, lastCheck, now, throws);
      if completed {
        lastCheck := now;
      }
    }
  }

  /** The `for` loop over the payload's messages: hands each message newer
      than `cursor` to every handler and stops at the first handler that
      throws. `completed` says whether the loop ran to its end, which is
      when `checkMessages` goes on to assign the cursor. */
  method DeliverAll(msgs: seq<Message>, hs: seq<HandlerId>, account: Id, cursor: int, now: int,
                    throws: (nat, Delivery) -> bool)
    returns (invoked: seq<Delivery>, completed: bool)
    ensures Cycle(cursor, hs, account, Fetched(Some(msgs)), now, throws)
         == CycleResult(invoked, if completed then now else cursor)
  {
    invoked := [];
    for i := 0 to |msgs|
      invariant invoked == Deliveries(msgs[..i], cursor, account, hs)
      invariant AllReturn(invoked, throws, 0)
    {
      var ok;
      invoked, ok := DeliverMessage(msgs, i, cursor, account, hs, now, throws, invoked);
      if !ok {
        completed := false;
        return;
      }
    }
    assert msgs[..|msgs|] == msgs;
    CompletedCycleDeliversAll(cursor, hs, account, msgs, now, throws);
    completed := true;
  }

  /** One round of the `for` loop: message `i`, when it is newer than the
      cursor, goes to every handler after the calls `before` of the earlier
      messages. When a handler throws (`ok` is false) the calls made so far
      are those of the aborted cycle. */
  method DeliverMessage(msgs: seq<Message>, i: nat, cursor: int, account: Id, hs: seq<HandlerId>,
                        now: int, throws: (nat, Delivery) -> bool, before: seq<Delivery>)
    returns (after: seq<Delivery>, ok: bool)
    requires i < |msgs|
    requires before == Deliveries(msgs[..i], cursor, account, hs) && AllReturn(before, throws, 0)
    ensures ok ==> after == Deliveries(msgs[..i + 1], cursor, account, hs) && AllReturn(after, throws, 0)
    ensures !ok ==> Cycle(cursor, hs, account, Fetched(Some(msgs)), now, throws) == CycleResult(after, cursor)
  {
    var m := msgs[i];
    if IsNew(m, cursor) {
      var e := MakeEvent(m, account);
      var made;
      made, ok := NotifyAll(hs, e, throws, |before|);
      if !ok {
        StopsAtThrow(msgs, i, cursor, account, hs, e, now, throws, before, made);
      } else {
        RowReturned(msgs, i, cursor, account, hs, throws, before, made);
      }
      after := before + made;
    } else {
      DeliveriesStep(msgs, i, cursor, account, hs);
      after, ok := before, true;
    }
  }

  /** Helper: a new message whose handlers all returned extends the calls
      made so far by its whole row of the fan-out. */
  lemma RowReturned(msgs: seq<Message>, i: nat, cursor: int, account: Id, hs: seq<HandlerId>,
                    throws: (nat, Delivery) -> bool, before: seq<Delivery>, made: seq<Delivery>)
    requires i < |msgs| && IsNew(msgs[i], cursor)
    requires before == Deliveries(msgs[..i], cursor, account, hs) && AllReturn(before, throws, 0)
    requires made == Notify(hs, MakeEvent(msgs[i], account)) && AllReturn(made, throws, |before|)
    ensures before + made == Deliveries(msgs[..i + 1], cursor, account, hs)
    ensures AllReturn(before + made, throws, 0)
  {
    NoThrowsConcat(before, made, throws, 0, |before|);
    DeliveriesStep(msgs, i, cursor, account, hs);
  }

  /** The calls `made` of a `forEach` over `hs` with event `e`, numbered
      from `base`, stopped at a throw: they are the first calls of the full
      fan-out, the last of them threw and all before it returned. */
  predicate StoppedAt(hs: seq<HandlerId>, e: Event, made: seq<Delivery>,
                      throws: (nat, Delivery) -> bool, base: nat)
  {
    && 0 < |made| <= |hs| && made == Notify(hs, e)[..|made|]
    && throws(base + |made| - 1, made[|made| - 1])
    && AllReturn(made[..|made| - 1], throws, base)
  }

  /** `messageHandlers.forEach(handler => handler(e))`, its first call being
      call number `base` of the cycle: calls the handlers in registry order
      and stops at the first that throws (`ok` is false then). Either every
      handler was called and returned, or the calls stopped at a throw. */
  method NotifyAll(hs: seq<HandlerId>, e: Event, throws: (nat, Delivery) -> bool, base: nat)
    returns (made: seq<Delivery>, ok: bool)
    ensures ok ==> made == Notify(hs, e) && AllReturn(made, throws, base)
    ensures !ok ==> StoppedAt(hs, e, made, throws, base)
  {
    made := [];
    for j := 0 to |hs|
      invariant made == Notify(hs[..j], e) && AllReturn(made, throws, base)
    {
      var d := Delivery(hs[j], e);
      if throws(base + j, d) {
        StopsAtHandler(hs, e, j, made, throws, base);
        made := made + [d];
        ok := false;
        return;
      }
      HandlerReturns(hs, e, j, made, throws, base);
      made := made + [d];
    }
    assert hs[..|hs|] == hs;
    ok := true;
  }

  /** Helper: when handler `j` throws, the calls made stop there. */
  lemma StopsAtHandler(hs: seq<HandlerId>, e: Event, j: nat, returned: seq<Delivery>,
                       throws: (nat, Delivery) -> bool, base: nat)
    requires j < |hs| && returned == Notify(hs[..j], e) && AllReturn(returned, throws, base)
    requires throws(base + j, Delivery(hs[j], e))
    ensures StoppedAt(hs, e, returned + [Delivery(hs[j], e)], throws, base)
  {
    var d := Delivery(hs[j], e);
    var made := returned + [d];
    assert made == Notify(hs, e)[..|made|] by {
      NotifyStep(hs, j, e);
      NotifyPrefix(hs, j + 1, e);
    }
    assert |made| - 1 == j && made[j] == d;
    assert made[..j] == returned;
  }

  /** Helper: when handler `j` returns, the calls made so far are the fan-out
      to the first `j + 1` handlers, and all of them returned. */
  lemma HandlerReturns(hs: seq<HandlerId>, e: Event, j: nat, returned: seq<Delivery>,
                       throws: (nat, Delivery) -> bool, base: nat)
    requires j < |hs| && returned == Notify(hs[..j], e) && AllReturn(returned, throws, base)
    requires !throws(base + j, Delivery(hs[j], e))
    ensures returned + [Delivery(hs[j], e)] == Notify(hs[..j + 1], e)
    ensures AllReturn(returned + [Delivery(hs[j], e)], throws, base)
  {
    NotifyStep(hs, j, e);
    assert AllReturn([Delivery(hs[j], e)], throws, base + |returned|);
    NoThrowsConcat(returned, [Delivery(hs[j], e)], throws, base, base + |returned|);
  }

  /** Helper: the fan-out to the first `j` handlers begins the full fan-out. */
  lemma NotifyPrefix(hs: seq<HandlerId>, j: nat, e: Event)
    requires j <= |hs|
    ensures Notify(hs[..j], e) == Notify(hs, e)[..j]
  {
    var a, b := Notify(hs[..j], e), Notify(hs, e)[..j];
    assert |a| == |b|;
    forall k | 0 <= k < |a| ensures a[k] == b[k] {
      assert hs[..j][k] == hs[k];
    }
  }

  /** Helper: the deliveries of one more message. */
  lemma DeliveriesStep(msgs: seq<Message>, i: nat, cursor: int, account: Id, hs: seq<HandlerId>)
    requires i < |msgs|
    ensures Deliveries(msgs[..i + 1], cursor, account, hs)
         == Deliveries(msgs[..i], cursor, account, hs)
            + (if IsNew(msgs[i], cursor) then Notify(hs, MakeEvent(msgs[i], account)) else [])
  {
    assert msgs[..i + 1] == msgs[..i] + [msgs[i]];
    DeliveriesConcat(msgs[..i], [msgs[i]], cursor, account, hs);
    assert [msgs[i]][1..] == [];
    if IsNew(msgs[i], cursor) {
      var e := MakeEvent(msgs[i], account);
      assert NewEvents([msgs[i]], cursor, account) == [e];
      assert Fanout([e], hs) == Notify(hs, e) + Fanout([], hs);
    } else {
      assert NewEvents([msgs[i]], cursor, account) == [];
    }
  }

  /** Helper: one more handler of the fan-out. */
  lemma NotifyStep(hs: seq<HandlerId>, j: nat, e: Event)
    requires j < |hs|
    ensures Notify(hs[..j + 1], e) == Notify(hs[..j], e) + [Delivery(hs[j], e)]
  {
    var a, b := Notify(hs[..j + 1], e), Notify(hs[..j], e) + [Delivery(hs[j], e)];
    assert |a| == |b|;
    forall k | 0 <= k < |a| ensures a[k] == b[k] {
      assert hs[..j + 1][k] == hs[k];
    }
  }

  /** Helper: the calls made up to the first throwing one are exactly what
      the one-cycle model says an aborted cycle makes. */
  lemma StopsAtThrow(msgs: seq<Message>, i: nat, cursor: int, account: Id, hs: seq<HandlerId>,
                     e: Event, now: int, throws: (nat, Delivery) -> bool, before: seq<Delivery>, made: seq<Delivery>)
    requires i < |msgs| && IsNew(msgs[i], cursor) && e == MakeEvent(msgs[i], account)
    requires before == Deliveries(msgs[..i], cursor, account, hs)
    requires AllReturn(before, throws, 0)
    requires StoppedAt(hs, e, made, throws, |before|)
    ensures Cycle(cursor, hs, account, Fetched(Some(msgs)), now, throws) == CycleResult(before + made, cursor)
  {
    var row := Notify(hs, e);
    SplitAt(msgs, i, cursor, account, hs);
    PrefixUpToThrow(before, row, Deliveries(msgs[i + 1..], cursor, account, hs), made, throws);
    AbortedCycleResult(cursor, hs, account, msgs, now, throws, before + made);
  }

  /** Helper: the deliveries of a whole payload split around a new message. */
  lemma SplitAt(msgs: seq<Message>, i: nat, cursor: int, account: Id, hs: seq<HandlerId>)
    requires i < |msgs| && IsNew(msgs[i], cursor)
    ensures Deliveries(msgs, cursor, account, hs)
         == Deliveries(msgs[..i], cursor, account, hs) + Notify(hs, MakeEvent(msgs[i], account))
            + Deliveries(msgs[i + 1..], cursor, account, hs)
  {
    assert msgs == msgs[..i + 1] + msgs[i + 1..];
    DeliveriesConcat(msgs[..i + 1], msgs[i + 1..], cursor, account, hs);
    DeliveriesStep(msgs, i, cursor, account, hs);
  }

  /** Helper: calls that run through a throw-free first part and stop at the
      first throw inside the middle part are a prefix of the whole sequence
      of calls, with the throw last. */
  lemma PrefixUpToThrow(a: seq<Delivery>, b: seq<Delivery>, c: seq<Delivery>, p: seq<Delivery>,
                        throws: (nat, Delivery) -> bool)
    requires AllReturn(a, throws, 0)
    requires 0 < |p| <= |b| && p == b[..|p|]
    requires AllReturn(p[..|p| - 1], throws, |a|)
    requires throws(|a| + |p| - 1, p[|p| - 1])
    ensures 0 < |a + p| <= |a + b + c| && a + p == (a + b + c)[..|a + p|]
    ensures forall k :: 0 <= k < |a + p| - 1 ==> !throws(k, (a + p)[k])
    ensures throws(|a + p| - 1, (a + p)[|a + p| - 1])
  {
    var w := a + b + c;
    forall k | 0 <= k < |a + p| ensures (a + p)[k] == w[k] {
      if k >= |a| {
        assert (a + p)[k] == p[k - |a|] == b[k - |a|];
      }
    }
    forall k | 0 <= k < |a + p| - 1 ensures !throws(k, (a + p)[k]) {
      if k >= |a| {
        assert (a + p)[k] == p[..|p| - 1][k - |a|];
      }
    }
  }

  /** Helper: calls that each returned, followed by more calls that each
      returned, all returned. */
  lemma NoThrowsConcat(a: seq<Delivery>, b: seq<Delivery>, throws: (nat, Delivery) -> bool, base: nat, mid: nat)
    requires mid == base + |a|
    requires AllReturn(a, throws, base) && AllReturn(b, throws, mid)
    ensures AllReturn(a + b, throws, base)
  {
    forall k | 0 <= k < |a + b| ensures !throws(base + k, (a + b)[k]) {
      if k >= |a| {
        assert (a + b)[k] == b[k - |a|];
      }
    }
  }

  /** A handler subscribed and then unsubscribed twice: the first call
      removes it, the second finds nothing to remove and changes nothing. */
  method SubscribeThenUnsubscribeTwice(messenger: InstagramBusinessMessenger, handler: HandlerId)
    returns (first: bool, second: bool)
    requires messenger.Valid() && handler !in messenger.handlers
    modifies messenger
    ensures messenger.Valid() && messenger.handlers == old(messenger.handlers)
    ensures first && !second
  {
    var unsubscribe := messenger.OnNewMessage(handler);
    first := unsubscribe.Call();
    RemovedUndoesAdded(old(messenger.handlers), handler);
    second := unsubscribe.Call();
  }
}
