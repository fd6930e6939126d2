/** One poll cycle of the new-message monitor, as a function of its inputs:
    the cursor `lastCheck`, the registry, the account id, the outcome of the
    conversations fetch, the clock reading taken after the fetch, and which
    handler invocations throw, by their position among the cycle's calls.
    Its result is the ordered list of handler
    invocations made and the cursor afterwards. */
module Poll {
  import opened Events
  import opened Registry

  /** What the awaited conversations fetch produced: a rejection, or a
      payload whose `data` field may be missing. */
  datatype Fetch = Failed | Fetched(data: Option<seq<Message>>)

  /** One call of one handler with one event. */
  datatype Delivery = Delivery(handler: HandlerId, event: Event)

  datatype CycleResult = CycleResult(invoked: seq<Delivery>, cursor: int)

  /** A message is new when its time parsed and is strictly after the cursor. */
  predicate IsNew(m: Message, cursor: int)
  {
    m.createdTime.Some? && m.createdTime.value > cursor
  }

  /** The new messages of a payload, in payload order. */
  function NewMessages(msgs: seq<Message>, cursor: int): (r: seq<Message>)
    ensures |r| <= |msgs|
  {
    if |msgs| == 0 then []
    else (if IsNew(msgs[0], cursor) then [msgs[0]] else []) + NewMessages(msgs[1..], cursor)
  }

  /** The events built for the new messages of a payload, in payload order. */
  function NewEvents(msgs: seq<Message>, cursor: int, account: Id): seq<Event>
  {
    if |msgs| == 0 then []
    else
      (if IsNew(msgs[0], cursor) then [MakeEvent(msgs[0], account)] else [])
      + NewEvents(msgs[1..], cursor, account)
  }

  /** `messageHandlers.forEach(handler => handler(e))` when no handler throws. */
  function Notify(hs: seq<HandlerId>, e: Event): (r: seq<Delivery>)
    ensures |r| == |hs|
    ensures forall j :: 0 <= j < |hs| ==> r[j] == Delivery(hs[j], e)
  {
    if |hs| == 0 then [] else [Delivery(hs[0], e)] + Notify(hs[1..], e)
  }

  /** Each event of `es` in turn, handed to every handler of `hs` in turn. */
  function Fanout(es: seq<Event>, hs: seq<HandlerId>): seq<Delivery>
  {
    if |es| == 0 then [] else Notify(hs, es[0]) + Fanout(es[1..], hs)
  }

  /** Every invocation the loop over the payload makes when no handler throws. */
  function Deliveries(msgs: seq<Message>, cursor: int, account: Id, hs: seq<HandlerId>): seq<Delivery>
  {
    Fanout(NewEvents(msgs, cursor, account), hs)
  }

  /** The position of the first invocation at or after `from` that throws,
      or `|ds|` when none does. Invocation `j` of the cycle is `ds[j]`, and
      `throws(j, ds[j])` says whether it throws: a handler's outcome may
      depend on everything that happened before, in this cycle and earlier
      ones, so it is keyed by the call's position and not by the call alone. */
  function FirstThrow(ds: seq<Delivery>, throws: (nat, Delivery) -> bool, from: nat): (k: nat)
    requires from <= |ds|
    decreases |ds| - from
    ensures from <= k <= |ds|
    ensures forall j :: from <= j < k ==> !throws(j, ds[j])
    ensures k < |ds| ==> throws(k, ds[k])
  {
    if from == |ds| then from
    else if throws(from, ds[from]) then from
    else FirstThrow(ds, throws, from + 1)
  }

  /** The calls `ds`, numbered from `base` among the cycle's calls, all return normally. */
  predicate AllReturn(ds: seq<Delivery>, throws: (nat, Delivery) -> bool, base: nat)
  {
    forall k :: 0 <= k < |ds| ==> !throws(base + k, ds[k])
  }

  /** The body of `checkMessages`. A rejected fetch is caught before the
      cursor is assigned; a payload without `data` delivers nothing and
      advances the cursor; otherwise the invocations run in order until one
      throws, and the cursor advances only if none did. */
  function Cycle(lastCheck: int, hs: seq<HandlerId>, account: Id, fetch: Fetch, now: int,
                 throws: (nat, Delivery) -> bool): CycleResult
  {
    match fetch
    case Failed => CycleResult([], lastCheck)
    case Fetched(None) => CycleResult([], now)
    case Fetched(Some(msgs)) =>
      var all := Deliveries(msgs, lastCheck, account, hs);
      var k := FirstThrow(all, throws, 0);
      if k == |all| then CycleResult(all, now) else CycleResult(all[..k + 1], lastCheck)
  }

  /** The cycle runs to its end: the fetch succeeded and no invocation throws. */
  ghost predicate Completes(lastCheck: int, hs: seq<HandlerId>, account: Id, fetch: Fetch,
                            throws: (nat, Delivery) -> bool)
  {
    fetch.Fetched? &&
    (fetch.data.Some? ==> AllReturn(Deliveries(fetch.data.value, lastCheck, account, hs), throws, 0))
  }

  /** The new messages are exactly the payload's messages strictly after the cursor. */
  lemma {:induction false} NewMessagesMembers(msgs: seq<Message>, cursor: int, m: Message)
    ensures m in NewMessages(msgs, cursor) <==> m in msgs && IsNew(m, cursor)
  {
    if |msgs| > 0 {
      NewMessagesMembers(msgs[1..], cursor, m);
      assert msgs == [msgs[0]] + msgs[1..];
    }
  }

  /** One event per new message. */
  lemma {:induction false} NewEventsLength(msgs: seq<Message>, cursor: int, account: Id)
    ensures |NewEvents(msgs, cursor, account)| == |NewMessages(msgs, cursor)|
  {
    if |msgs| > 0 {
      NewEventsLength(msgs[1..], cursor, account);
    }
  }

  /** The `i`-th event is built from the `i`-th new message. */
  lemma {:induction false} NewEventAt(msgs: seq<Message>, cursor: int, account: Id, i: nat)
    requires i < |NewMessages(msgs, cursor)|
    ensures |NewEvents(msgs, cursor, account)| == |NewMessages(msgs, cursor)|
    ensures IsNew(NewMessages(msgs, cursor)[i], cursor)
    ensures NewEvents(msgs, cursor, account)[i] == MakeEvent(NewMessages(msgs, cursor)[i], account)
  {
    var ms, es := NewMessages(msgs[1..], cursor), NewEvents(msgs[1..], cursor, account);
    var all, evs := NewMessages(msgs, cursor), NewEvents(msgs, cursor, account);
    NewEventsLength(msgs, cursor, account);
    NewEventsLength(msgs[1..], cursor, account);
    if IsNew(msgs[0], cursor) {
      var e := MakeEvent(msgs[0], account);
      assert all == [msgs[0]] + ms && evs == [e] + es;
      if i > 0 {
        NewEventAt(msgs[1..], cursor, account, i - 1);
        assert all[i] == ms[i - 1] && evs[i] == es[i - 1];
      }
    } else {
      assert all == ms && evs == es;
      NewEventAt(msgs[1..], cursor, account, i);
    }
  }

  /** Every event is built from a new message of the payload. */
  lemma {:induction false} NewEventMembers(msgs: seq<Message>, cursor: int, account: Id, e: Event)
    requires e in NewEvents(msgs, cursor, account)
    ensures e.raw in msgs && IsNew(e.raw, cursor) && e == MakeEvent(e.raw, account)
  {
    var es := NewEvents(msgs[1..], cursor, account);
    if e !in es {
      assert IsNew(msgs[0], cursor) && e == MakeEvent(msgs[0], account);
    } else {
      NewEventMembers(msgs[1..], cursor, account, e);
    }
  }

  /** Events of a split payload are the events of its parts. */
  lemma {:induction false} NewEventsConcat(a: seq<Message>, b: seq<Message>, cursor: int, account: Id)
    ensures NewEvents(a + b, cursor, account) == NewEvents(a, cursor, account) + NewEvents(b, cursor, account)
  {
    if |a| == 0 {
      assert a + b == b;
    } else {
      var head := if IsNew(a[0], cursor) then [MakeEvent(a[0], account)] else [];
      var x, y := NewEvents(a[1..], cursor, account), NewEvents(b, cursor, account);
      assert NewEvents(a + b, cursor, account) == head + (x + y) by {
        var c := a + b;
        assert c[0] == a[0] && c[1..] == a[1..] + b;
        NewEventsConcat(a[1..], b, cursor, account);
      }
      assert NewEvents(a, cursor, account) + y == head + (x + y) by {
        assert NewEvents(a, cursor, account) == head + x;
      }
    }
  }

  /** Fan-out of a split event list is the fan-out of its parts. */
  lemma {:induction false} FanoutConcat(a: seq<Event>, b: seq<Event>, hs: seq<HandlerId>)
    ensures Fanout(a + b, hs) == Fanout(a, hs) + Fanout(b, hs)
  {
    if |a| == 0 {
      assert a + b == b;
    } else {
      assert (a + b)[0] == a[0];
      assert (a + b)[1..] == a[1..] + b;
      FanoutConcat(a[1..], b, hs);
    }
  }

  /** Deliveries of a split payload are the deliveries of its parts. */
  lemma DeliveriesConcat(a: seq<Message>, b: seq<Message>, cursor: int, account: Id, hs: seq<HandlerId>)
    ensures Deliveries(a + b, cursor, account, hs)
         == Deliveries(a, cursor, account, hs) + Deliveries(b, cursor, account, hs)
  {
    NewEventsConcat(a, b, cursor, account);
    FanoutConcat(NewEvents(a, cursor, account), NewEvents(b, cursor, account), hs);
  }

  /** The position of row `i` in a table with rows of length `n`: `i * n`,
      computed by repeated addition so that the index proofs stay linear. */
  function RowStart(i: nat, n: nat): nat
  {
    if i == 0 then 0 else RowStart(i - 1, n) + n
  }

  /** Helper: `RowStart` is multiplication. */
  lemma {:induction false} RowStartIsProduct(i: nat, n: nat)
    ensures RowStart(i, n) == i * n
  {
    if i > 0 {
      RowStartIsProduct(i - 1, n);
      assert i * n == (i - 1) * n + n;
    }
  }

  /** Helper: the fan-out has one row of `|hs|` deliveries per event. */
  lemma {:induction false} FanoutCount(es: seq<Event>, hs: seq<HandlerId>)
    ensures |Fanout(es, hs)| == RowStart(|es|, |hs|)
  {
    if |es| > 0 {
      FanoutCount(es[1..], hs);
    }
  }

  /** Helper: delivery `RowStart(i, |hs|) + j` of the fan-out hands event `i` to handler `j`. */
  lemma {:induction false} FanoutAt(es: seq<Event>, hs: seq<HandlerId>, i: nat, j: nat)
    requires i < |es| && j < |hs|
    ensures RowStart(i, |hs|) + j < |Fanout(es, hs)|
    ensures Fanout(es, hs)[RowStart(i, |hs|) + j] == Delivery(hs[j], es[i])
  {
    var n := |hs|;
    var row, rest := Notify(hs, es[0]), Fanout(es[1..], hs);
    assert Fanout(es, hs) == row + rest;
    if i == 0 {
      assert RowStart(i, n) == 0;
      assert (row + rest)[j] == row[j];
    } else {
      FanoutAt(es[1..], hs, i - 1, j);
      var q := RowStart(i - 1, n) + j;
      assert RowStart(i, n) + j == n + q;
      assert es[1..][i - 1] == es[i];
      assert (row + rest)[n + q] == rest[q];
    }
  }

  /** Helper: each delivery of the fan-out hands one of the events to one of the handlers. */
  lemma {:induction false} FanoutMembers(es: seq<Event>, hs: seq<HandlerId>, d: Delivery)
    requires d in Fanout(es, hs)
    ensures d.handler in hs && d.event in es
  {
    var row, rest := Notify(hs, es[0]), Fanout(es[1..], hs);
    if d in row {
      var j :| 0 <= j < |row| && row[j] == d;
    } else {
      FanoutMembers(es[1..], hs, d);
    }
  }

  /** Every new message reaches every handler once: the number of
      deliveries is the number of new messages times the number of handlers. */
  lemma DeliveryCount(msgs: seq<Message>, cursor: int, account: Id, hs: seq<HandlerId>)
    ensures |Deliveries(msgs, cursor, account, hs)| == |NewMessages(msgs, cursor)| * |hs|
  {
    NewEventsLength(msgs, cursor, account);
    FanoutCount(NewEvents(msgs, cursor, account), hs);
    RowStartIsProduct(|NewMessages(msgs, cursor)|, |hs|);
  }

  /** The order of deliveries: message by message in payload order, and
      for each new message the handlers in registry order. Delivery number
      `i * |hs| + j` gives the `i`-th new message's event to handler `j`. */
  lemma DeliveryAt(msgs: seq<Message>, cursor: int, account: Id, hs: seq<HandlerId>, i: nat, j: nat)
    requires i < |NewMessages(msgs, cursor)| && j < |hs|
    ensures IsNew(NewMessages(msgs, cursor)[i], cursor)
    ensures i * |hs| + j < |Deliveries(msgs, cursor, account, hs)|
    ensures Deliveries(msgs, cursor, account, hs)[i * |hs| + j]
         == Delivery(hs[j], MakeEvent(NewMessages(msgs, cursor)[i], account))
  {
    var es := NewEvents(msgs, cursor, account);
    NewEventsLength(msgs, cursor, account);
    NewEventAt(msgs, cursor, account, i);
    FanoutAt(es, hs, i, j);
    RowStartIsProduct(i, |hs|);
    assert Deliveries(msgs, cursor, account, hs) == Fanout(es, hs);
  }

  /** Every delivery goes to a registered handler and carries the event
      built from a new message of the payload. */
  lemma DeliveredAreNew(msgs: seq<Message>, cursor: int, account: Id, hs: seq<HandlerId>, d: Delivery)
    requires d in Deliveries(msgs, cursor, account, hs)
    ensures d.handler in hs && d.event.raw in msgs && IsNew(d.event.raw, cursor)
    ensures d.event == MakeEvent(d.event.raw, account)
  {
    FanoutMembers(NewEvents(msgs, cursor, account), hs, d);
    NewEventMembers(msgs, cursor, account, d.event);
  }

  /** A cycle calls handlers only for messages strictly newer than the
      cursor, and each event carries the message's time, its text (or the
      empty string), the classified sender and the message itself. A
      message at or before the cursor, or whose time did not parse, reaches
      no handler. */
  lemma CycleDeliversOnlyNewMessages(lastCheck: int, hs: seq<HandlerId>, account: Id, fetch: Fetch,
                                     now: int, throws: (nat, Delivery) -> bool)
    ensures forall d :: d in Cycle(lastCheck, hs, account, fetch, now, throws).invoked ==>
              && fetch.Fetched? && fetch.data.Some?
              && d.handler in hs
              && d.event.raw in fetch.data.value
              && d.event.raw.createdTime == Some(d.event.time)
              && d.event.time > lastCheck
              && d.event.text == TextOf(d.event.raw)
              && d.event.sender == Classify(d.event.raw.fromId, account)
  {
    var r := Cycle(lastCheck, hs, account, fetch, now, throws);
    forall d | d in r.invoked
      ensures fetch.Fetched? && fetch.data.Some? && d.handler in hs && d.event.raw in fetch.data.value
      ensures d.event.raw.createdTime == Some(d.event.time) && d.event.time > lastCheck
      ensures d.event.text == TextOf(d.event.raw)
      ensures d.event.sender == Classify(d.event.raw.fromId, account)
    {
      var msgs := fetch.data.value;
      var all := Deliveries(msgs, lastCheck, account, hs);
      assert d in all;
      DeliveredAreNew(msgs, lastCheck, account, hs, d);
    }
  }

  /** A cycle that runs to its end makes every delivery, in order, and
      moves the cursor to the clock reading taken after the fetch. */
  lemma CompletedCycleDeliversAll(lastCheck: int, hs: seq<HandlerId>, account: Id, msgs: seq<Message>,
                                  now: int, throws: (nat, Delivery) -> bool)
    requires AllReturn(Deliveries(msgs, lastCheck, account, hs), throws, 0)
    ensures Cycle(lastCheck, hs, account, Fetched(Some(msgs)), now, throws)
         == CycleResult(Deliveries(msgs, lastCheck, account, hs), now)
    ensures |Cycle(lastCheck, hs, account, Fetched(Some(msgs)), now, throws).invoked|
         == |NewMessages(msgs, lastCheck)| * |hs|
  {
    var all := Deliveries(msgs, lastCheck, account, hs);
    DeliveryCount(msgs, lastCheck, account, hs);
  }

  /** A handler that throws ends the cycle: the invocations before it all
      returned, it was the last one made, the rest are skipped, and the
      cursor keeps its previous value. */
  lemma ThrowingHandlerAbortsCycle(lastCheck: int, hs: seq<HandlerId>, account: Id, msgs: seq<Message>,
                                   now: int, throws: (nat, Delivery) -> bool, bad: nat)
    requires var all := Deliveries(msgs, lastCheck, account, hs);
             bad < |all| && throws(bad, all[bad])
    ensures var r := Cycle(lastCheck, hs, account, Fetched(Some(msgs)), now, throws);
            var all := Deliveries(msgs, lastCheck, account, hs);
            && r.cursor == lastCheck
            && 0 < |r.invoked| <= bad + 1
            && r.invoked == all[..|r.invoked|]
            && throws(|r.invoked| - 1, r.invoked[|r.invoked| - 1])
            && forall j :: 0 <= j < |r.invoked| - 1 ==> !throws(j, r.invoked[j])
  {
    var all := Deliveries(msgs, lastCheck, account, hs);
    var k := FirstThrow(all, throws, 0);
    assert k <= bad;
  }

  /** The cycle's result when its calls stop at the first throwing one:
      the calls are the shortest prefix of the deliveries that ends in a throw. */
  lemma AbortedCycleResult(lastCheck: int, hs: seq<HandlerId>, account: Id, msgs: seq<Message>,
                           now: int, throws: (nat, Delivery) -> bool, made: seq<Delivery>)
    requires 0 < |made| <= |Deliveries(msgs, lastCheck, account, hs)|
    requires made == Deliveries(msgs, lastCheck, account, hs)[..|made|]
    requires forall k :: 0 <= k < |made| - 1 ==> !throws(k, made[k])
    requires throws(|made| - 1, made[|made| - 1])
    ensures Cycle(lastCheck, hs, account, Fetched(Some(msgs)), now, throws) == CycleResult(made, lastCheck)
  {
    var all := Deliveries(msgs, lastCheck, account, hs);
    var t := FirstThrow(all, throws, 0);
    assert all[|made| - 1] == made[|made| - 1];
    assert t == |made| - 1;
  }

  /** The cursor moves to the clock reading exactly when the cycle runs to
      its end; a rejected fetch or a throwing handler leaves it where it was.
      A payload without `data` delivers nothing and still moves it. */
  lemma CycleCursorRule(lastCheck: int, hs: seq<HandlerId>, account: Id, fetch: Fetch,
                        now: int, throws: (nat, Delivery) -> bool)
    ensures Cycle(lastCheck, hs, account, fetch, now, throws).cursor
         == if Completes(lastCheck, hs, account, fetch, throws) then now else lastCheck
    ensures fetch == Failed ==> Cycle(lastCheck, hs, account, fetch, now, throws) == CycleResult([], lastCheck)
    ensures fetch == Fetched(None) ==> Cycle(lastCheck, hs, account, fetch, now, throws) == CycleResult([], now)
  {
    if fetch.Fetched? && fetch.data.Some? {
      var all := Deliveries(fetch.data.value, lastCheck, account, hs);
      var k := FirstThrow(all, throws, 0);
    }
  }

  /** An aborted cycle does not move the cursor, so the next cycle that
      fetches the same payload and runs to its end repeats every invocation
      the aborted one made, from the first handler of the first new message. */
  lemma AbortedCycleIsRedelivered(lastCheck: int, hs: seq<HandlerId>, account: Id, msgs: seq<Message>,
                                  now1: int, throws1: (nat, Delivery) -> bool, bad: nat,
                                  now2: int, throws2: (nat, Delivery) -> bool)
    requires var all := Deliveries(msgs, lastCheck, account, hs);
             bad < |all| && throws1(bad, all[bad])
    requires AllReturn(Deliveries(msgs, lastCheck, account, hs), throws2, 0)
    ensures var r1 := Cycle(lastCheck, hs, account, Fetched(Some(msgs)), now1, throws1);
            var r2 := Cycle(r1.cursor, hs, account, Fetched(Some(msgs)), now2, throws2);
            && r2.cursor == now2
            && |r1.invoked| <= |r2.invoked|
            && r2.invoked[..|r1.invoked|] == r1.invoked
  {
    ThrowingHandlerAbortsCycle(lastCheck, hs, account, msgs, now1, throws1, bad);
    CompletedCycleDeliversAll(lastCheck, hs, account, msgs, now2, throws2);
  }

  /** A handler may react to what it has seen before: one that returns on
      its first call and throws on its second, given the same record twice,
      is called twice and leaves the cursor where it was. */
  lemma HandlerThrowingOnSecondCall(m: Message, h: HandlerId, account: Id, cursor: int, now: int,
                                    throws: (nat, Delivery) -> bool)
    requires IsNew(m, cursor)
    requires !throws(0, Delivery(h, MakeEvent(m, account)))
    requires throws(1, Delivery(h, MakeEvent(m, account)))
    ensures var d := Delivery(h, MakeEvent(m, account));
            Cycle(cursor, [h], account, Fetched(Some([m, m])), now, throws) == CycleResult([d, d], cursor)
  {
    var d := Delivery(h, MakeEvent(m, account));
    var all := Deliveries([m, m], cursor, account, [h]);
    assert all == [d, d] by {
      DeliveriesConcat([m], [m], cursor, account, [h]);
      assert [m] + [m] == [m, m];
      assert NewEvents([m], cursor, account) == [MakeEvent(m, account)];
      assert Deliveries([m], cursor, account, [h]) == [d];
    }
    assert FirstThrow(all, throws, 0) == 1;
    assert all[..2] == all;
  }

  /** One timer tick: the registry at that moment, what the fetch produced,
      the clock reading after it, and which invocations throw. */
  datatype Tick = Tick(handlers: seq<HandlerId>, fetch: Fetch, now: int, throws: (nat, Delivery) -> bool)

  /** The cursor after each tick of a monitor started at `start`. */
  function Cursors(start: int, account: Id, ticks: seq<Tick>): (r: seq<int>)
    ensures |r| == |ticks|
    decreases |ticks|
  {
    if |ticks| == 0 then []
    else
      var t := ticks[0];
      var c := Cycle(start, t.handlers, account, t.fetch, t.now, t.throws).cursor;
      [c] + Cursors(c, account, ticks[1..])
  }

  /** The clock never runs backwards and never reads before the start. */
  predicate ClockMonotone(start: int, ticks: seq<Tick>)
  {
    && (forall i :: 0 <= i < |ticks| ==> start <= ticks[i].now)
    && (forall i, j :: 0 <= i < j < |ticks| ==> ticks[i].now <= ticks[j].now)
  }

  /** With a clock that does not run backwards, the cursor never decreases
      and never passes the latest clock reading. */
  lemma {:induction false} CursorNeverDecreases(start: int, account: Id, ticks: seq<Tick>)
    requires ClockMonotone(start, ticks)
    decreases |ticks|
    ensures forall i :: 0 <= i < |ticks| ==> start <= Cursors(start, account, ticks)[i] <= ticks[i].now
    ensures forall i, j :: 0 <= i < j < |ticks| ==>
              Cursors(start, account, ticks)[i] <= Cursors(start, account, ticks)[j]
  {
    if |ticks| > 0 {
      var t := ticks[0];
      var c := Cycle(start, t.handlers, account, t.fetch, t.now, t.throws).cursor;
      var rest := ticks[1..];
      assert c == start || c == t.now;
      assert ClockMonotone(c, rest) by {
        forall i | 0 <= i < |rest| ensures c <= rest[i].now {
          assert rest[i] == ticks[i + 1];
        }
        forall i, j | 0 <= i < j < |rest| ensures rest[i].now <= rest[j].now {
          assert rest[i] == ticks[i + 1] && rest[j] == ticks[j + 1];
        }
      }
      CursorNeverDecreases(c, account, rest);
      var cs := Cursors(start, account, ticks);
      assert cs == [c] + Cursors(c, account, rest);
      forall i | 0 <= i < |ticks| ensures start <= cs[i] <= ticks[i].now {
        if i > 0 {
          assert ticks[i] == rest[i - 1];
        }
      }
    }
  }
}
