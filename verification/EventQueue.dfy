// The kernel event queue of src/kernel/eventQueue.cpp: registrations keyed by (ident, filter), triggers
// that overwrite, accumulate or queue, and a collection loop that drains what is triggered.
module EventQueue {
  const EV_ADD := 0x01
  const EV_ONESHOT := 0x10
  const EV_CLEAR := 0x20

  const OK := 0
  const KERNEL_ERROR_ENOENT := -2147352574
  const KERNEL_ERROR_EBADF := -2147352567

  datatype Key = Key(ident: nat, filter: int)

  datatype KernelEvent = KernelEvent(key: Key, flags: nat, fflags: nat, data: int, udata: int) {
    predicate OneShot() { flags / EV_ONESHOT % 2 == 1 }

    predicate Clears() { flags / EV_CLEAR % 2 == 1 }
  }

  /** The trigger and reset functions a registration may carry. */
  datatype TriggerFunc = NoTrigger | UserTrigger | AmprTrigger | GraphicsTrigger | VideoOutTrigger
  datatype ResetFunc = NoReset | UserReset | AlwaysReset

  datatype EqueueEvent = EqueueEvent(triggered: bool, deadlineNs: nat, event: KernelEvent,
                                     trigger: TriggerFunc, reset: ResetFunc, pending: seq<KernelEvent>)

  // ----- what one call does to one registration -----

  /** The data of a video-out event: that of the trigger, which has the time in its lowest twelve bits and a
      payload from bit 16 on, with a counter between them that stops at 15. */
  function VideoOutData(current: int, data: int): int {
    var counter := current / 4096 % 16;
    data / 65536 * 65536 + (if counter < 15 then counter + 1 else counter) * 4096 + data % 4096
  }

  /** The event that a trigger makes of the registered one. */
  function Next(trigger: TriggerFunc, event: KernelEvent, data: int): KernelEvent {
    match trigger
    case GraphicsTrigger => event.(fflags := (event.fflags + 1) % 0x1_0000_0000, data := data)
    case VideoOutTrigger =>
      event.(fflags := if event.fflags < 15 then event.fflags + 1 else event.fflags, data := VideoOutData(event.data, data))
    case _ => event.(data := data)
  }

  function Fired(e: EqueueEvent, data: int): EqueueEvent {
    match e.trigger
    case NoTrigger => e.(triggered := true)
    case UserTrigger => e.(triggered := true, event := e.event.(data := data, udata := data))
    case _ =>
      var next := Next(e.trigger, e.event, data);
      if e.triggered then e.(pending := e.pending + [next]) else e.(triggered := true, event := next)
  }

  function Retagged(p: seq<KernelEvent>, udata: int): seq<KernelEvent> {
    seq(|p|, i requires 0 <= i < |p| => p[i].(udata := udata))
  }

  function Refreshed(e: EqueueEvent, again: EqueueEvent): EqueueEvent {
    e.(deadlineNs := again.deadlineNs, event := e.event.(udata := again.event.udata), pending := Retagged(e.pending, again.event.udata))
  }

  function Expired(e: EqueueEvent, now: nat): EqueueEvent {
    if !e.triggered && e.deadlineNs != 0 && e.deadlineNs <= now then e.(triggered := true) else e
  }

  /** Delivering this event of the registration takes its trigger back. */
  predicate Resets(reset: ResetFunc, event: KernelEvent) {
    reset == AlwaysReset || event.Clears()
  }

  function Untriggered(e: EqueueEvent): EqueueEvent {
    e.(triggered := false, event := e.event.(fflags := 0, data := 0))
  }

  /** After one delivery that did not consume the registration. */
  function Advanced(e: EqueueEvent): EqueueEvent {
    var r := if Resets(e.reset, e.event) then Untriggered(e) else e;
    if e.pending == [] then r else r.(event := e.pending[0], pending := e.pending[1..], triggered := true)
  }

  datatype Served = Served(out: seq<KernelEvent>, left: seq<EqueueEvent>)

  /** Collecting from one registration with room for `room` more events. */
  function Serve(e: EqueueEvent, room: nat): Served
    decreases room
  {
    if !e.triggered || room == 0 then Served([], [e])
    else if e.event.OneShot() then Served([e.event], [])
    else
      var s := Serve(Advanced(e), room - 1);
      Served([e.event] + s.out, s.left)
  }

  /** Collecting from a list of registrations. */
  function ServeAll(events: seq<EqueueEvent>, room: nat): Served {
    if events == [] || room == 0 then Served([], events)
    else
      var s := Serve(events[0], room);
      ServeFits(events[0], room);
      var t := ServeAll(events[1..], room - |s.out|);
      Served(s.out + t.out, s.left + t.left)
  }

  lemma {:induction false} ServeFits(e: EqueueEvent, room: nat)
    ensures |Serve(e, room).out| <= room && |Serve(e, room).left| <= 1
    decreases room
  {
    if e.triggered && room > 0 && !e.event.OneShot() { ServeFits(Advanced(e), room - 1); }
  }

  function Find(events: seq<EqueueEvent>, key: Key): (i: nat)
    ensures i <= |events| && (i < |events| ==> events[i].event.key == key)
    ensures forall j :: 0 <= j < i ==> events[j].event.key != key
  {
    if events == [] then 0 else if events[0].event.key == key then 0 else 1 + Find(events[1..], key)
  }

  /** The list without place i; the whole list if there is no such place. */
  function Without(events: seq<EqueueEvent>, i: nat): seq<EqueueEvent> {
    if i < |events| then events[..i] + events[i + 1..] else events
  }

  function ExpiredAll(events: seq<EqueueEvent>, now: nat): seq<EqueueEvent> {
    seq(|events|, i requires 0 <= i < |events| => Expired(events[i], now))
  }

  // ----- the queue -----

  datatype Queue = Queue(events: seq<EqueueEvent>, closed: bool)

  datatype Op = Add(event: EqueueEvent) | Trigger(key: Key, data: int) | Delete(key: Key) | Get(now: nat, num: nat) | Close

  function Step(q: Queue, op: Op): Queue {
    if q.closed then q
    else
      match op
      case Add(e) =>
        var i := Find(q.events, e.event.key);
        q.(events := if i < |q.events| then q.events[i := Refreshed(q.events[i], e)] else q.events + [e])
      case Trigger(key, data) =>
        var i := Find(q.events, key);
        if i < |q.events| then q.(events := q.events[i := Fired(q.events[i], data)]) else q
      case Delete(key) =>
        q.(events := Without(q.events, Find(q.events, key)))
      case Get(now, num) => q.(events := ServeAll(ExpiredAll(q.events, now), num).left)
      case Close => Queue([], true)
  }

  /** The events that a call hands to its caller. */
  function Output(q: Queue, op: Op): seq<KernelEvent> {
    if op.Get? && !q.closed then ServeAll(ExpiredAll(q.events, op.now), op.num).out else []
  }

  class KernelEqueuePrivate {
    var m_events: seq<EqueueEvent>
    var m_closed: bool

    ghost function State(): Queue
      reads this
    {
      Queue(m_events, m_closed)
    }

    constructor ()
      ensures State() == Queue([], false)
    {
      m_events, m_closed := [], false;
    }

    method FindEvent(key: Key) returns (it: nat)
      ensures it == Find(m_events, key)
    {
      it := 0;
      while it < |m_events| && m_events[it].event.key != key
        invariant it <= |m_events| && forall j :: 0 <= j < it ==> m_events[j].event.key != key
      {
        it := it + 1;
      }
    }

    method AddEvent(event: EqueueEvent) returns (r: int)
      modifies this
      ensures State() == Step(old(State()), Add(event))
      ensures r == if old(m_closed) then KERNEL_ERROR_EBADF else OK
    {
      if m_closed { return KERNEL_ERROR_EBADF; }
      var it := FindEvent(event.event.key);
      if it != |m_events| {
        m_events := m_events[it := m_events[it].(deadlineNs := event.deadlineNs)];
        m_events := m_events[it := m_events[it].(event := m_events[it].event.(udata := event.event.udata))];
        var pending := m_events[it].pending;
        var i := 0;
        while i < |pending|
          invariant i <= |pending| == |m_events[it].pending|
          invariant forall j :: 0 <= j < |pending| ==>
            pending[j] == if j < i then m_events[it].pending[j].(udata := event.event.udata) else m_events[it].pending[j]
        {
          pending := pending[i := pending[i].(udata := event.event.udata)];
          i := i + 1;
        }
        assert pending == Retagged(m_events[it].pending, event.event.udata);
        m_events := m_events[it := m_events[it].(pending := pending)];
      } else {
        m_events := m_events + [event];
      }
      r := OK;
    }

    method TriggerEvent(key: Key, data: int) returns (r: int)
      modifies this
      ensures State() == Step(old(State()), Trigger(key, data))
      ensures r == if old(m_closed) then KERNEL_ERROR_EBADF
                   else if Find(old(m_events), key) < old(|m_events|) then OK else KERNEL_ERROR_ENOENT
    {
      if m_closed { return KERNEL_ERROR_EBADF; }
      var it := FindEvent(key);
      if it != |m_events| {
        var e := m_events[it];
        match e.trigger {
          case NoTrigger => e := e.(triggered := true);
          case UserTrigger =>
            e := e.(triggered := true);
            e := e.(event := e.event.(data := data));
            e := e.(event := e.event.(udata := data));
          case AmprTrigger => e := QueueUp(e, e.event.(data := data));
          case GraphicsTrigger =>
            var next := e.event;
            next := next.(fflags := (next.fflags + 1) % 0x1_0000_0000);
            next := next.(data := data);
            e := QueueUp(e, next);
          case VideoOutTrigger =>
            var next := e.event;
            next := next.(fflags := if next.fflags < 15 then next.fflags + 1 else next.fflags);
            next := next.(data := VideoOutData(next.data, data));
            e := QueueUp(e, next);
        }
        m_events := m_events[it := e];
        return OK;
      }
      r := KERNEL_ERROR_ENOENT;
    }

    /** How the queueing trigger functions end. */
    static method QueueUp(e: EqueueEvent, next: KernelEvent) returns (r: EqueueEvent)
      ensures r == if e.triggered then e.(pending := e.pending + [next]) else e.(triggered := true, event := next)
    {
      if e.triggered {
        r := e.(pending := e.pending + [next]);
      } else {
        r := e.(event := next);
        r := r.(triggered := true);
      }
    }

    /** Returns the removed registration too, for the delete callback. */
    method DeleteEvent(key: Key) returns (r: int, removed: seq<EqueueEvent>)
      modifies this
      ensures State() == Step(old(State()), Delete(key))
      ensures var i := Find(old(m_events), key);
              if old(m_closed) then r == KERNEL_ERROR_EBADF && removed == []
              else if i < old(|m_events|) then r == OK && removed == [old(m_events)[i]]
              else r == KERNEL_ERROR_ENOENT && removed == []
    {
      if m_closed { return KERNEL_ERROR_EBADF, []; }
      var it := FindEvent(key);
      if it != |m_events| {
        removed := [m_events[it]];
        m_events := m_events[..it] + m_events[it + 1..];
        return OK, removed;
      }
      return KERNEL_ERROR_ENOENT, [];
    }

    /** Returns the removed registrations, for their delete callbacks. */
    method Close() returns (removed: seq<EqueueEvent>)
      modifies this
      ensures State() == Step(old(State()), Op.Close)
      ensures removed == if old(m_closed) then [] else old(m_events)
    {
      if m_closed { return []; }
      m_closed := true;
      removed := m_events;
      m_events := [];
    }

    method TriggerExpiredTimers(now: nat)
      modifies this`m_events
      ensures m_events == ExpiredAll(old(m_events), now)
    {
      ghost var was := m_events;
      var i := 0;
      while i < |m_events|
        invariant i <= |m_events| == |was|
        invariant forall j :: 0 <= j < |was| ==> m_events[j] == if j < i then Expired(was[j], now) else was[j]
      {
        var e := m_events[i];
        if !e.triggered && e.deadlineNs != 0 && e.deadlineNs <= now {
          m_events := m_events[i := e.(triggered := true)];
        }
        i := i + 1;
      }
    }

    /** Resets a delivered registration and loads its next pending event. */
    method Advance(it: nat)
      requires it < |m_events|
      modifies this`m_events
      ensures m_events == old(m_events)[it := Advanced(old(m_events[it]))]
    {
      var e := m_events[it];
      if e.reset == AlwaysReset {
        e := e.(triggered := false);
        e := e.(event := e.event.(fflags := 0));
        e := e.(event := e.event.(data := 0));
      } else if e.reset == UserReset {
        if e.event.Clears() {
          e := e.(triggered := false);
          e := e.(event := e.event.(fflags := 0));
          e := e.(event := e.event.(data := 0));
        }
      } else if e.event.Clears() {
        e := e.(triggered := false);
        e := e.(event := e.event.(fflags := 0));
        e := e.(event := e.event.(data := 0));
      }
      if e.pending != [] {
        e := e.(event := e.pending[0]);
        e := e.(pending := e.pending[1..]);
        e := e.(triggered := true);
      }
      m_events := m_events[it := e];
    }

    /** The inner loop: hands out one registration's events until it is no longer triggered, is
        consumed, or the buffer is full. */
    method Collect(it: nat, ev: array<KernelEvent>, start: nat, num: nat) returns (ret: nat, erase: bool)
      requires it < |m_events| && start < num <= ev.Length
      modifies this`m_events, ev
      ensures |m_events| == old(|m_events|) && m_events == old(m_events)[it := m_events[it]]
      ensures start <= ret <= num
      ensures Collected(old(m_events[it]), num - start, old(ev[..start]), ev[..ret], m_events[it], erase)
      ensures forall k :: ret <= k < ev.Length ==> ev[k] == old(ev[k])
    {
      ret, erase := start, false;
      ghost var e0, head := m_events[it], ev[..start];
      while m_events[it].triggered && ret < num
        invariant start <= ret <= num && |m_events| == old(|m_events|) && m_events == old(m_events)[it := m_events[it]]
        invariant Collecting(e0, num - start, head, ev[..ret], m_events[it], num - ret)
        invariant forall k :: ret <= k < ev.Length ==> ev[k] == old(ev[k])
        decreases num - ret
      {
        ghost var was, e := ev[..ret], m_events[it];
        CollectOne(e0, num - start, head, was, e, num - ret);
        ev[ret] := m_events[it].event;
        ret := ret + 1;
        assert ev[..ret] == was + [e.event];
        if m_events[it].event.OneShot() {
          erase := true;
          return;
        }
        Advance(it);
      }
    }

    method GetTriggeredEvents(ev: array<KernelEvent>, num: nat, now: nat) returns (ret: int)
      requires 1 <= num <= ev.Length
      modifies this`m_events, ev
      ensures State() == Step(old(State()), Get(now, num))
      ensures if m_closed then ret == KERNEL_ERROR_EBADF && ev[..] == old(ev[..])
              else 0 <= ret <= num && ev[..] == Output(old(State()), Get(now, num)) + old(ev[..])[ret..]
    {
      if m_closed { return KERNEL_ERROR_EBADF; }
      TriggerExpiredTimers(now);
      ret := CollectAll(ev, num);
      assert ev[..] == ev[..ret] + old(ev[..])[ret..];
    }

    /** The outer loop. */
    method CollectAll(ev: array<KernelEvent>, num: nat) returns (n: nat)
      requires num <= ev.Length
      modifies this`m_events, ev
      ensures n <= num && ServeAll(old(m_events), num) == Served(ev[..n], m_events)
      ensures forall k :: n <= k < ev.Length ==> ev[k] == old(ev[k])
    {
      ghost var all := m_events;
      var it: nat := 0;
      n := 0;
      ServeStart(all, num);
      assert ev[..0] == [] && m_events[..0] == [] && m_events[0..] == all;
      while it < |m_events| && n < num
        invariant n <= num && it <= |m_events|
        invariant Serving(all, num, ev[..n], m_events[..it], m_events[it..], num - n)
        invariant forall k :: n <= k < ev.Length ==> ev[k] == old(ev[k])
        decreases |m_events| - it
      {
        n, it := CollectAndMoveOn(it, ev, n, num, all);
      }
      ServeEnd(all, num, ev[..n], m_events, it, num - n);
    }

    /** One turn of the outer loop: serve a registration, then erase it or step over it. */
    method CollectAndMoveOn(it: nat, ev: array<KernelEvent>, start: nat, num: nat, ghost all: seq<EqueueEvent>) returns (n: nat, next: nat)
      requires it < |m_events| && start < num <= ev.Length
      requires Serving(all, num, ev[..start], m_events[..it], m_events[it..], num - start)
      modifies this`m_events, ev
      ensures start <= n <= num && next <= |m_events| && |m_events| - next < old(|m_events|) - it
      ensures Serving(all, num, ev[..n], m_events[..next], m_events[next..], num - n)
      ensures forall k :: n <= k < ev.Length ==> ev[k] == old(ev[k])
    {
      ghost var was, buf, room := m_events, ev[..start], num - start;
      var erase;
      n, erase := Collect(it, ev, start, num);
      ghost var e, buf' := m_events[it], ev[..n];
      ServeParts(all, num, buf, was, it, room, buf', e, erase);
      next := MoveOn(it, erase);
    }

    method MoveOn(it: nat, erase: bool) returns (next: nat)
      requires it < |m_events|
      modifies this`m_events
      ensures m_events == Moved(old(m_events), it, erase) && next == if erase then it else it + 1
    {
      if erase {
        m_events := m_events[..it] + m_events[it + 1..];
        next := it;
      } else {
        next := it + 1;
      }
    }
  }

  /** A registration is taken out or stepped over. */
  function Moved(events: seq<EqueueEvent>, it: nat, erase: bool): seq<EqueueEvent> {
    if erase then Without(events, it) else events
  }

  lemma ListParts(was: seq<EqueueEvent>, it: nat, e: EqueueEvent, erase: bool)
    requires it < |was|
    ensures var now, next := Moved(was[it := e], it, erase), if erase then it else it + 1;
            && next <= |now| && now[next..] == was[it..][1..]
            && now[..next] == if erase then was[..it] else was[..it] + [e]
  {
  }

  /** One turn of the outer loop. */
  lemma ServeParts(all: seq<EqueueEvent>, num: nat, buf: seq<KernelEvent>, was: seq<EqueueEvent>, it: nat, room: nat,
                   buf': seq<KernelEvent>, e: EqueueEvent, erase: bool)
    requires it < |was| && room > 0 && Serving(all, num, buf, was[..it], was[it..], room)
    requires Collected(was[it], room, buf, buf', e, erase)
    ensures var now, next := Moved(was[it := e], it, erase), if erase then it else it + 1;
            && |buf| <= |buf'| <= |buf| + room && next <= |now|
            && Serving(all, num, buf', now[..next], now[next..], room - (|buf'| - |buf|))
  {
    ListParts(was, it, e, erase);
    ServeNext(all, num, buf, was[..it], was[it..], room, buf', e, erase);
  }

  /** The whole of what Serve promises for a registration is in the buffer after head. */
  ghost predicate Collected(e0: EqueueEvent, room: nat, head: seq<KernelEvent>, buf: seq<KernelEvent>, e: EqueueEvent, erase: bool) {
    var s := Serve(e0, room);
    buf == head + s.out && s.left == if erase then [] else [e]
  }

  /** Part of it is there; what is missing is what Serve promises for e with the rest of the room. */
  ghost predicate Collecting(e0: EqueueEvent, room: nat, head: seq<KernelEvent>, buf: seq<KernelEvent>, e: EqueueEvent, rest: nat) {
    var s, t := Serve(e0, room), Serve(e, rest);
    head + s.out == buf + t.out && s.left == t.left
  }

  lemma CollectOne(e0: EqueueEvent, room: nat, head: seq<KernelEvent>, buf: seq<KernelEvent>, e: EqueueEvent, rest: nat)
    requires Collecting(e0, room, head, buf, e, rest) && e.triggered && rest > 0
    ensures if e.event.OneShot() then Collected(e0, room, head, buf + [e.event], e, true)
            else Collecting(e0, room, head, buf + [e.event], Advanced(e), rest - 1)
  {
    if !e.event.OneShot() {
      var t := Serve(Advanced(e), rest - 1);
      assert buf + ([e.event] + t.out) == buf + [e.event] + t.out;
    }
  }

  /** Part of the list is served; what is missing is what ServeAll promises for the rest. */
  ghost predicate Serving(all: seq<EqueueEvent>, num: nat, buf: seq<KernelEvent>, done: seq<EqueueEvent>, rest: seq<EqueueEvent>, room: nat) {
    var s, t := ServeAll(all, num), ServeAll(rest, room);
    s.out == buf + t.out && s.left == done + t.left
  }

  lemma ServeStart(all: seq<EqueueEvent>, num: nat)
    ensures Serving(all, num, [], [], all, num)
  {
    var s := ServeAll(all, num);
    assert [] + s.out == s.out && [] + s.left == s.left;
  }

  lemma ServeEnd(all: seq<EqueueEvent>, num: nat, buf: seq<KernelEvent>, events: seq<EqueueEvent>, it: nat, room: nat)
    requires it <= |events| && Serving(all, num, buf, events[..it], events[it..], room) && (it == |events| || room == 0)
    ensures ServeAll(all, num) == Served(buf, events)
  {
    assert buf + [] == buf && events[..it] + events[it..] == events;
  }

  lemma ServeNext(all: seq<EqueueEvent>, num: nat, buf: seq<KernelEvent>, done: seq<EqueueEvent>, rest: seq<EqueueEvent>, room: nat,
                  buf': seq<KernelEvent>, e: EqueueEvent, erase: bool)
    requires Serving(all, num, buf, done, rest, room) && rest != [] && room > 0
    requires Collected(rest[0], room, buf, buf', e, erase)
    ensures |buf| <= |buf'| <= |buf| + room
    ensures Serving(all, num, buf', if erase then done else done + [e], rest[1..], room - (|buf'| - |buf|))
  {
    var s := Serve(rest[0], room);
    ServeAllFirst(rest, room);
    ServedSoFar(ServeAll(all, num), ServeAll(rest[1..], room - |s.out|), s, buf, done, e, erase);
  }

  lemma ServedSoFar(whole: Served, t: Served, s: Served, buf: seq<KernelEvent>, done: seq<EqueueEvent>, e: EqueueEvent, erase: bool)
    requires whole == Served(buf + (s.out + t.out), done + (s.left + t.left)) && s.left == if erase then [] else [e]
    ensures whole == Served(buf + s.out + t.out, (if erase then done else done + [e]) + t.left)
  {
    Regroup(buf, s.out, t.out);
    Regroup(done, s.left, t.left);
    assert done + [] == done;
  }

  lemma Regroup<T>(a: seq<T>, b: seq<T>, c: seq<T>)
    ensures a + (b + c) == a + b + c
  {
  }

  // ----- invariants of the queue -----

  ghost predicate Unique(events: seq<EqueueEvent>) {
    forall i, j :: 0 <= i < j < |events| ==> events[i].event.key != events[j].event.key
  }

  /** Events wait only behind a triggered one, and under the same key. */
  ghost predicate Sane(e: EqueueEvent) {
    (forall i :: 0 <= i < |e.pending| ==> e.pending[i].key == e.event.key) && (e.pending != [] ==> e.triggered)
  }

  ghost predicate WellFormed(events: seq<EqueueEvent>) {
    Unique(events) && forall i :: 0 <= i < |events| ==> Sane(events[i])
  }

  ghost predicate AllKey(out: seq<KernelEvent>, key: Key) {
    forall i :: 0 <= i < |out| ==> out[i].key == key
  }

  lemma {:induction false} ServeSane(e: EqueueEvent, room: nat)
    requires Sane(e)
    ensures var s := Serve(e, room);
            AllKey(s.out, e.event.key) && (s.left != [] ==> Sane(s.left[0]) && s.left[0].event.key == e.event.key)
    decreases room
  {
    if e.triggered && room > 0 && !e.event.OneShot() { ServeSane(Advanced(e), room - 1); }
  }

  ghost predicate Absent(events: seq<EqueueEvent>, key: Key) {
    forall i :: 0 <= i < |events| ==> events[i].event.key != key
  }

  /** Serving adds no key. */
  lemma {:induction false} ServeAllAbsent(events: seq<EqueueEvent>, room: nat, key: Key)
    requires (forall i :: 0 <= i < |events| ==> Sane(events[i])) && Absent(events, key)
    ensures Absent(ServeAll(events, room).left, key)
    decreases |events|
  {
    if events != [] && room > 0 {
      ServeFits(events[0], room);
      ServeSane(events[0], room);
      ServeAllAbsent(events[1..], room - |Serve(events[0], room).out|, key);
    }
  }

  lemma {:induction false} ServeAllWellFormed(events: seq<EqueueEvent>, room: nat)
    requires WellFormed(events)
    ensures WellFormed(ServeAll(events, room).left)
    decreases |events|
  {
    if events != [] && room > 0 {
      var s := Serve(events[0], room);
      ServeFits(events[0], room);
      ServeSane(events[0], room);
      var t := ServeAll(events[1..], room - |s.out|);
      ServeAllWellFormed(events[1..], room - |s.out|);
      ServeAllAbsent(events[1..], room - |s.out|, events[0].event.key);
      ConsWellFormed(s.left, t.left, events[0].event.key);
    }
  }

  lemma ConsWellFormed(head: seq<EqueueEvent>, tail: seq<EqueueEvent>, key: Key)
    requires |head| <= 1 && WellFormed(tail) && Absent(tail, key) && (head != [] ==> Sane(head[0]) && head[0].event.key == key)
    ensures WellFormed(head + tail)
  {
  }

  /** Keys stay unique through every call. */
  lemma StepWellFormed(q: Queue, op: Op)
    requires WellFormed(q.events) && (op.Add? ==> Sane(op.event))
    ensures WellFormed(Step(q, op).events)
  {
    if q.closed { return; }
    match op {
      case Add(e) => AddWellFormed(q.events, e);
      case Trigger(key, data) => TriggerWellFormed(q.events, key, data);
      case Delete(key) =>
      case Get(now, num) => ServeAllWellFormed(ExpiredAll(q.events, now), num);
      case Close =>
    }
  }

  lemma AddWellFormed(events: seq<EqueueEvent>, e: EqueueEvent)
    requires WellFormed(events) && Sane(e)
    ensures var i := Find(events, e.event.key);
            WellFormed(if i < |events| then events[i := Refreshed(events[i], e)] else events + [e])
  {
  }

  lemma TriggerWellFormed(events: seq<EqueueEvent>, key: Key, data: int)
    requires WellFormed(events)
    ensures var i := Find(events, key);
            i < |events| ==> WellFormed(events[i := Fired(events[i], data)])
  {
  }

  // ----- a registration that queues its triggers -----

  /** As KernelAddAmprEvent or the graphics queue registers it, after any number of triggers and
      deliveries: triggers queue up, and each delivery takes one. */
  ghost predicate Queues(e: EqueueEvent) {
    && Sane(e) && (e.trigger == AmprTrigger || e.trigger == GraphicsTrigger) && e.deadlineNs == 0
    && Spent(e.reset, e.event) && forall i :: 0 <= i < |e.pending| ==> Spent(e.reset, e.pending[i])
  }

  predicate Spent(reset: ResetFunc, event: KernelEvent) { Resets(reset, event) && !event.OneShot() }

  predicate Edge(e: KernelEvent) { e.Clears() && !e.OneShot() }

  function Data(events: seq<KernelEvent>): seq<int> {
    seq(|events|, i requires 0 <= i < |events| => events[i].data)
  }

  /** The data still to be delivered: current if triggered, then pending. */
  function Waiting(e: EqueueEvent): seq<int> {
    if e.triggered then [e.event.data] + Data(e.pending) else []
  }

  /** The events of one registration among all those handed out. */
  function Of(out: seq<KernelEvent>, key: Key): seq<KernelEvent> {
    if out == [] then [] else (if out[0].key == key then [out[0]] else []) + Of(out[1..], key)
  }

  lemma {:induction false} OfConcat(a: seq<KernelEvent>, b: seq<KernelEvent>, key: Key)
    ensures Of(a + b, key) == Of(a, key) + Of(b, key)
    decreases |a|
  {
    if a == [] {
      assert a + b == b;
    } else {
      OfConcat(a[1..], b, key);
      assert (a + b)[1..] == a[1..] + b;
    }
  }

  lemma {:induction false} OfOne(out: seq<KernelEvent>, key: Key, other: Key)
    requires AllKey(out, key)
    ensures Of(out, other) == if key == other then out else []
    decreases |out|
  {
    if out != [] { OfOne(out[1..], key, other); }
  }

  /** What was handed out, then what is left, is all that was waiting; as much as fits was handed out. */
  ghost predicate Delivered(s: Served, waiting: seq<int>, room: nat) {
    && |s.left| == 1 && Queues(s.left[0])
    && Data(s.out) + Waiting(s.left[0]) == waiting
    && |s.out| == if room <= |waiting| then room else |waiting|
  }

  /** First in, first out, as many as fit. */
  lemma {:induction false} ServeAmpr(e: EqueueEvent, room: nat)
    requires Queues(e)
    ensures Delivered(Serve(e, room), Waiting(e), room)
    decreases room
  {
    if e.triggered && room > 0 {
      AdvancedAmpr(e);
      ServeAmpr(Advanced(e), room - 1);
      DeliveredCons(e.event, Serve(Advanced(e), room - 1), Waiting(Advanced(e)), room);
    } else {
      NothingDelivered(e, room);
    }
  }

  lemma NothingDelivered(e: EqueueEvent, room: nat)
    requires Queues(e) && (!e.triggered || room == 0)
    ensures Delivered(Served([], [e]), Waiting(e), room)
  {
    assert Data([]) + Waiting(e) == Waiting(e);
  }

  lemma DeliveredCons(event: KernelEvent, t: Served, waiting: seq<int>, room: nat)
    requires room > 0 && Delivered(t, waiting, room - 1)
    ensures Delivered(Served([event] + t.out, t.left), [event.data] + waiting, room)
  {
    DataCons(event, t.out);
    Regroup([event.data], Data(t.out), Waiting(t.left[0]));
  }

  lemma DataCons(event: KernelEvent, out: seq<KernelEvent>)
    ensures Data([event] + out) == [event.data] + Data(out)
  {
  }

  lemma AdvancedAmpr(e: EqueueEvent)
    requires Queues(e) && e.triggered
    ensures Queues(Advanced(e)) && Waiting(e) == [e.event.data] + Waiting(Advanced(e))
  {
    if e.pending != [] { assert Data(e.pending) == [e.pending[0].data] + Data(e.pending[1..]); }
  }

  // ----- one registration seen alone -----

  /** The registration under a key, if there is one. */
  function EntryOf(events: seq<EqueueEvent>, key: Key): seq<EqueueEvent> {
    var i := Find(events, key);
    if i < |events| then [events[i]] else []
  }

  /** What a call does to the registration under one key; a Get reaches it with room for `room` events. */
  function OneStep(entry: seq<EqueueEvent>, closed: bool, op: Op, key: Key, room: nat): Served {
    if closed then Served([], entry)
    else
      match op
      case Add(e) =>
        if e.event.key != key then Served([], entry)
        else Served([], if entry == [] then [e] else [Refreshed(entry[0], e)])
      case Trigger(k, data) =>
        if k != key || entry == [] then Served([], entry) else Served([], [Fired(entry[0], data)])
      case Delete(k) => Served([], if k == key then [] else entry)
      case Get(now, num) => if entry == [] then Served([], []) else Serve(Expired(entry[0], now), room)
      case Close => Served([], [])
  }

  lemma EntryCons(head: EqueueEvent, tail: seq<EqueueEvent>, key: Key)
    ensures EntryOf([head] + tail, key) == if head.event.key == key then [head] else EntryOf(tail, key)
  {
    assert ([head] + tail)[1..] == tail;
  }

  lemma EntryAbsent(events: seq<EqueueEvent>, key: Key)
    ensures Absent(events, key) <==> EntryOf(events, key) == []
  {
  }

  lemma EntryFirst(events: seq<EqueueEvent>, key: Key)
    requires WellFormed(events) && events != []
    ensures var head, rest := events[0], EntryOf(events[1..], key);
            if head.event.key == key then EntryOf(events, key) == [head] && rest == [] else EntryOf(events, key) == rest
  {
    assert events == [events[0]] + events[1..];
    EntryCons(events[0], events[1..], key);
    EntryAbsent(events[1..], key);
  }

  /** What serving a list did to one of its registrations is what serving that one alone does. */
  ghost predicate AsAlone(all: Served, entry: seq<EqueueEvent>, key: Key, r: nat) {
    Of(all.out, key) == ServeEntry(entry, r).out && EntryOf(all.left, key) == ServeEntry(entry, r).left
  }

  ghost function ServeEntry(entry: seq<EqueueEvent>, r: nat): Served {
    if entry == [] then Served([], []) else Serve(entry[0], r)
  }

  /** Each registration is served as if alone, with what room the ones before it leave. */
  lemma {:induction false} ServeAllOne(events: seq<EqueueEvent>, room: nat, key: Key) returns (r: nat)
    requires WellFormed(events)
    ensures r <= room && AsAlone(ServeAll(events, room), EntryOf(events, key), key, r)
    decreases |events|
  {
    r := 0;
    if events != [] && room > 0 {
      ServeAllFirst(events, room);
      var s := Serve(events[0], room);
      r := ServeAllOne(events[1..], room - |s.out|, key);
      r := OneMore(events, room, s, ServeAll(events[1..], room - |s.out|), key, r);
    } else {
      NoneServed(events, room, key);
    }
  }

  lemma NoneServed(events: seq<EqueueEvent>, room: nat, key: Key)
    requires events == [] || room == 0
    ensures AsAlone(ServeAll(events, room), EntryOf(events, key), key, 0)
  {
  }

  lemma ServeAllFirst(events: seq<EqueueEvent>, room: nat)
    requires events != [] && room > 0
    ensures |Serve(events[0], room).out| <= room
    ensures var s := Serve(events[0], room);
            var t := ServeAll(events[1..], room - |s.out|);
            ServeAll(events, room) == Served(s.out + t.out, s.left + t.left)
  {
    ServeFits(events[0], room);
  }

  lemma OneMore(events: seq<EqueueEvent>, room: nat, s: Served, t: Served, key: Key, r: nat) returns (r': nat)
    requires WellFormed(events) && events != [] && s == Serve(events[0], room) && r <= room
    requires AsAlone(t, EntryOf(events[1..], key), key, r)
    ensures r' <= room && AsAlone(Served(s.out + t.out, s.left + t.left), EntryOf(events, key), key, r')
  {
    var head := events[0];
    ServeFits(head, room);
    ServeSane(head, room);
    EntryFirst(events, key);
    AloneGlue(s, t, head, EntryOf(events[1..], key), key, room, r);
    r' := if head.event.key == key then room else r;
  }

  lemma AloneGlue(s: Served, t: Served, head: EqueueEvent, entry: seq<EqueueEvent>, key: Key, room: nat, r: nat)
    requires |s.left| <= 1 && AllKey(s.out, head.event.key) && (s.left != [] ==> s.left[0].event.key == head.event.key)
    requires s == Serve(head, room) && AsAlone(t, entry, key, r) && (head.event.key == key ==> entry == [])
    ensures var all := Served(s.out + t.out, s.left + t.left);
            if head.event.key == key then AsAlone(all, [head], key, room) else AsAlone(all, entry, key, r)
  {
    ServeGlue(s, t, head.event.key, key);
    if head.event.key == key { assert s.out + [] == s.out; }
  }

  lemma ServeGlue(s: Served, t: Served, own: Key, key: Key)
    requires |s.left| <= 1 && AllKey(s.out, own) && (s.left != [] ==> s.left[0].event.key == own)
    ensures Of(s.out + t.out, key) == if own == key then s.out + Of(t.out, key) else Of(t.out, key)
    ensures EntryOf(s.left + t.left, key) == if own == key && s.left != [] then s.left else EntryOf(t.left, key)
  {
    OutGlue(s.out, t.out, own, key);
    LeftGlue(s.left, t.left, own, key);
  }

  lemma OutGlue(s: seq<KernelEvent>, t: seq<KernelEvent>, own: Key, key: Key)
    requires AllKey(s, own)
    ensures Of(s + t, key) == if own == key then s + Of(t, key) else Of(t, key)
  {
    OfConcat(s, t, key);
    OfOne(s, own, key);
    if own != key { assert [] + Of(t, key) == Of(t, key); }
  }

  lemma LeftGlue(s: seq<EqueueEvent>, t: seq<EqueueEvent>, own: Key, key: Key)
    requires |s| <= 1 && (s != [] ==> s[0].event.key == own)
    ensures EntryOf(s + t, key) == if own == key && s != [] then s else EntryOf(t, key)
  {
    if s == [] {
      assert s + t == t;
    } else {
      EntryCons(s[0], t, key);
      assert s + t == [s[0]] + t && s == [s[0]];
    }
  }

  lemma ExpiredEntry(events: seq<EqueueEvent>, now: nat, key: Key)
    requires WellFormed(events)
    ensures WellFormed(ExpiredAll(events, now))
    ensures var entry := EntryOf(events, key);
            EntryOf(ExpiredAll(events, now), key) == if entry == [] then [] else [Expired(entry[0], now)]
  {
    FindIs(ExpiredAll(events, now), key, Find(events, key));
  }

  lemma FindIs(events: seq<EqueueEvent>, key: Key, i: nat)
    requires i <= |events| && forall j :: 0 <= j < i ==> events[j].event.key != key
    requires i < |events| ==> events[i].event.key == key
    ensures Find(events, key) == i
  {
  }

  /** What the queue does to the registration under a key is what one call does to it alone: calls
      about other keys leave it as it is. */
  ghost predicate StepsAlone(q: Queue, op: Op, key: Key, r: nat) {
    var one := OneStep(EntryOf(q.events, key), q.closed, op, key, r);
    Of(Output(q, op), key) == one.out && EntryOf(Step(q, op).events, key) == one.left
  }

  lemma StepOne(q: Queue, op: Op, key: Key) returns (r: nat)
    requires WellFormed(q.events) && (op.Add? ==> Sane(op.event))
    ensures StepsAlone(q, op, key, r)
  {
    r := 0;
    if !q.closed {
      match op {
        case Add(e) => AddOne(q.events, e, key);
        case Trigger(k, data) =>
          var i := Find(q.events, k);
          if i < |q.events| { UpdateOne(q.events, i, Fired(q.events[i], data), key); }
        case Delete(k) => DeleteOne(q.events, k, key);
        case Get(now, num) =>
          ExpiredEntry(q.events, now, key);
          r := ServeAllOne(ExpiredAll(q.events, now), num, key);
        case Close =>
      }
    }
  }

  lemma UpdateOne(events: seq<EqueueEvent>, i: nat, e: EqueueEvent, key: Key)
    requires WellFormed(events) && i < |events| && e.event.key == events[i].event.key
    ensures EntryOf(events[i := e], key) == if e.event.key == key then [e] else EntryOf(events, key)
  {
    FindIs(events[i := e], key, Find(events, key));
  }

  lemma AddOne(events: seq<EqueueEvent>, e: EqueueEvent, key: Key)
    requires WellFormed(events)
    ensures var i := Find(events, e.event.key);
            var after := if i < |events| then events[i := Refreshed(events[i], e)] else events + [e];
            EntryOf(after, key) == OneStep(EntryOf(events, key), false, Add(e), key, 0).left
  {
    var i := Find(events, e.event.key);
    if i < |events| {
      UpdateOne(events, i, Refreshed(events[i], e), key);
    } else {
      FindIs(events + [e], key, if Find(events, key) < |events| || e.event.key == key then Find(events, key) else |events| + 1);
    }
  }

  lemma DeleteOne(events: seq<EqueueEvent>, k: Key, key: Key)
    requires WellFormed(events)
    ensures EntryOf(Without(events, Find(events, k)), key) == if k == key then [] else EntryOf(events, key)
  {
    var i := Find(events, k);
    if i < |events| { RemoveAt(events, i, key); }
  }

  lemma RemoveAt(events: seq<EqueueEvent>, i: nat, key: Key)
    requires WellFormed(events) && i < |events|
    ensures EntryOf(Without(events, i), key) == if events[i].event.key == key then [] else EntryOf(events, key)
  {
    WithoutPlaces(events, i);
    if events[i].event.key == key { RemoveOwn(events, Without(events, i), i, key); } else { RemoveOther(events, Without(events, i), i, key); }
  }

  lemma WithoutPlaces(events: seq<EqueueEvent>, i: nat)
    requires i < |events|
    ensures Shorter(events, Without(events, i), i)
  {
    var after := Without(events, i);
    forall j | 0 <= j < |after| ensures after[j] == events[if j < i then j else j + 1] {
      if j >= i { assert after[j] == events[i + 1..][j - i]; }
    }
  }

  ghost predicate Shorter(events: seq<EqueueEvent>, after: seq<EqueueEvent>, i: nat) {
    |after| == |events| - 1 && forall j :: 0 <= j < |after| ==> after[j] == events[if j < i then j else j + 1]
  }

  lemma RemoveOwn(events: seq<EqueueEvent>, after: seq<EqueueEvent>, i: nat, key: Key)
    requires Unique(events) && i < |events| && Shorter(events, after, i) && events[i].event.key == key
    ensures EntryOf(after, key) == []
  {
    assert forall j :: 0 <= j < |events| && j != i ==> events[j].event.key != key;
    FindIs(after, key, |after|);
  }

  lemma RemoveOther(events: seq<EqueueEvent>, after: seq<EqueueEvent>, i: nat, key: Key)
    requires i < |events| && Shorter(events, after, i) && events[i].event.key != key
    ensures EntryOf(after, key) == EntryOf(events, key)
  {
    var m := Find(events, key);
    FindIs(after, key, if m < i then m else m - 1);
  }

  // ----- runs -----

  function Run(q: Queue, ops: seq<Op>): Queue
    decreases |ops|
  {
    if ops == [] then q else Run(Step(q, ops[0]), ops[1..])
  }

  /** Everything a run hands to its callers, in order. */
  function Handed(q: Queue, ops: seq<Op>): seq<KernelEvent>
    decreases |ops|
  {
    if ops == [] then [] else Output(q, ops[0]) + Handed(Step(q, ops[0]), ops[1..])
  }

  /** The data triggered under a key. */
  function Sent(ops: seq<Op>, key: Key): seq<int> {
    if ops == [] then [] else SentBy(ops[0], key) + Sent(ops[1..], key)
  }

  function SentBy(op: Op, key: Key): seq<int> {
    if op.Trigger? && op.key == key then [op.data] else []
  }

  ghost predicate QueuesAt(q: Queue, key: Key) {
    var entry := EntryOf(q.events, key);
    WellFormed(q.events) && !q.closed && entry != [] && Queues(entry[0])
  }

  /** The call leaves the registration in place; adding it again brings no deadline. */
  ghost predicate Keeps(op: Op, key: Key) {
    match op
    case Add(e) => Sane(e) && (e.event.key == key ==> e.deadlineNs == 0)
    case Delete(k) => k != key
    case Close => false
    case _ => true
  }

  lemma AmprOne(e: EqueueEvent, op: Op, key: Key, r: nat)
    requires Queues(e) && Keeps(op, key)
    ensures var s := OneStep([e], false, op, key, r);
            |s.left| == 1 && Queues(s.left[0]) && Data(s.out) + Waiting(s.left[0]) == Waiting(e) + SentBy(op, key)
  {
    if op.Get? {
      ServeAmpr(e, r);
    } else if op.Trigger? && op.key == key {
      assert Data(e.pending + [e.event.(data := op.data)]) == Data(e.pending) + [op.data];
    } else if op.Add? && op.event.event.key == key {
      assert Data(Retagged(e.pending, op.event.event.udata)) == Data(e.pending);
    }
  }

  lemma AmprStep(q: Queue, op: Op, key: Key)
    requires QueuesAt(q, key) && Keeps(op, key)
    ensures QueuesAt(Step(q, op), key)
    ensures Data(Of(Output(q, op), key)) + Waiting(EntryOf(Step(q, op).events, key)[0])
            == Waiting(EntryOf(q.events, key)[0]) + SentBy(op, key)
  {
    StepWellFormed(q, op);
    var r := StepOne(q, op, key);
    AmprOne(EntryOf(q.events, key)[0], op, key, r);
  }

  /** Conservation: in every run, what a registration that queues its triggers delivered, followed by what it still holds
      (current, then pending), is what it held before followed by everything triggered since: nothing
      lost, nothing twice, in order. */
  lemma {:induction false} AmprConserved(q: Queue, ops: seq<Op>, key: Key)
    requires QueuesAt(q, key) && forall i :: 0 <= i < |ops| ==> Keeps(ops[i], key)
    ensures QueuesAt(Run(q, ops), key)
    ensures Data(Of(Handed(q, ops), key)) + Waiting(EntryOf(Run(q, ops).events, key)[0])
            == Waiting(EntryOf(q.events, key)[0]) + Sent(ops, key)
    decreases |ops|
  {
    if ops != [] {
      var out, q' := Output(q, ops[0]), Step(q, ops[0]);
      AmprStep(q, ops[0], key);
      AmprConserved(q', ops[1..], key);
      OfConcat(out, Handed(q', ops[1..]), key);
      Chain(Of(out, key), Of(Handed(q', ops[1..]), key), Waiting(EntryOf(q'.events, key)[0]),
            Waiting(EntryOf(Run(q, ops).events, key)[0]), Waiting(EntryOf(q.events, key)[0]), SentBy(ops[0], key), Sent(ops[1..], key));
    }
  }

  lemma Chain(out: seq<KernelEvent>, more: seq<KernelEvent>, mid: seq<int>, end: seq<int>, start: seq<int>, sent: seq<int>, later: seq<int>)
    requires Data(out) + mid == start + sent && Data(more) + end == mid + later
    ensures Data(out + more) + end == start + (sent + later)
  {
    calc {
      Data(out + more) + end;
      { assert Data(out + more) == Data(out) + Data(more); }
      Data(out) + (Data(more) + end);
      Data(out) + mid + later;
      start + (sent + later);
    }
  }

  const KERNEL_EVFILT_USER := -11

  /** What KernelAddAmprEvent registers. */
  function AmprEvent(id: nat, udata: int): EqueueEvent {
    EqueueEvent(false, 0, KernelEvent(Key(id, KERNEL_EVFILT_USER), EV_ADD + EV_CLEAR, 0, 0, udata), AmprTrigger, UserReset, [])
  }

  lemma AmprRegistered(q: Queue, id: nat, udata: int)
    requires WellFormed(q.events) && !q.closed && EntryOf(q.events, Key(id, KERNEL_EVFILT_USER)) == []
    ensures QueuesAt(Step(q, Add(AmprEvent(id, udata))), Key(id, KERNEL_EVFILT_USER))
    ensures EntryOf(Step(q, Add(AmprEvent(id, udata))).events, Key(id, KERNEL_EVFILT_USER)) == [AmprEvent(id, udata)]
  {
    var key, e := Key(id, KERNEL_EVFILT_USER), AmprEvent(id, udata);
    assert Queues(e) by { assert e.event.Clears() && !e.event.OneShot(); }
    StepWellFormed(q, Add(e));
    var r := StepOne(q, Add(e), key);
  }

  const KERNEL_EVFILT_GRAPHICS := -14

  /** What AddEqEvent registers; its flags are left at zero. */
  function GraphicsEvent(id: nat, udata: int): EqueueEvent {
    EqueueEvent(false, 0, KernelEvent(Key(id, KERNEL_EVFILT_GRAPHICS), 0, 0, id, udata), GraphicsTrigger, AlwaysReset, [])
  }

  lemma GraphicsRegistered(q: Queue, id: nat, udata: int)
    requires WellFormed(q.events) && !q.closed && EntryOf(q.events, Key(id, KERNEL_EVFILT_GRAPHICS)) == []
    ensures QueuesAt(Step(q, Add(GraphicsEvent(id, udata))), Key(id, KERNEL_EVFILT_GRAPHICS))
    ensures Waiting(GraphicsEvent(id, udata)) == []
  {
    var key, e := Key(id, KERNEL_EVFILT_GRAPHICS), GraphicsEvent(id, udata);
    StepWellFormed(q, Add(e));
    var r := StepOne(q, Add(e), key);
  }

  /** From its registration on, an AMPR event delivers its triggers in order, and holds the rest. */
  lemma AmprDelivers(q: Queue, id: nat, udata: int, ops: seq<Op>, start: Queue)
    requires WellFormed(q.events) && !q.closed && EntryOf(q.events, Key(id, KERNEL_EVFILT_USER)) == []
    requires forall i :: 0 <= i < |ops| ==> Keeps(ops[i], Key(id, KERNEL_EVFILT_USER))
    requires start == Step(q, Add(AmprEvent(id, udata)))
    ensures EntryOf(Run(start, ops).events, Key(id, KERNEL_EVFILT_USER)) != []
    ensures Data(Of(Handed(start, ops), Key(id, KERNEL_EVFILT_USER))) + Waiting(EntryOf(Run(start, ops).events, Key(id, KERNEL_EVFILT_USER))[0])
            == Sent(ops, Key(id, KERNEL_EVFILT_USER))
  {
    AmprRegistered(q, id, udata);
    AmprConserved(start, ops, Key(id, KERNEL_EVFILT_USER));
    NothingYet(AmprEvent(id, udata), Sent(ops, Key(id, KERNEL_EVFILT_USER)));
  }

  lemma NothingYet(e: EqueueEvent, sent: seq<int>)
    requires !e.triggered
    ensures Waiting(e) + sent == sent
  {
  }

  /** A registered timer that fires once, or what is left of it. */
  ghost predicate TimerOrGone(entry: seq<EqueueEvent>) {
    entry == [] || (|entry| == 1 && entry[0].event.OneShot() && entry[0].trigger == NoTrigger && entry[0].pending == [])
  }

  /** The call may occur in the life of a one-shot timer: whatever is added under its key is one. */
  ghost predicate TimerOp(op: Op, key: Key) {
    op.Add? ==> Sane(op.event) && (op.event.event.key == key ==> TimerOrGone([op.event]))
  }

  /** How often the run registers the key anew. */
  function FreshAdds(q: Queue, ops: seq<Op>, key: Key): nat
    decreases |ops|
  {
    if ops == [] then 0
    else (if IsFresh(q, ops[0], key) then 1 else 0) + FreshAdds(Step(q, ops[0]), ops[1..], key)
  }

  predicate IsFresh(q: Queue, op: Op, key: Key) {
    !q.closed && op.Add? && op.event.event.key == key && EntryOf(q.events, key) == []
  }

  /** In every run a one-shot timer is handed out at most once for each time it was registered, and is
      gone once it was; adding it again while it is registered brings no second hand-out. */
  lemma {:induction false} TimerOnce(q: Queue, ops: seq<Op>, key: Key)
    requires WellFormed(q.events) && TimerOrGone(EntryOf(q.events, key))
    requires forall i :: 0 <= i < |ops| ==> TimerOp(ops[i], key)
    ensures WellFormed(Run(q, ops).events) && TimerOrGone(EntryOf(Run(q, ops).events, key))
    ensures |Of(Handed(q, ops), key)| + |EntryOf(Run(q, ops).events, key)| <= |EntryOf(q.events, key)| + FreshAdds(q, ops, key)
    decreases |ops|
  {
    if ops != [] {
      var q' := Step(q, ops[0]);
      TimerStep(q, ops[0], key);
      TimerOnce(q', ops[1..], key);
      OfConcat(Output(q, ops[0]), Handed(q', ops[1..]), key);
    }
  }

  lemma TimerStep(q: Queue, op: Op, key: Key)
    requires WellFormed(q.events) && TimerOrGone(EntryOf(q.events, key)) && TimerOp(op, key)
    ensures var entry := EntryOf(Step(q, op).events, key);
            && WellFormed(Step(q, op).events) && TimerOrGone(entry)
            && |Of(Output(q, op), key)| + |entry| <= |EntryOf(q.events, key)| + if IsFresh(q, op, key) then 1 else 0
  {
    StepWellFormed(q, op);
    var r := StepOne(q, op, key);
  }

  /** What is known of a registration: whether it was triggered when it was last added, and the time of
      the latest collection since. */
  datatype Armed = Armed(carried: bool, latest: nat)

  /** A registration is triggered. */
  predicate Lit(events: seq<EqueueEvent>, key: Key) {
    EntryOf(events, key) != [] && EntryOf(events, key)[0].triggered
  }

  function Track(q: Queue, op: Op, key: Key, a: Armed): Armed {
    if q.closed then a
    else if op.Add? && op.event.event.key == key then Armed(Lit(Step(q, op).events, key), 0)
    else if op.Get? && op.now > a.latest then a.(latest := op.now)
    else a
  }

  function TrackAll(q: Queue, ops: seq<Op>, key: Key, a: Armed): Armed
    decreases |ops|
  {
    if ops == [] then a else TrackAll(Step(q, ops[0]), ops[1..], key, Track(q, ops[0], key, a))
  }

  /** The deadline had come by that time. */
  predicate Due(e: EqueueEvent, time: nat) {
    0 < e.deadlineNs <= time
  }

  /** Nobody triggers the key by hand. */
  ghost predicate NotByHand(op: Op, key: Key) {
    (op.Trigger? ==> op.key != key) && (op.Add? ==> Sane(op.event))
  }

  /** A registration is triggered only because it was when last added, or because a collection since
      then found its deadline come. */
  ghost predicate LitBy(q: Queue, key: Key, a: Armed) {
    WellFormed(q.events) && (Lit(q.events, key) ==> a.carried || Due(EntryOf(q.events, key)[0], a.latest))
  }

  lemma LitByStep(q: Queue, op: Op, key: Key, a: Armed)
    requires LitBy(q, key, a) && NotByHand(op, key)
    ensures LitBy(Step(q, op), key, Track(q, op, key, a))
  {
    StepWellFormed(q, op);
    var r := StepOne(q, op, key);
    if op.Get? && !q.closed && EntryOf(q.events, key) != [] { ServeLights(Expired(EntryOf(q.events, key)[0], op.now), r); }
  }

  /** Serving triggers nothing that was not triggered, and leaves deadlines alone. */
  lemma {:induction false} ServeLights(e: EqueueEvent, room: nat)
    requires Sane(e)
    ensures var s := Serve(e, room);
            && (s.out != [] ==> e.triggered)
            && (s.left != [] ==> s.left[0].deadlineNs == e.deadlineNs && (s.left[0].triggered ==> e.triggered))
    decreases room
  {
    if e.triggered && room > 0 && !e.event.OneShot() { ServeLights(Advanced(e), room - 1); }
  }

  lemma {:induction false} LitByRun(q: Queue, ops: seq<Op>, key: Key, a: Armed)
    requires LitBy(q, key, a) && forall i :: 0 <= i < |ops| ==> NotByHand(ops[i], key)
    ensures LitBy(Run(q, ops), key, TrackAll(q, ops, key, a))
    decreases |ops|
  {
    if ops != [] {
      LitByStep(q, ops[0], key, a);
      LitByRun(Step(q, ops[0]), ops[1..], key, Track(q, ops[0], key, a));
    }
  }

  /** In every run, with the key added and deleted any number of times but not triggered by hand, a
      collection hands it out before its current deadline only if it was already triggered when it was
      last added. */
  lemma TimerNotEarly(q: Queue, ops: seq<Op>, now: nat, num: nat, key: Key, a: Armed)
    requires LitBy(q, key, a) && forall i :: 0 <= i < |ops| ==> NotByHand(ops[i], key)
    requires TrackAll(q, ops, key, a).latest <= now
    ensures var q' := Run(q, ops);
            Of(Output(q', Get(now, num)), key) != [] ==>
              EntryOf(q'.events, key) != [] && (TrackAll(q, ops, key, a).carried || Due(EntryOf(q'.events, key)[0], now))
  {
    var q' := Run(q, ops);
    LitByRun(q, ops, key, a);
    var r := StepOne(q', Get(now, num), key);
    if !q'.closed && EntryOf(q'.events, key) != [] { ServeLights(Expired(EntryOf(q'.events, key)[0], now), r); }
  }

  /** A one-shot timer is triggered exactly for one of these two reasons. */
  ghost predicate LitExactly(q: Queue, key: Key, a: Armed) {
    && WellFormed(q.events) && TimerOrGone(EntryOf(q.events, key))
    && (EntryOf(q.events, key) != [] ==> (Lit(q.events, key) <==> a.carried || Due(EntryOf(q.events, key)[0], a.latest)))
  }

  lemma LitExactlyStep(q: Queue, op: Op, key: Key, a: Armed)
    requires LitExactly(q, key, a) && NotByHand(op, key) && TimerOp(op, key)
    ensures LitExactly(Step(q, op), key, Track(q, op, key, a))
  {
    StepWellFormed(q, op);
    var r := StepOne(q, op, key);
  }

  lemma {:induction false} LitExactlyRun(q: Queue, ops: seq<Op>, key: Key, a: Armed)
    requires LitExactly(q, key, a) && forall i :: 0 <= i < |ops| ==> NotByHand(ops[i], key) && TimerOp(ops[i], key)
    ensures LitExactly(Run(q, ops), key, TrackAll(q, ops, key, a))
    decreases |ops|
  {
    if ops != [] {
      LitExactlyStep(q, ops[0], key, a);
      LitExactlyRun(Step(q, ops[0]), ops[1..], key, Track(q, ops[0], key, a));
    }
  }

  /** When a one-shot timer is handed out, in every run: by a collection that does not fill its buffer if
      and only if its current deadline has come or it was already triggered when it was last added. */
  lemma TimerExactly(q: Queue, ops: seq<Op>, now: nat, num: nat, key: Key, a: Armed)
    requires LitExactly(q, key, a) && forall i :: 0 <= i < |ops| ==> NotByHand(ops[i], key) && TimerOp(ops[i], key)
    requires TrackAll(q, ops, key, a).latest <= now && !Run(q, ops).closed && EntryOf(Run(q, ops).events, key) != []
    requires |Output(Run(q, ops), Get(now, num))| < num
    ensures var q' := Run(q, ops);
            Of(Output(q', Get(now, num)), key) != [] <==>
              TrackAll(q, ops, key, a).carried || Due(EntryOf(q'.events, key)[0], now)
  {
    var q' := Run(q, ops);
    LitExactlyRun(q, ops, key, a);
    if Lit(q'.events, key) || Due(EntryOf(q'.events, key)[0], now) {
      TimerDue(q', now, num, key);
    } else {
      var r := StepOne(q', Get(now, num), key);
    }
  }

  const KERNEL_EVFILT_HRTIMER := -15

  /** What KernelAddHRTimerEvent registers. */
  function TimerEvent(id: nat, deadlineNs: nat): EqueueEvent {
    EqueueEvent(false, deadlineNs, KernelEvent(Key(id, KERNEL_EVFILT_HRTIMER), EV_ADD + EV_ONESHOT, 0, 0, 0), NoTrigger, NoReset, [])
  }

  /** A timer that a full buffer left triggered stays so when it is added again with a later deadline,
      and the next collection hands it out at once. */
  lemma RearmedButEarly()
    ensures var q := Queue([TimerEvent(5, 10), TimerEvent(6, 10)], false);
            var q1 := Step(Step(q, Get(10, 1)), Add(TimerEvent(6, 1000)));
            Output(q, Get(10, 1)) == [TimerEvent(5, 10).event] && Output(q1, Get(11, 1)) == [TimerEvent(6, 1000).event]
  {
    var six := TimerEvent(6, 10).(triggered := true);
    FirstLeavesSecond(TimerEvent(5, 10), TimerEvent(6, 10));
    AddedAgain(six, TimerEvent(6, 1000));
    var again := six.(deadlineNs := 1000);
    assert ExpiredAll([again], 11) == [again];
    OneAlone(again);
  }

  /** Of two due timers a buffer for one takes the first; the second stays, triggered. */
  lemma FirstLeavesSecond(e: EqueueEvent, f: EqueueEvent)
    requires e.event.OneShot() && !e.triggered && !f.triggered && e.deadlineNs == f.deadlineNs == 10
    ensures Output(Queue([e, f], false), Get(10, 1)) == [e.event]
    ensures Step(Queue([e, f], false), Get(10, 1)) == Queue([f.(triggered := true)], false)
  {
    assert ExpiredAll([e, f], 10) == [e.(triggered := true), f.(triggered := true)];
    OneOfTwo(e.(triggered := true), f.(triggered := true));
  }

  lemma AddedAgain(e: EqueueEvent, again: EqueueEvent)
    requires again.event.key == e.event.key && again.event.udata == e.event.udata && e.pending == []
    ensures Step(Queue([e], false), Add(again)) == Queue([e.(deadlineNs := again.deadlineNs)], false)
  {
    assert Retagged([], again.event.udata) == [];
  }

  lemma OneAlone(e: EqueueEvent)
    requires e.triggered && e.event.OneShot()
    ensures ServeAll([e], 1) == Served([e.event], [])
  {
    assert Serve(e, 1) == Served([e.event], []);
    assert ServeAll([], 0) == Served([], []);
  }

  lemma OneOfTwo(e: EqueueEvent, f: EqueueEvent)
    requires e.triggered && e.event.OneShot()
    ensures ServeAll([e, f], 1) == Served([e.event], [f])
  {
    assert Serve(e, 1) == Served([e.event], []);
    assert [e, f][1..] == [f] && ServeAll([f], 0) == Served([], [f]);
    assert [] + [f] == [f] && [e.event] + [] == [e.event];
  }

  // ----- what a collection leaves -----

  /** A collection that did not fill its buffer left nothing triggered. */
  lemma {:induction false} ServeAllDrains(events: seq<EqueueEvent>, room: nat)
    ensures |ServeAll(events, room).out| <= room
    ensures |ServeAll(events, room).out| < room ==>
              forall i :: 0 <= i < |ServeAll(events, room).left| ==> !ServeAll(events, room).left[i].triggered
    decreases |events|
  {
    if events != [] && room > 0 {
      ServeFits(events[0], room);
      ServeDrains(events[0], room);
      ServeAllDrains(events[1..], room - |Serve(events[0], room).out|);
    }
  }

  lemma {:induction false} ServeDrains(e: EqueueEvent, room: nat)
    ensures |Serve(e, room).out| < room ==> Serve(e, room).left == [] || !Serve(e, room).left[0].triggered
    decreases room
  {
    if e.triggered && room > 0 && !e.event.OneShot() { ServeDrains(Advanced(e), room - 1); }
  }

  /** A timer that is due is handed out by the next collection that does not fill its buffer, and is
      then gone; a full buffer may leave it, but triggered. */
  lemma TimerDue(q: Queue, now: nat, num: nat, key: Key)
    requires WellFormed(q.events) && !q.closed && num > 0
    requires var entry := EntryOf(q.events, key);
             entry != [] && TimerOrGone(entry) && (entry[0].triggered || 0 < entry[0].deadlineNs <= now)
    ensures var e, out, after := EntryOf(q.events, key)[0], Output(q, Get(now, num)), EntryOf(Step(q, Get(now, num)).events, key);
            && (after == [] <==> Of(out, key) == [e.event])
            && (after != [] <==> after == [e.(triggered := true)] && Of(out, key) == [])
            && (after != [] ==> |out| == num)
  {
    var e := EntryOf(q.events, key)[0];
    var events := ExpiredAll(q.events, now);
    var r := StepOne(q, Get(now, num), key);
    assert Expired(e, now) == e.(triggered := true);
    ServeAllDrains(events, num);
    var left := ServeAll(events, num).left;
    var i := Find(left, key);
    assert i < |left| ==> EntryOf(left, key) == [left[i]];
  }

  /** A level-triggered user event is copied until the buffer is full, and stays triggered. */
  lemma {:induction false} LevelFills(e: EqueueEvent, room: nat)
    requires e.triggered && e.pending == [] && !e.event.OneShot() && !Resets(e.reset, e.event)
    ensures Serve(e, room) == Served(seq(room, i => e.event), [e])
    decreases room
  {
    if room > 0 {
      LevelFills(e, room - 1);
      assert [e.event] + seq(room - 1, i => e.event) == seq(room, i => e.event);
    }
  }

  function FiredAll(e: EqueueEvent, data: seq<int>): EqueueEvent
    decreases |data|
  {
    if data == [] then e else FiredAll(Fired(e, data[0]), data[1..])
  }

  /** Any number of triggers of an edge user event are delivered as one, carrying the last data. */
  lemma {:induction false} EdgeCoalesces(e: EqueueEvent, data: seq<int>, room: nat)
    requires e.trigger == UserTrigger && Edge(e.event) && e.pending == [] && data != [] && room > 0
    ensures var last := data[|data| - 1]; var s := Serve(FiredAll(e, data), room);
            s.out == [e.event.(data := last, udata := last)] && |s.left| == 1 && !s.left[0].triggered
    decreases |data|
  {
    var f := Fired(e, data[0]);
    if |data| > 1 {
      EdgeCoalesces(f, data[1..], room);
    } else {
      assert Serve(Advanced(f), room - 1).out == [];
    }
  }

  // ----- the fields of events -----

  /** A trigger changes the registration's state, event and pending events only. */
  ghost predicate SameRegistration(e: EqueueEvent, f: EqueueEvent) {
    f.deadlineNs == e.deadlineNs && f.trigger == e.trigger && f.reset == e.reset && f.event.key == e.event.key
  }

  /** What is waiting to be delivered: the current event if triggered, then the pending ones. */
  function Held(e: EqueueEvent): seq<KernelEvent> {
    if e.triggered then [e.event] + e.pending else []
  }

  /** The event n was made of the registered one by a trigger: AMPR sets the data alone; graphics adds one
      to fflags, modulo 2^32, and sets the data; video-out adds one to fflags up to 15, keeps the time in
      bits 0 to 11 and the payload from bit 16 on, and adds one up to 15 to the counter in bits 12 to 15. */
  ghost predicate MadeBy(trigger: TriggerFunc, was: KernelEvent, data: int, n: KernelEvent) {
    && n.key == was.key && n.flags == was.flags && n.udata == was.udata
    && (trigger == AmprTrigger ==> n.fflags == was.fflags && n.data == data)
    && (trigger == GraphicsTrigger ==> n.fflags == (was.fflags + 1) % 0x1_0000_0000 && n.data == data)
    && (trigger == VideoOutTrigger ==>
          var c, c' := was.data / 4096 % 16, n.data / 4096 % 16;
          && n.fflags == (if was.fflags < 15 then was.fflags + 1 else was.fflags)
          && n.data % 4096 == data % 4096 && n.data / 65536 == data / 65536 && c' == if c == 15 then 15 else c + 1)
  }

  /** A queueing trigger adds one event behind those that wait, made of the registered event. */
  lemma TriggerQueues(e: EqueueEvent, data: int) returns (n: KernelEvent)
    requires Sane(e) && (e.trigger == AmprTrigger || e.trigger == GraphicsTrigger || e.trigger == VideoOutTrigger)
    ensures MadeBy(e.trigger, e.event, data, n)
    ensures var f := Fired(e, data);
            && SameRegistration(e, f) && f.triggered && Held(f) == Held(e) + [n]
            && f.event == if e.triggered then e.event else n
  {
    n := Next(e.trigger, e.event, data);
    if e.trigger == VideoOutTrigger { VideoOutFields(e.event.data, data); }
    assert [e.event] + (e.pending + [n]) == [e.event] + e.pending + [n];
  }

  lemma VideoOutFields(current: int, data: int)
    ensures var n := VideoOutData(current, data); var c, c' := current / 4096 % 16, n / 4096 % 16;
            n % 4096 == data % 4096 && n / 65536 == data / 65536 && c' == if c == 15 then 15 else c + 1
  {
    var counter := current / 4096 % 16;
    var c := if counter < 15 then counter + 1 else counter;
    FieldsApart(data / 65536, c, data % 4096);
  }

  lemma FieldsApart(payload: int, counter: int, time: int)
    requires 0 <= counter < 16 && 0 <= time < 4096
    ensures var n := payload * 65536 + counter * 4096 + time;
            n % 4096 == time && n / 4096 % 16 == counter && n / 65536 == payload
  {
    var n := payload * 65536 + counter * 4096 + time;
    assert n / 4096 == payload * 16 + counter;
    assert n / 65536 == n / 4096 / 16;
  }

  /** A user trigger overwrites data and user data; a registration without trigger function is only marked. */
  lemma TriggerOverwrites(e: EqueueEvent, data: int)
    requires e.trigger == UserTrigger || e.trigger == NoTrigger
    ensures var f := Fired(e, data);
            && SameRegistration(e, f) && f.triggered && f.pending == e.pending && f.event.fflags == e.event.fflags && f.event.flags == e.event.flags
            && (e.trigger == UserTrigger ==> f.event.data == f.event.udata == data)
            && (e.trigger == NoTrigger ==> f.event == e.event)
  {
  }

  /** A registration whose events are neither level-triggered nor one-shot. */
  ghost predicate Steady(e: EqueueEvent) {
    Sane(e) && Spent(e.reset, e.event) && forall i :: 0 <= i < |e.pending| ==> Spent(e.reset, e.pending[i])
  }

  /** A collection hands out what waits, in order and with all its fields, as much as fits, and keeps the
      rest; when nothing is left, fflags and data of the registered event are zero. */
  lemma {:induction false} ServeHeld(e: EqueueEvent, room: nat)
    requires Steady(e)
    ensures var s, k := Serve(e, room), if room <= |Held(e)| then room else |Held(e)|;
            && s.out == Held(e)[..k] && |s.left| == 1 && Steady(s.left[0]) && SameRegistration(e, s.left[0])
            && Held(s.left[0]) == Held(e)[k..]
            && (0 < k == |Held(e)| ==> !s.left[0].triggered && s.left[0].event.fflags == s.left[0].event.data == 0)
    decreases room
  {
    if e.triggered && room > 0 {
      AdvanceHeld(e);
      ServeHeld(Advanced(e), room - 1);
    }
  }

  /** After a delivery the next pending event takes the place of the delivered one; if there is none, the
      trigger is taken back and fflags and data are zeroed, unless the registration is level-triggered. */
  lemma AfterDelivery(e: EqueueEvent)
    ensures var f := Advanced(e);
            && f.deadlineNs == e.deadlineNs && f.trigger == e.trigger && f.reset == e.reset
            && if e.pending != [] then f.triggered && f.event == e.pending[0] && f.pending == e.pending[1..]
               else f.pending == [] && SameRegistration(e, f) && f.event.flags == e.event.flags && f.event.udata == e.event.udata
                    && if e.reset == AlwaysReset || e.event.flags / 32 % 2 == 1
                       then !f.triggered && f.event.fflags == 0 && f.event.data == 0
                       else f == e
  {
  }

  lemma AdvanceHeld(e: EqueueEvent)
    requires Steady(e) && e.triggered
    ensures Steady(Advanced(e)) && Held(Advanced(e)) == e.pending && Held(e) == [e.event] + e.pending
    ensures e.pending == [] ==> !Advanced(e).triggered && Advanced(e).event.fflags == Advanced(e).event.data == 0
    ensures SameRegistration(e, Advanced(e))
  {
    if e.pending != [] { assert [e.pending[0]] + e.pending[1..] == e.pending; }
  }

  /** A one-shot registration is handed out once and is gone. */
  lemma OneShotOnce(e: EqueueEvent, room: nat)
    requires e.triggered && e.event.flags / 16 % 2 == 1 && room > 0
    ensures Serve(e, room) == Served([e.event], [])
  {
  }

  /** The deadline marks a registration as triggered when it has come, unless there is none. */
  lemma DeadlineMarks(e: EqueueEvent, now: nat)
    ensures Expired(e, now).triggered <==> e.triggered || (e.deadlineNs != 0 && e.deadlineNs <= now)
    ensures Expired(e, now).(triggered := e.triggered) == e
  {
  }

  /** Adding a new key appends a registration; adding a key again changes nothing but its deadline and the
      user data of its current and pending events, and nothing of other registrations. */
  lemma AddAgain(q: Queue, e: EqueueEvent)
    requires !q.closed && WellFormed(q.events)
    ensures var i, after := Find(q.events, e.event.key), Step(q, Add(e)).events;
            if i == |q.events| then after == q.events + [e]
            else
              && |after| == |q.events| && (forall j :: 0 <= j < |after| && j != i ==> after[j] == q.events[j])
              && OnlyRefreshed(q.events[i], after[i], e.deadlineNs, e.event.udata)
  {
  }

  ghost predicate OnlyRefreshed(e: EqueueEvent, f: EqueueEvent, deadlineNs: nat, udata: int) {
    && f.deadlineNs == deadlineNs && f.triggered == e.triggered && f.trigger == e.trigger && f.reset == e.reset
    && OnlyTagged(e.event, f.event, udata)
    && |f.pending| == |e.pending| && forall i :: 0 <= i < |f.pending| ==> OnlyTagged(e.pending[i], f.pending[i], udata)
  }

  ghost predicate OnlyTagged(e: KernelEvent, f: KernelEvent, udata: int) {
    f.udata == udata && f.key == e.key && f.flags == e.flags && f.fflags == e.fflags && f.data == e.data
  }

  /** The registrations of two events handed out are in that order in the list. */
  ghost predicate InListOrder(events: seq<EqueueEvent>, e: KernelEvent, f: KernelEvent) {
    Find(events, e.key) <= Find(events, f.key) < |events|
  }

  /** All events are of registrations, and those of one in front come before those of one behind. */
  ghost predicate InOrder(events: seq<EqueueEvent>, out: seq<KernelEvent>) {
    && (forall a :: 0 <= a < |out| ==> Find(events, out[a].key) < |events|)
    && forall a, b :: 0 <= a < b < |out| ==> InListOrder(events, out[a], out[b])
  }

  /** A collection goes through the registrations in the order of the list. */
  lemma {:induction false} ServedInListOrder(events: seq<EqueueEvent>, room: nat)
    requires WellFormed(events)
    ensures InOrder(events, ServeAll(events, room).out)
    decreases |events|
  {
    if events != [] && room > 0 {
      var s := Serve(events[0], room);
      ServeAllFirst(events, room);
      ServeSane(events[0], room);
      ServedInListOrder(events[1..], room - |s.out|);
      InOrderCons(events, s.out, ServeAll(events[1..], room - |s.out|).out);
    }
  }

  lemma InOrderCons(events: seq<EqueueEvent>, s: seq<KernelEvent>, t: seq<KernelEvent>)
    requires WellFormed(events) && events != [] && AllKey(s, events[0].event.key) && InOrder(events[1..], t)
    ensures InOrder(events, s + t)
  {
    forall a | 0 <= a < |t| ensures Find(events, t[a].key) == 1 + Find(events[1..], t[a].key) < |events| { NotFirst(events, t[a].key); }
    var out := s + t;
    forall a, b | 0 <= a < b < |out| ensures InListOrder(events, out[a], out[b]) {
      if a >= |s| { assert InListOrder(events[1..], t[a - |s|], t[b - |s|]); }
    }
  }

  lemma NotFirst(events: seq<EqueueEvent>, key: Key)
    requires WellFormed(events) && events != [] && Find(events[1..], key) < |events| - 1
    ensures Find(events, key) == 1 + Find(events[1..], key)
  {
    assert events[1..][Find(events[1..], key)] == events[1 + Find(events[1..], key)];
  }
}
