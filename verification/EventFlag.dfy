// Kernel event flags: src/kernel/eventFlag.cpp.
//
// A 64-bit word of flags guarded by one mutex and one condition variable.  A wait runs as a sequence of
// locked regions: one when it starts and one each time it wakes from the condition variable, for
// whatever reason.  A word is modelled as the set of its bits that are on.
module EventFlag {
  import opened Wrappers

  type Word = set<nat>

  datatype Result = Ok | AlreadyWaiting | TimedOut | Canceled | Deleted
  datatype WaitMode = And | Or
  datatype ClearMode = Never | All | Bits

  /** What a wait asks for. */
  datatype Request = Request(want: Word, wait: WaitMode, clear: ClearMode)

  datatype Flag = Flag(single: bool, bits: Word, status: Result, closed: bool, waiters: int)

  predicate Matches(bits: Word, req: Request) {
    if req.wait == And then req.want <= bits else req.want * bits != {}
  }

  function Cleared(bits: Word, req: Request): Word {
    match req.clear
    case All => {}
    case Bits => bits - req.want
    case Never => bits
  }

  datatype Outcome = Outcome(flag: Flag, result: Option<Result>)

  /** One pass through the head of the wait loop: return, or count oneself as a waiter and park. */
  function Check(f: Flag, req: Request, expired: bool): Outcome {
    if Matches(f.bits, req) then Outcome(f.(bits := Cleared(f.bits, req)), Some(Ok))
    else if f.closed then Outcome(f, Some(Deleted))
    else if f.status == Canceled then Outcome(f.(status := Ok), Some(Canceled))
    else if expired then Outcome(f, Some(TimedOut))
    else Outcome(f.(waiters := f.waiters + 1), None)
  }

  function Enter(f: Flag, req: Request, expired: bool): Outcome {
    if f.single && f.waiters != 0 then Outcome(f, Some(AlreadyWaiting)) else Check(f, req, expired)
  }

  function Resume(f: Flag, req: Request, expired: bool): Outcome {
    Check(f.(waiters := f.waiters - 1), req, expired)
  }

  // What the other calls do.  A closed flag changes no more.

  function AfterSet(f: Flag, b: Word): Flag {
    if f.closed then f else f.(bits := f.bits + b, status := Ok)
  }

  function AfterClear(f: Flag, b: Word): Flag {
    if f.closed then f else f.(bits := f.bits * b)
  }

  function AfterCancel(f: Flag, b: Word): Flag {
    if f.closed then f else f.(bits := b, status := Canceled)
  }

  function AfterClose(f: Flag): Flag {
    if f.closed then f else f.(closed := true, status := Deleted)
  }

  class KernelEventFlagPrivate {
    const single: bool
    var bits: Word
    var status: Result
    var closed: bool
    var waiters: int

    ghost function State(): Flag
      reads this
    {
      Flag(single, bits, status, closed, waiters)
    }

    constructor (s: bool, b: Word)
      ensures State() == Flag(s, b, Ok, false, 0)
    {
      single, bits, status, closed, waiters := s, b, Ok, false, 0;
    }

    method Close()
      modifies this
      ensures State() == AfterClose(old(State()))
    {
      if closed { return; }
      closed := true;
      status := Deleted;
    }

    method Set(b: Word)
      modifies this
      ensures State() == AfterSet(old(State()), b)
    {
      if !closed {
        bits := bits + b;
        status := Ok;
      }
    }

    /** Keeps only the bits of b. */
    method Clear(b: Word)
      modifies this
      ensures State() == AfterClear(old(State()), b)
    {
      if !closed { bits := bits * b; }
    }

    method Cancel(b: Word) returns (n: int)
      modifies this
      ensures n == old(waiters)
      ensures State() == AfterCancel(old(State()), b)
    {
      n := waiters;
      if !closed {
        bits := b;
        status := Canceled;
      }
    }

    /** The wait loop from the lock to the next park or return. */
    method WaitLoop(req: Request, expired: bool) returns (r: Option<Result>, out: Word)
      modifies this
      ensures Outcome(State(), r) == Check(old(State()), req, expired) && out == old(bits)
    {
      out := bits;
      var match_ := if req.wait == And then req.want <= bits else req.want * bits != {};
      if !match_ {
        if closed { return Some(Deleted), out; }
        if status == Canceled {
          status := Ok;
          return Some(Canceled), out;
        }
        if expired { return Some(TimedOut), out; }
        waiters := waiters + 1;
        return None, out;
      }
      if req.clear == All {
        bits := {};
      } else if req.clear == Bits {
        bits := bits - req.want;
      }
      r := Some(Ok);
    }

    /** The first locked region of a wait. */
    method StartWait(req: Request, expired: bool) returns (r: Option<Result>, out: Word)
      modifies this
      ensures Outcome(State(), r) == Enter(old(State()), req, expired)
      ensures r.Some? && r != Some(AlreadyWaiting) ==> out == old(bits)
    {
      if single && waiters != 0 { return Some(AlreadyWaiting), {}; }
      r, out := WaitLoop(req, expired);
    }

    /** A later locked region: the wait has woken up. */
    method ResumeWait(req: Request, expired: bool) returns (r: Option<Result>, out: Word)
      modifies this
      ensures Outcome(State(), r) == Resume(old(State()), req, expired)
      ensures r.Some? && r != Some(AlreadyWaiting) ==> out == old(bits)
    {
      waiters := waiters - 1;
      r, out := WaitLoop(req, expired);
    }
  }

  // ----- any number of threads -----

  /** The flag with the waits that are parked on it, by thread. */
  datatype System = System(flag: Flag, parked: map<nat, Request>)

  /** One locked region.  A wake is a signal, the end of a time slice, or spurious; `expired` says
      whether the deadline has passed. */
  datatype Action =
    | Set(b: Word)
    | Clear(b: Word)
    | Cancel(b: Word)
    | Close
    | Start(id: nat, req: Request, expired: bool)
    | Wake(id: nat, expired: bool)

  datatype Effect = Effect(after: System, result: Option<Result>)

  function Parked(p: map<nat, Request>, id: nat, req: Request, o: Outcome): Effect {
    Effect(System(o.flag, if o.result == None then p[id := req] else p - {id}), o.result)
  }

  function Do(s: System, a: Action): Effect {
    var f := s.flag;
    match a
    case Set(b) => Effect(s.(flag := AfterSet(f, b)), None)
    case Clear(b) => Effect(s.(flag := AfterClear(f, b)), None)
    case Cancel(b) => Effect(s.(flag := AfterCancel(f, b)), None)
    case Close => Effect(s.(flag := AfterClose(f)), None)
    case Start(id, req, expired) =>
      if id in s.parked then Effect(s, None) else Parked(s.parked, id, req, Enter(f, req, expired))
    case Wake(id, expired) =>
      if id !in s.parked then Effect(s, None) else Parked(s.parked, id, s.parked[id], Resume(f, s.parked[id], expired))
  }

  function Run(s: System, actions: seq<Action>): System
    decreases |actions|
  {
    if actions == [] then s else Run(Do(s, actions[0]).after, actions[1..])
  }

  /** `waiters` is the number of parked threads, at most one in single mode; a closed flag has nothing
      to cancel. */
  ghost predicate Inv(s: System) {
    && s.flag.waiters == |s.parked|
    && (s.flag.single ==> |s.parked| <= 1)
    && (s.flag.closed ==> s.flag.status != Canceled)
  }

  lemma ParkSize(p: map<nat, Request>, id: nat, req: Request)
    ensures |p[id := req]| == if id in p then |p| else |p| + 1
    ensures |p - {id}| == if id in p then |p| - 1 else |p|
    ensures id in p ==> |p| >= 1
  {
    assert p[id := req].Keys == p.Keys + {id};
    assert (p - {id}).Keys == p.Keys - {id};
    assert |p[id := req]| == |p[id := req].Keys| && |p - {id}| == |(p - {id}).Keys| && |p| == |p.Keys|;
  }

  lemma DoKeepsInv(s: System, a: Action)
    requires Inv(s)
    ensures Inv(Do(s, a).after)
  {
    match a {
      case Start(id, req, expired) => if id !in s.parked { StartKeepsInv(s, id, req, expired); }
      case Wake(id, expired) => if id in s.parked { WakeKeepsInv(s, id, expired); }
      case _ =>
    }
  }

  lemma StartKeepsInv(s: System, id: nat, req: Request, expired: bool)
    requires Inv(s) && id !in s.parked
    ensures Inv(Parked(s.parked, id, req, Enter(s.flag, req, expired)).after)
  {
    ParkKeepsInv(s, id, req, Enter(s.flag, req, expired));
  }

  lemma WakeKeepsInv(s: System, id: nat, expired: bool)
    requires Inv(s) && id in s.parked
    ensures Inv(Parked(s.parked, id, s.parked[id], Resume(s.flag, s.parked[id], expired)).after)
  {
    ParkKeepsInv(s, id, s.parked[id], Resume(s.flag, s.parked[id], expired));
  }

  lemma ParkKeepsInv(s: System, id: nat, req: Request, o: Outcome)
    requires Inv(s) && o.flag.single == s.flag.single && (o.flag.closed ==> o.flag.status != Canceled)
    requires var others := |s.parked| - Count(id in s.parked);
             if o.result == None then o.flag.waiters == others + 1 && (s.flag.single ==> others == 0) else o.flag.waiters == others
    ensures Inv(Parked(s.parked, id, req, o).after)
  {
    ParkSize(s.parked, id, req);
  }

  lemma {:induction false} RunKeepsInv(s: System, actions: seq<Action>)
    requires Inv(s)
    ensures Inv(Run(s, actions))
    decreases |actions|
  {
    if actions != [] {
      DoKeepsInv(s, actions[0]);
      RunKeepsInv(Do(s, actions[0]).after, actions[1..]);
    }
  }

  /** A wait changes the bits only when it returns OK, and returns OK exactly when it matches. */
  lemma OnlyOkChangesBits(s: System, a: Action)
    requires a.Start? || a.Wake?
    ensures Do(s, a).after.flag.bits != s.flag.bits ==> Do(s, a).result == Some(Ok)
    ensures a.Wake? && a.id in s.parked ==> (Do(s, a).result == Some(Ok) <==> Matches(s.flag.bits, s.parked[a.id]))
    ensures a.Start? && a.id !in s.parked ==>
              (Do(s, a).result == Some(Ok) <==> Matches(s.flag.bits, a.req) && !(s.flag.single && s.flag.waiters != 0))
  {
  }

  // ----- consuming waits -----

  /** The request of the wait that a step belongs to. */
  function RequestOf(s: System, a: Action): Option<Request> {
    match a
    case Start(id, req, _) => if id in s.parked then None else Some(req)
    case Wake(id, _) => if id in s.parked then Some(s.parked[id]) else None
    case _ => None
  }

  /** The step is a locked region of a wait with that request; a thread whose wait is parked starts no other. */
  predicate IsWait(s: System, a: Action, q: Request) {
    match a
    case Start(id, req, _) => id !in s.parked && req == q
    case Wake(id, _) => id in s.parked && s.parked[id] == q
    case _ => false
  }

  predicate Refused(s: System, a: Action) {
    a.Start? && s.flag.single && s.flag.waiters != 0
  }

  /** What a wait does to a bit. */
  lemma WaitBit(s: System, a: Action, q: Request, b: nat)
    requires IsWait(s, a, q)
    ensures var was, now := b in s.flag.bits, b in Do(s, a).after.flag.bits;
            if Do(s, a).result == Some(Ok) then now == (was && (q.clear == Never || (q.clear == Bits && b !in q.want)))
            else now == was
  {
  }

  /** What the other calls do to a bit of an open flag, and to the mark of a Cancel; a closed flag does not
      change. */
  lemma CallBit(s: System, a: Action, b: nat)
    requires !a.Start? && !a.Wake?
    ensures Do(s, a).after.parked == s.parked && Do(s, a).result == None
    ensures var f, f', was, now := s.flag, Do(s, a).after.flag, b in s.flag.bits, b in Do(s, a).after.flag.bits;
            && f'.single == f.single && f'.waiters == f.waiters && f'.closed == (f.closed || a.Close?)
            && if f.closed then f'.status == f.status && now == was
               else match a
                    case Set(x) => now == (was || b in x) && f'.status == Ok
                    case Clear(x) => now == (was && b in x) && f'.status == f.status
                    case Cancel(x) => now == (b in x) && f'.status == Canceled
                    case _ => now == was && f'.status == Deleted
  {
    match a {
      case Set(x) =>
      case Clear(x) =>
      case Cancel(x) =>
      case Close =>
    }
  }

  /** How a locked region of a wait ends, in this order: refused; satisfied, if all the bits it asks for are
      on, or one of them; the flag is closed; a Cancel is there to be seen, which takes it back; the
      deadline has passed; or it parks. */
  lemma WaitResult(s: System, a: Action, q: Request)
    requires IsWait(s, a, q)
    ensures var f, r := s.flag, Do(s, a).result;
            if Refused(s, a) then r == Some(AlreadyWaiting)
            else if q.wait == And && forall x :: x in q.want ==> x in f.bits then r == Some(Ok)
            else if q.wait == Or && exists x :: x in q.want && x in f.bits then r == Some(Ok)
            else if f.closed then r == Some(Deleted)
            else if f.status == Canceled then r == Some(Canceled)
            else r == if a.expired then Some(TimedOut) else None
    ensures Do(s, a).after.flag.status == if Do(s, a).result == Some(Canceled) then Ok else s.flag.status
    ensures Do(s, a).after.flag.closed == s.flag.closed && Do(s, a).after.flag.single == s.flag.single
  {
    if q.wait == Or {
      if x :| x in q.want && x in s.flag.bits { assert x in q.want * s.flag.bits; }
      else { assert q.want * s.flag.bits == {}; }
    } else {
      assert q.want <= s.flag.bits <==> forall x :: x in q.want ==> x in s.flag.bits;
    }
  }

  /** A wait without a result is parked with its request, one with a result is not, and no other wait is
      affected. */
  lemma WhoIsParked(s: System, a: Action, q: Request, t: nat)
    requires IsWait(s, a, q)
    ensures var p, p' := s.parked, Do(s, a).after.parked;
            if t != a.id then (t in p' <==> t in p) && (t in p ==> p'[t] == p[t])
            else (t in p' <==> Do(s, a).result == None) && (t in p' ==> p'[t] == q)
  {
  }

  /** The step is an OK return of an AND-wait for bit b. */
  predicate Takes(s: System, a: Action, b: nat) {
    var q := RequestOf(s, a);
    q.Some? && Do(s, a).result == Some(Ok) && q.value.wait == And && b in q.value.want
  }

  /** It takes the bit away too. */
  predicate Consumes(s: System, a: Action, b: nat) {
    Takes(s, a, b) && RequestOf(s, a).value.clear != Never
  }

  /** The step turns bit b on (again). */
  predicate Provides(s: System, a: Action, b: nat) {
    !s.flag.closed && (a.Set? || a.Cancel?) && b in a.b
  }

  lemma OneStepOfABit(s: System, a: Action, b: nat)
    ensures b in Do(s, a).after.flag.bits ==> b in s.flag.bits || Provides(s, a, b)
    ensures Takes(s, a, b) ==> b in s.flag.bits
    ensures Consumes(s, a, b) ==> b !in Do(s, a).after.flag.bits
  {
  }

  /** A bit that is off and later on was turned on in between. */
  lemma {:induction false} TurnedOn(s: System, actions: seq<Action>, b: nat) returns (k: nat)
    requires b !in s.flag.bits && b in Run(s, actions).flag.bits
    ensures k < |actions| && Provides(Run(s, actions[..k]), actions[k], b)
    decreases |actions|
  {
    var s' := Do(s, actions[0]).after;
    OneStepOfABit(s, actions[0], b);
    if b in s'.flag.bits {
      k := 0;
    } else {
      var j := TurnedOn(s', actions[1..], b);
      k := j + 1;
      assert actions[..k][1..] == actions[1..][..j];
    }
  }

  /** Between two OK AND-waits for bit b, the first of which clears, some Set or Cancel on the open
      flag turned b on again. */
  lemma SetBetweenConsumers(s: System, first: Action, between: seq<Action>, last: Action, b: nat) returns (k: nat)
    requires Consumes(s, first, b) && Takes(Run(Do(s, first).after, between), last, b)
    ensures k < |between| && Provides(Run(Do(s, first).after, between[..k]), between[k], b)
  {
    OneStepOfABit(s, first, b);
    OneStepOfABit(Run(Do(s, first).after, between), last, b);
    k := TurnedOn(Do(s, first).after, between, b);
  }

  function Count(on: bool): nat { if on then 1 else 0 }

  function Consumed(s: System, actions: seq<Action>, b: nat): nat
    decreases |actions|
  {
    if actions == [] then 0 else Count(Consumes(s, actions[0], b)) + Consumed(Do(s, actions[0]).after, actions[1..], b)
  }

  function Provided(s: System, actions: seq<Action>, b: nat): nat
    decreases |actions|
  {
    if actions == [] then 0 else Count(Provides(s, actions[0], b)) + Provided(Do(s, actions[0]).after, actions[1..], b)
  }

  /** A flag is never consumed more often than it was provided, in any run. */
  lemma {:induction false} ConsumedAtMostProvided(s: System, actions: seq<Action>, b: nat)
    ensures Consumed(s, actions, b) + Count(b in Run(s, actions).flag.bits) <= Count(b in s.flag.bits) + Provided(s, actions, b)
    decreases |actions|
  {
    if actions != [] {
      OneStepOfABit(s, actions[0], b);
      ConsumedAtMostProvided(Do(s, actions[0]).after, actions[1..], b);
    }
  }

  // ----- cancelling and closing -----

  function CanceledReturns(s: System, actions: seq<Action>): nat
    decreases |actions|
  {
    if actions == [] then 0
    else Count(Do(s, actions[0]).result == Some(Canceled)) + CanceledReturns(Do(s, actions[0]).after, actions[1..])
  }

  function Cancels(actions: seq<Action>): nat {
    if actions == [] then 0 else Count(actions[0].Cancel?) + Cancels(actions[1..])
  }

  /** Each Cancel makes at most one wait return Canceled: the wait that sees it takes it back. */
  lemma {:induction false} OneReturnPerCancel(s: System, actions: seq<Action>)
    ensures CanceledReturns(s, actions) + Count(Run(s, actions).flag.status == Canceled) <= Cancels(actions) + Count(s.flag.status == Canceled)
    decreases |actions|
  {
    if actions != [] { OneReturnPerCancel(Do(s, actions[0]).after, actions[1..]); }
  }

  /** So a Cancel that counts two parked waiters need not cancel both: the second parks again. */
  lemma CountedButNotCanceled(req: Request)
    requires req.want != {}
    ensures var s := System(Flag(false, {}, Ok, false, 2), map[0 := req, 1 := req]);
            var s1 := Do(s, Cancel({})).after;
            var first := Do(s1, Wake(0, false));
            var second := Do(first.after, Wake(1, false));
            Inv(s) && first.result == Some(Canceled) && second.result == None && 1 in second.after.parked
  {
    var p := map[0 := req, 1 := req];
    assert p.Keys == {0, 1} && |p| == |p.Keys|;
    assert 1 in p - {0};
  }

  // ----- whom a Cancel reaches, in every run -----

  /** The mark of a Cancel is there to be seen. */
  predicate Marked(s: System) {
    !s.flag.closed && s.flag.status == Canceled
  }

  predicate NoCancel(actions: seq<Action>) {
    forall i :: 0 <= i < |actions| ==> !actions[i].Cancel?
  }

  /** No Set and no Close, which both take the mark away. */
  predicate Undisturbed(actions: seq<Action>) {
    forall i :: 0 <= i < |actions| ==> !actions[i].Set? && !actions[i].Close?
  }

  /** Until the next Cancel the mark stays as long as nothing takes it, and never comes back. */
  lemma {:induction false} MarkStays(s: System, actions: seq<Action>)
    requires NoCancel(actions)
    ensures Marked(Run(s, actions)) <==> Marked(s) && Undisturbed(actions) && CanceledReturns(s, actions) == 0
    decreases |actions|
  {
    if actions != [] {
      MarkStep(s, actions[0]);
      MarkStays(Do(s, actions[0]).after, actions[1..]);
      assert Undisturbed(actions) <==> !actions[0].Set? && !actions[0].Close? && Undisturbed(actions[1..]) by {
        assert forall i :: 0 <= i < |actions[1..]| ==> actions[1..][i] == actions[i + 1];
        assert forall i :: 1 <= i < |actions| ==> actions[i] == actions[1..][i - 1];
      }
    }
  }

  lemma MarkStep(s: System, a: Action)
    requires !a.Cancel?
    ensures Marked(Do(s, a).after) <==> Marked(s) && !a.Set? && !a.Close? && Do(s, a).result != Some(Canceled)
  {
  }

  /** The step is a pass of a wait through its loop: woken, or started and not refused. */
  predicate Looks(s: System, a: Action) {
    RequestOf(s, a).Some? && Do(s, a).result != Some(AlreadyWaiting)
  }

  lemma LookIsCanceled(s: System, a: Action)
    requires Looks(s, a)
    ensures Do(s, a).result == Some(Canceled) <==> Marked(s) && !Matches(s.flag.bits, RequestOf(s, a).value)
  {
  }

  /** Whom a Cancel on an open flag cancels: in every run up to the next Cancel, a wait that looks at the
      flag, whether it was parked before or has come since, returns Canceled if and only if no Set or Close
      came in between, no other wait took the mark, and the bits do not satisfy it. */
  lemma WhoIsCanceled(s: System, b: Word, actions: seq<Action>, a: Action)
    requires !s.flag.closed && NoCancel(actions)
    requires Looks(Run(Do(s, Cancel(b)).after, actions), a)
    ensures var s1 := Do(s, Cancel(b)).after; var s2 := Run(s1, actions);
            Do(s2, a).result == Some(Canceled)
            <==> Undisturbed(actions) && CanceledReturns(s1, actions) == 0 && !Matches(s2.flag.bits, RequestOf(s2, a).value)
  {
    var s1 := Do(s, Cancel(b)).after;
    MarkStays(s1, actions);
    LookIsCanceled(Run(s1, actions), a);
  }

  /** Before any Set or Close, some wait looks at the flag that the bits do not satisfy. */
  predicate SomeMiss(s: System, actions: seq<Action>)
    decreases |actions|
  {
    actions != [] && !actions[0].Set? && !actions[0].Close?
    && ((Looks(s, actions[0]) && !Matches(s.flag.bits, RequestOf(s, actions[0]).value))
        || SomeMiss(Do(s, actions[0]).after, actions[1..]))
  }

  /** In every run up to the next Cancel exactly one wait returns Canceled if there is such a wait, and
      none otherwise. */
  lemma {:induction false} OneIsCanceled(s: System, actions: seq<Action>)
    requires Marked(s) && NoCancel(actions)
    ensures CanceledReturns(s, actions) == Count(SomeMiss(s, actions))
    decreases |actions|
  {
    if actions != [] {
      var a, s', rest := actions[0], Do(s, actions[0]).after, actions[1..];
      MarkStep(s, a);
      if Looks(s, a) { LookIsCanceled(s, a); }
      if Marked(s') { OneIsCanceled(s', rest); } else { NoneIsCanceled(s', rest); }
    }
  }

  lemma {:induction false} NoneIsCanceled(s: System, actions: seq<Action>)
    requires !Marked(s) && NoCancel(actions)
    ensures CanceledReturns(s, actions) == 0
    decreases |actions|
  {
    if actions != [] {
      MarkStep(s, actions[0]);
      if Looks(s, actions[0]) { LookIsCanceled(s, actions[0]); }
      NoneIsCanceled(Do(s, actions[0]).after, actions[1..]);
    }
  }

  /** Step k is the first that wakes this wait. */
  ghost predicate FirstWake(actions: seq<Action>, id: nat, k: nat) {
    && k < |actions| && actions[k].Wake? && actions[k].id == id
    && forall i :: 0 <= i < k && actions[i].Wake? ==> actions[i].id != id
  }

  ghost predicate CanceledAt(s: System, actions: seq<Action>, k: nat) {
    k < |actions| && Do(Run(s, actions[..k]), actions[k]).result == Some(Canceled)
  }

  lemma {:induction false} StaysParked(s: System, actions: seq<Action>, id: nat)
    requires id in s.parked && forall i :: 0 <= i < |actions| && actions[i].Wake? ==> actions[i].id != id
    ensures id in Run(s, actions).parked && Run(s, actions).parked[id] == s.parked[id]
    decreases |actions|
  {
    if actions != [] { StaysParked(Do(s, actions[0]).after, actions[1..], id); }
  }

  lemma {:induction false} CanceledCounts(s: System, actions: seq<Action>, k: nat)
    requires CanceledAt(s, actions, k)
    ensures CanceledReturns(s, actions) > 0
    decreases k
  {
    if k > 0 {
      assert actions[..k][1..] == actions[1..][..k - 1];
      CanceledCounts(Do(s, actions[0]).after, actions[1..], k - 1);
    }
  }

  /** The wait finds the mark, and too few bits, when it first wakes at step k. */
  ghost predicate Reached(s1: System, actions: seq<Action>, req: Request, k: nat) {
    && k <= |actions| && Undisturbed(actions[..k]) && CanceledReturns(s1, actions[..k]) == 0
    && !Matches(Run(s1, actions[..k]).flag.bits, req)
  }

  /** A wait that the Cancel reported is cancelled when it first wakes if and only if it is so reached. */
  lemma ReportedIsCanceled(s: System, b: Word, actions: seq<Action>, id: nat, k: nat)
    requires !s.flag.closed && NoCancel(actions) && id in s.parked && FirstWake(actions, id, k)
    ensures var s1 := Do(s, Cancel(b)).after; CanceledAt(s1, actions, k) <==> Reached(s1, actions, s.parked[id], k)
  {
    var s1 := Do(s, Cancel(b)).after;
    StaysParked(s1, actions[..k], id);
    WhoIsCanceled(s, b, actions[..k], actions[k]);
  }

  /** All the waits that a Cancel reported are cancelled when they first wake, in any run up to the next
      Cancel, if and only if it reported none, or one that is so reached. */
  lemma AllReported(s: System, b: Word, actions: seq<Action>, first: map<nat, nat>)
    requires Inv(s) && !s.flag.closed && NoCancel(actions)
    requires forall id :: id in s.parked ==> id in first && FirstWake(actions, id, first[id])
    ensures var s1 := Do(s, Cancel(b)).after;
            (forall id :: id in s.parked ==> CanceledAt(s1, actions, first[id]))
            <==> s.flag.waiters <= 1 && forall id :: id in s.parked ==> Reached(s1, actions, s.parked[id], first[id])
  {
    var s1 := Do(s, Cancel(b)).after;
    forall id | id in s.parked ensures CanceledAt(s1, actions, first[id]) <==> Reached(s1, actions, s.parked[id], first[id]) {
      ReportedIsCanceled(s, b, actions, id, first[id]);
    }
    if s.flag.waiters > 1 { NotTwo(s1, actions, s.parked, first); }
  }

  lemma NotTwo(s1: System, actions: seq<Action>, p: map<nat, Request>, first: map<nat, nat>)
    requires |p| > 1 && forall id :: id in p ==> id in first && FirstWake(actions, id, first[id])
    ensures exists id :: id in p && (!CanceledAt(s1, actions, first[id]) || !Reached(s1, actions, p[id], first[id]))
  {
    assert |p.Keys| == |p|;
    var x, y := TwoOf(p.Keys);
    if CanceledAt(s1, actions, first[x]) && CanceledAt(s1, actions, first[y]) {
      if first[x] < first[y] { NotBoth(s1, actions, p[y], first[x], first[y]); }
      else { NotBoth(s1, actions, p[x], first[y], first[x]); }
    }
  }

  lemma TwoOf(ids: set<nat>) returns (x: nat, y: nat)
    requires |ids| > 1
    ensures x in ids && y in ids && x != y
  {
    x :| x in ids;
    assert |ids - {x}| > 0;
    y :| y in ids - {x};
  }

  lemma NotBoth(s1: System, actions: seq<Action>, req: Request, j: nat, k: nat)
    requires j < k < |actions| && CanceledAt(s1, actions, j)
    ensures !Reached(s1, actions, req, k)
  {
    assert actions[..k][..j] == actions[..j];
    CanceledCounts(s1, actions[..k], j);
  }

  /** In single mode newcomers are refused, so that nobody takes the mark from the one parked wait: when
      it wakes for the first time it returns Canceled if and only if no Set or Close came in between and
      the bits do not satisfy it; the bits are then those of the Cancel or fewer. */
  lemma SingleIsCanceled(s: System, b: Word, actions: seq<Action>, id: nat, expired: bool)
    requires Inv(s) && s.flag.single && !s.flag.closed && id in s.parked && NoCancel(actions)
    requires forall i :: 0 <= i < |actions| && actions[i].Wake? ==> actions[i].id != id
    ensures var s2 := Run(Do(s, Cancel(b)).after, actions);
            && s2.parked == s.parked && (Undisturbed(actions) ==> s2.flag.bits <= b)
            && (Do(s2, Wake(id, expired)).result == Some(Canceled)
                <==> Undisturbed(actions) && !Matches(s2.flag.bits, s.parked[id]))
  {
    var s1 := Do(s, Cancel(b)).after;
    StaysAlone(s1, actions, id);
    WhoIsCanceled(s, b, actions, Wake(id, expired));
  }

  lemma {:induction false} StaysAlone(s: System, actions: seq<Action>, id: nat)
    requires Inv(s) && s.flag.single && id in s.parked && NoCancel(actions)
    requires forall i :: 0 <= i < |actions| && actions[i].Wake? ==> actions[i].id != id
    ensures Run(s, actions).parked == s.parked && CanceledReturns(s, actions) == 0
    ensures Undisturbed(actions) ==> Run(s, actions).flag.bits <= s.flag.bits
    decreases |actions|
  {
    if actions != [] {
      AloneStep(s, actions[0], id);
      DoKeepsInv(s, actions[0]);
      StaysAlone(Do(s, actions[0]).after, actions[1..], id);
      assert Undisturbed(actions) ==> Undisturbed(actions[1..]);
    }
  }

  lemma OnlyOne(p: map<nat, Request>, id: nat)
    requires id in p && |p| <= 1
    ensures |p| == 1 && forall j :: j in p ==> j == id
  {
    ParkSize(p, id, p[id]);
    assert p - {id} == map[];
    forall j | j in p ensures j == id { assert j !in p - {id}; }
  }

  lemma AloneStep(s: System, a: Action, id: nat)
    requires Inv(s) && s.flag.single && id in s.parked && !a.Cancel? && (a.Wake? ==> a.id != id)
    ensures var e := Do(s, a);
            && e.after.parked == s.parked && e.after.flag.single && e.result != Some(Canceled)
            && (!a.Set? ==> e.after.flag.bits <= s.flag.bits)
  {
    OnlyOne(s.parked, id);
    if a.Start? && a.id !in s.parked { assert s.parked - {a.id} == s.parked; }
  }

  /** One wait, parked as thread 0. */
  function OneWait(single: bool, status: Result, req: Request): System {
    System(Flag(single, {}, status, false, 1), map[0 := req])
  }

  lemma OneWaitInv(single: bool, req: Request)
    ensures Inv(OneWait(single, Ok, req))
  {
    assert map[0 := req].Keys == {0} && |map[0 := req]| == |map[0 := req].Keys|;
  }

  /** A newcomer can take the mark from the one wait that was counted, which parks again. */
  lemma NewcomerTakesMark(req: Request)
    requires req.want != {}
    ensures var s := OneWait(false, Ok, req);
            var first := Do(Do(s, Cancel({})).after, Start(1, req, false));
            var second := Do(first.after, Wake(0, false));
            Inv(s) && first.result == Some(Canceled) && second.result == None && 0 in second.after.parked
  {
    OneWaitInv(false, req);
    StartTakes(req);
    WakeParks(req);
  }

  lemma StartTakes(req: Request)
    requires req.want != {}
    ensures Do(OneWait(false, Canceled, req), Start(1, req, false)) == Effect(OneWait(false, Ok, req), Some(Canceled))
  {
    assert !Matches({}, req);
    assert map[0 := req] - {1} == map[0 := req];
  }

  lemma WakeParks(req: Request)
    requires req.want != {}
    ensures var e := Do(OneWait(false, Ok, req), Wake(0, false)); e.result == None && 0 in e.after.parked
  {
  }

  /** So can a Set, even one that satisfies nobody; the flag may be single. */
  lemma SetTakesMark(req: Request)
    requires req == Request({3}, And, Never)
    ensures var s := OneWait(true, Ok, req);
            var second := Do(Do(Do(s, Cancel({})).after, Set({7})).after, Wake(0, false));
            Inv(s) && second.result == None && 0 in second.after.parked
  {
    OneWaitInv(true, req);
    assert !Matches({7}, req);
  }

  // ----- nothing but the waits it reports, waking once each -----

  /** The actions wake each of these waits once, in some order, whether their deadlines have passed or not. */
  predicate WakeOnce(ids: set<nat>, wakes: seq<Action>)
    decreases |wakes|
  {
    if wakes == [] then ids == {}
    else wakes[0].Wake? && wakes[0].id in ids && WakeOnce(ids - {wakes[0].id}, wakes[1..])
  }

  /** How many of these waits find too few bits when their turn comes; those before may have cleared some. */
  function Misses(bits: Word, p: map<nat, Request>, wakes: seq<Action>): nat
    decreases |wakes|
  {
    if wakes == [] then 0
    else if !wakes[0].Wake? || wakes[0].id !in p then Misses(bits, p, wakes[1..])
    else if Matches(bits, p[wakes[0].id]) then Misses(Cleared(bits, p[wakes[0].id]), p, wakes[1..])
    else 1 + Misses(bits, p, wakes[1..])
  }

  /** How many steps end a wait neither with OK nor as cancelled: it parks again or times out. */
  function Unreached(s: System, actions: seq<Action>): nat
    decreases |actions|
  {
    if actions == [] then 0
    else
      var r := Do(s, actions[0]).result;
      Count(r != Some(Ok) && r != Some(Canceled)) + Unreached(Do(s, actions[0]).after, actions[1..])
  }

  /** The first wait that misses is cancelled if the mark is there; all others that miss are not. */
  lemma {:induction false} WakesAfterCancel(s: System, p: map<nat, Request>, ids: set<nat>, wakes: seq<Action>)
    requires !s.flag.closed && WakeOnce(ids, wakes)
    requires forall id :: id in ids ==> id in s.parked && id in p && s.parked[id] == p[id]
    ensures var m, c := Misses(s.flag.bits, p, wakes), Count(s.flag.status == Canceled);
            && CanceledReturns(s, wakes) == (if m == 0 then 0 else c)
            && Unreached(s, wakes) == (if m == 0 then 0 else m - c)
    decreases |wakes|
  {
    if wakes != [] {
      WakesAfterCancel(Do(s, wakes[0]).after, p, ids - {wakes[0].id}, wakes[1..]);
    }
  }

  /** The waits among these that the bits do not satisfy. */
  function Unsatisfied(bits: Word, p: map<nat, Request>, ids: set<nat>): set<nat>
    requires ids <= p.Keys
  {
    set id | id in ids && !Matches(bits, p[id])
  }

  lemma UnsatisfiedBut(bits: Word, p: map<nat, Request>, ids: set<nat>, id: nat)
    requires ids <= p.Keys && id in ids
    ensures |Unsatisfied(bits, p, ids)| == |Unsatisfied(bits, p, ids - {id})| + Count(!Matches(bits, p[id]))
  {
    assert Unsatisfied(bits, p, ids) == Unsatisfied(bits, p, ids - {id}) + if Matches(bits, p[id]) then {} else {id};
  }

  /** The bits only get fewer, so what they do not satisfy at first misses in every order. */
  lemma {:induction false} MissesInAnyOrder(bits: Word, less: Word, p: map<nat, Request>, ids: set<nat>, wakes: seq<Action>)
    requires less <= bits && ids <= p.Keys && WakeOnce(ids, wakes)
    ensures Misses(less, p, wakes) >= |Unsatisfied(bits, p, ids)|
    decreases |wakes|
  {
    if wakes != [] {
      var w := wakes[0].id;
      UnsatisfiedBut(bits, p, ids, w);
      MissesInAnyOrder(bits, if Matches(less, p[w]) then Cleared(less, p[w]) else less, p, ids - {w}, wakes[1..]);
    }
  }

  /** A Cancel on an open flag, then every parked wait waking once and nothing else: at most one is
      cancelled, and all return if and only if at most one of them misses. */
  lemma CancelReaches(s: System, b: Word, wakes: seq<Action>)
    requires !s.flag.closed && WakeOnce(s.parked.Keys, wakes)
    ensures var s1, m := Do(s, Cancel(b)).after, Misses(b, s.parked, wakes);
            && CanceledReturns(s1, wakes) == (if m == 0 then 0 else 1)
            && Unreached(s1, wakes) == (if m == 0 then 0 else m - 1)
            && (Unreached(s1, wakes) == 0 <==> m <= 1)
            && m >= |Unsatisfied(b, s.parked, s.parked.Keys)|
  {
    WakesAfterCancel(Do(s, Cancel(b)).after, s.parked, s.parked.Keys, wakes);
    MissesInAnyOrder(b, b, s.parked, s.parked.Keys, wakes);
  }

  /** In these runs all the waits that Cancel counts are cancelled if and only if it counts none, or one
      that its new bits do not satisfy. */
  lemma CancelsAllItCounts(s: System, b: Word, wakes: seq<Action>)
    requires Inv(s) && !s.flag.closed && WakeOnce(s.parked.Keys, wakes)
    ensures CanceledReturns(Do(s, Cancel(b)).after, wakes) == s.flag.waiters
            <==> s.flag.waiters <= 1 && forall id :: id in s.parked ==> !Matches(b, s.parked[id])
  {
    CancelReaches(s, b, wakes);
    var ids := s.parked.Keys;
    if s.parked != map[] {
      var id := wakes[0].id;
      UnsatisfiedBut(b, s.parked, ids, id);
      if |ids| == 1 {
        assert |ids - {id}| == 0;
        assert ids == {id};
      }
    }
  }

  /** After Close no wait parks again: every step of a waiting thread makes the parked ones fewer. */
  lemma ClosedDrains(s: System, a: Action)
    requires Inv(s) && s.flag.closed
    ensures Do(s, a).after.flag.closed && Do(s, a).after.flag.bits <= s.flag.bits
    ensures a.Wake? && a.id in s.parked ==>
              |Do(s, a).after.parked| == |s.parked| - 1 && (Do(s, a).result == Some(Ok) || Do(s, a).result == Some(Deleted))
    ensures !(a.Wake? && a.id in s.parked) ==> Do(s, a).after.parked == s.parked
  {
    match a {
      case Wake(id, expired) => if id in s.parked { ClosedWake(s, id, expired); }
      case Start(id, req, expired) => if id !in s.parked { ClosedStart(s, id, req, expired); }
      case _ =>
    }
  }

  lemma ClosedWake(s: System, id: nat, expired: bool)
    requires s.flag.closed && id in s.parked
    ensures var e := Do(s, Wake(id, expired));
            && e.after.flag.closed && e.after.flag.bits <= s.flag.bits && |e.after.parked| == |s.parked| - 1
            && (e.result == Some(Ok) || e.result == Some(Deleted))
  {
    ClosedReturns(s.flag.(waiters := s.flag.waiters - 1), s.parked[id], expired);
    ParkSize(s.parked, id, s.parked[id]);
  }

  lemma ClosedStart(s: System, id: nat, req: Request, expired: bool)
    requires s.flag.closed && id !in s.parked
    ensures var e := Do(s, Start(id, req, expired));
            e.after.flag.closed && e.after.flag.bits <= s.flag.bits && e.after.parked == s.parked
  {
    ClosedReturns(s.flag, req, expired);
    assert s.parked - {id} == s.parked;
  }

  lemma ClosedReturns(f: Flag, req: Request, expired: bool)
    requires f.closed
    ensures var o := Check(f, req, expired); o.flag.closed && o.flag.bits <= f.bits && (o.result == Some(Ok) || o.result == Some(Deleted))
  {
  }

  /** The wakes of waits that are parked when they come. */
  function Woken(s: System, actions: seq<Action>): nat
    decreases |actions|
  {
    if actions == [] then 0
    else Count(actions[0].Wake? && actions[0].id in s.parked) + Woken(Do(s, actions[0]).after, actions[1..])
  }

  /** Over every run after Close: nothing is turned on any more, and each wake of a parked wait takes
      one away for good, so as many wakes as there were waits leave none. */
  lemma {:induction false} ClosedRunDrains(s: System, actions: seq<Action>)
    requires Inv(s) && s.flag.closed
    ensures Run(s, actions).flag.closed && Run(s, actions).flag.bits <= s.flag.bits
    ensures |Run(s, actions).parked| + Woken(s, actions) == |s.parked|
    decreases |actions|
  {
    if actions != [] {
      ClosedStep(s, actions[0]);
      ClosedRunDrains(Do(s, actions[0]).after, actions[1..]);
    }
  }

  lemma ClosedStep(s: System, a: Action)
    requires Inv(s) && s.flag.closed
    ensures var s' := Do(s, a).after;
            && Inv(s') && s'.flag.closed && s'.flag.bits <= s.flag.bits
            && |s'.parked| + Count(a.Wake? && a.id in s.parked) == |s.parked|
  {
    ClosedDrains(s, a);
    DoKeepsInv(s, a);
  }

  /** A poll, whose deadline has always passed, never parks. */
  lemma PollReturns(f: Flag, req: Request)
    ensures Enter(f, req, true).result.Some?
    ensures Enter(f, req, true).flag.waiters == f.waiters
  {
  }
}
