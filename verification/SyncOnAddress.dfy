/** The portable wait-on-address protocol as a state machine: every step is what one call does
    between two points at which other calls can interfere. A call is one execution of WaitPortable
    or WakePortable; memory is sequentially consistent. */
module SyncOnAddress {
  import opened Wrappers

  type Addr = nat
  type Id = nat       // one call
  type EntryId = nat  // one PortableAddressEntry

  const INT_MAX := 0x7FFF_FFFF

  datatype Result = OK | TimedOut

  /** Where a WaitPortable call is; the locks it holds are those of HoldsRegistry and EntryHeld. */
  datatype WaitAt =
    | Start                            // about to take the registry lock
    | Lookup                           // finding or creating the entry
    | Enter(e: EntryId)                // about to take the entry lock and enlist
    | Top(e: EntryId)                  // the loop condition
    | Parked(e: EntryId)               // inside the condition wait
    | Woken(e: EntryId)                // the condition wait has returned
    | Polling(e: EntryId)              // polling signals, lock released
    | Recheck(e: EntryId)              // the test at the end of the loop body
    | Leave(e: EntryId, r: Result)     // about to unlist
    | Tidy(e: EntryId, r: Result)      // the list was empty: about to take the registry lock
    | TidyEntry(e: EntryId, r: Result) // about to take the entry lock again
    | Erase(e: EntryId, r: Result)     // about to drop the entry if it is still empty
    | Returned(r: Result)

  /** Where a WakePortable call with a positive count is. */
  datatype WakeAt =
    | WStart
    | WLookup
    | WEnter(e: EntryId)
    | WHandOver(e: EntryId)  // holds both locks, about to release the registry's
    | WFlag(e: EntryId)      // about to flag waiters
    | WReturned

  datatype Call =
    | Wait(a: Addr, expected: int, at: WaitAt)
    | Wake(a: Addr, count: nat, wat: WakeAt)
  {
    predicate HoldsRegistry() {
      match this
      case Wait(_, _, p) => p.Lookup? || p.Enter? || p.TidyEntry? || p.Erase?
      case Wake(_, _, p) => p.WLookup? || p.WEnter? || p.WHandOver?
    }

    function EntryHeld(): Option<EntryId> {
      match this
      case Wait(_, _, p) =>
        if p.Top? || p.Woken? || p.Recheck? || p.Leave? || p.Erase? then Some(p.e) else None
      case Wake(_, _, p) => if p.WHandOver? || p.WFlag? then Some(p.e) else None
    }

    /** The next thing this call does is take the registry lock. */
    predicate WantsRegistry() {
      match this
      case Wait(_, _, p) => p.Start? || p.Tidy?
      case Wake(_, _, p) => p.WStart?
    }

    /** The next thing this call does is take the lock of that entry. */
    function EntryWanted(): Option<EntryId> {
      match this
      case Wait(_, _, p) => if p.Enter? || p.Parked? || p.Polling? || p.TidyEntry? then Some(p.e) else None
      case Wake(_, _, p) => if p.WEnter? then Some(p.e) else None
    }

    /** The call's waiter is in the list of that entry. */
    function Listed(): Option<EntryId> {
      match this
      case Wait(_, _, p) =>
        if p.Top? || p.Parked? || p.Woken? || p.Polling? || p.Recheck? || p.Leave? then Some(p.e) else None
      case Wake(_, _, _) => None
    }

    /** The entry the call still refers to. */
    function Entry(): Option<EntryId> {
      match this
      case Wait(_, _, p) => if p.Start? || p.Lookup? || p.Returned? then None else Some(p.e)
      case Wake(_, _, p) => if p.WStart? || p.WLookup? || p.WReturned? then None else Some(p.e)
    }

    /** The call relies on that entry being the registry's entry for its address. */
    function ReliesOn(): Option<EntryId> {
      match this
      case Wait(_, _, p) => if p.Enter? then Some(p.e) else None
      case Wake(_, _, p) => if p.WEnter? || p.WHandOver? || p.WFlag? then Some(p.e) else None
    }

    predicate Finished() {
      if Wait? then at.Returned? else wat.WReturned?
    }

    /** The outcome, once it is decided. */
    function Outcome(): Option<Result> {
      if Wait? && (at.Leave? || at.Tidy? || at.TidyEntry? || at.Erase? || at.Returned?) then Some(at.r) else None
    }

    /** Waiting for a wake-up, or on the way back from one. */
    predicate Asleep() {
      Wait? && (at.Parked? || at.Woken? || at.Polling? || at.Recheck?)
    }
  }

  datatype Entry = Entry(a: Addr, waiters: seq<Id>, lock: Option<Id>)

  datatype State = State(
    words: map<Addr, int>,
    registry: map<Addr, EntryId>,
    registryLock: Option<Id>,
    entries: map<EntryId, Entry>,
    nextEntry: EntryId,
    calls: map<Id, Call>,
    flagged: set<Id>,   // the waiters whose wake_requested is set
    wakes: nat)         // how many times a wake_requested has been set
  {
    function Word(a: Addr): int {
      if a in words then words[a] else 0
    }
  }

  // ----- flagging waiters -----

  /** The waiters a wake of the given count flags: the oldest that are not flagged yet. */
  function ToFlag(waiters: seq<Id>, flagged: set<Id>, count: nat): seq<Id> {
    if waiters == [] || count == 0 then []
    else if waiters[0] in flagged then ToFlag(waiters[1..], flagged, count)
    else [waiters[0]] + ToFlag(waiters[1..], flagged, if count == INT_MAX then count else count - 1)
  }

  function Unflagged(waiters: seq<Id>, flagged: set<Id>): seq<Id> {
    if waiters == [] then []
    else (if waiters[0] in flagged then [] else [waiters[0]]) + Unflagged(waiters[1..], flagged)
  }

  predicate Distinct(s: seq<Id>) {
    forall i, j :: 0 <= i < j < |s| ==> s[i] != s[j]
  }

  function Elems(s: seq<Id>): set<Id> {
    set x | x in s
  }

  /** A wake takes the first waiters of those not flagged, as many as asked for, or all. */
  lemma {:induction false} ToFlagIsOldest(waiters: seq<Id>, flagged: set<Id>, count: nat)
    requires count <= INT_MAX
    ensures var u := Unflagged(waiters, flagged);
            ToFlag(waiters, flagged, count) == if count == INT_MAX || count >= |u| then u else u[..count]
  {
    if waiters != [] && count > 0 {
      ToFlagIsOldest(waiters[1..], flagged,
        if waiters[0] in flagged || count == INT_MAX then count else count - 1);
    }
  }

  lemma {:induction false} UnflaggedElems(waiters: seq<Id>, flagged: set<Id>)
    ensures Elems(Unflagged(waiters, flagged)) == Elems(waiters) - flagged
    ensures Distinct(waiters) ==> Distinct(Unflagged(waiters, flagged))
  {
    if waiters != [] {
      UnflaggedElems(waiters[1..], flagged);
      var u := Unflagged(waiters[1..], flagged);
      forall x ensures x in Unflagged(waiters, flagged) <==> x in waiters && x !in flagged {
        assert x in u <==> x in Elems(u);
        assert x in waiters <==> x == waiters[0] || x in waiters[1..];
        assert x in waiters[1..] <==> x in Elems(waiters[1..]);
      }
      assert waiters[0] in u ==> waiters[0] in Elems(u);
      assert waiters[0] in u ==> waiters[0] in waiters[1..];
    }
  }

  /** The loop of WakePortable over the entry's list. */
  method FlagWaiters(waiters: seq<Id>, flagged: set<Id>, count: nat) returns (flagged': set<Id>)
    requires 0 < count <= INT_MAX && Distinct(waiters)
    ensures flagged' == flagged + Elems(ToFlag(waiters, flagged, count))
  {
    var remaining := count;
    ghost var done: seq<Id> := [];
    flagged' := flagged;
    for k := 0 to |waiters|
      invariant flagged' == flagged + Elems(done)
      invariant 0 < remaining <= INT_MAX
      invariant forall x :: x in done ==> x in waiters[..k]
      invariant ToFlag(waiters, flagged, count) == done + ToFlag(waiters[k..], flagged, remaining)
    {
      var w := waiters[k];
      FlagStep(waiters, flagged, count, k, remaining, done);
      if w !in flagged' {
        flagged' := flagged' + {w};
        done := done + [w];
        if remaining != INT_MAX {
          remaining := remaining - 1;
          if remaining == 0 { return; }
        }
      } else {
        assert w !in waiters[..k];
      }
    }
  }

  lemma FlagStep(waiters: seq<Id>, flagged: set<Id>, count: nat, k: nat, remaining: nat, done: seq<Id>)
    requires k < |waiters| && remaining > 0 && ToFlag(waiters, flagged, count) == done + ToFlag(waiters[k..], flagged, remaining)
    ensures var w, rest := waiters[k], waiters[k + 1..];
            ToFlag(waiters, flagged, count) ==
              if w in flagged then done + ToFlag(rest, flagged, remaining)
              else if remaining == 1 then done + [w]
              else done + [w] + ToFlag(rest, flagged, if remaining == INT_MAX then remaining else remaining - 1)
  {
    assert waiters[k..][0] == waiters[k] && waiters[k..][1..] == waiters[k + 1..];
  }

  // ----- steps -----

  function Remove(waiters: seq<Id>, i: Id): seq<Id> {
    if waiters == [] then []
    else (if waiters[0] == i then [] else [waiters[0]]) + Remove(waiters[1..], i)
  }

  ghost predicate CanMove(s: State, i: Id) {
    && i in s.calls && !s.calls[i].Finished()
    && (s.calls[i].WantsRegistry() ==> s.registryLock == None)
    && (s.calls[i].EntryWanted().Some? ==>
          var e := s.calls[i].EntryWanted().value; e in s.entries && s.entries[e].lock == None)
    && (s.calls[i].EntryHeld().Some? ==> s.calls[i].EntryHeld().value in s.entries)
  }

  function SetLock(s: State, e: EntryId, l: Option<Id>): State
    requires e in s.entries
  {
    s.(entries := s.entries[e := s.entries[e].(lock := l)])
  }

  function SetEntry(s: State, e: EntryId, waiters: seq<Id>, l: Option<Id>): State
    requires e in s.entries
  {
    s.(entries := s.entries[e := s.entries[e].(waiters := waiters, lock := l)])
  }

  function NewEntry(s: State, a: Addr): State {
    var e := s.nextEntry;
    s.(registry := s.registry[a := e], entries := s.entries[e := Entry(a, [], None)], nextEntry := e + 1)
  }

  function SetCall(s: State, i: Id, c: Call): State {
    s.(calls := s.calls[i := c])
  }

  /** One step of a WaitPortable call; expired is what the deadline would answer. */
  ghost function MoveWait(s: State, i: Id, expired: bool): (s': State)
    requires CanMove(s, i) && s.calls[i].Wait?
    ensures s'.flagged == s.flagged && i in s'.calls && s'.calls == s.calls[i := s'.calls[i]]
    ensures s'.calls[i].Wait? && s'.calls[i].a == s.calls[i].a && s'.calls[i].expected == s.calls[i].expected
  {
    var c := s.calls[i];
    var blocked := s.Word(c.a) == c.expected && i !in s.flagged;
    match c.at
    case Start => SetCall(s.(registryLock := Some(i)), i, c.(at := Lookup))
    case Lookup =>
      if c.a in s.registry then SetCall(s, i, c.(at := Enter(s.registry[c.a])))
      else SetCall(NewEntry(s, c.a), i, c.(at := Enter(s.nextEntry)))
    case Enter(e) =>
      SetCall(SetEntry(s, e, s.entries[e].waiters + [i], Some(i)).(registryLock := None), i, c.(at := Top(e)))
    case Top(e) =>
      if blocked && !expired then SetCall(SetLock(s, e, None), i, c.(at := Parked(e)))
      else SetCall(s, i, c.(at := Leave(e, if blocked then TimedOut else OK)))
    case Parked(e) => SetCall(SetLock(s, e, Some(i)), i, c.(at := Woken(e)))
    case Woken(e) => SetCall(SetLock(s, e, None), i, c.(at := Polling(e)))
    case Polling(e) => SetCall(SetLock(s, e, Some(i)), i, c.(at := Recheck(e)))
    case Recheck(e) => SetCall(s, i, c.(at := if expired && blocked then Leave(e, TimedOut) else Top(e)))
    case Leave(e, r) =>
      var left := Remove(s.entries[e].waiters, i);
      SetCall(SetEntry(s, e, left, None), i, c.(at := if left == [] then Tidy(e, r) else Returned(r)))
    case Tidy(e, r) => SetCall(s.(registryLock := Some(i)), i, c.(at := TidyEntry(e, r)))
    case TidyEntry(e, r) => SetCall(SetLock(s, e, Some(i)), i, c.(at := Erase(e, r)))
    case Erase(e, r) =>
      var stale := c.a in s.registry && s.registry[c.a] == e && s.entries[e].waiters == [];
      SetCall(SetLock(s.(registry := if stale then s.registry - {c.a} else s.registry, registryLock := None), e, None),
              i, c.(at := Returned(r)))
  }

  /** One step of a WakePortable call. */
  ghost function MoveWake(s: State, i: Id): (s': State)
    requires CanMove(s, i) && s.calls[i].Wake?
    ensures s.flagged <= s'.flagged && i in s'.calls && s'.calls == s.calls[i := s'.calls[i]]
    ensures s'.calls[i].Wake? && s'.calls[i].a == s.calls[i].a && s'.calls[i].count == s.calls[i].count
  {
    var c := s.calls[i];
    match c.wat
    case WStart => SetCall(s.(registryLock := Some(i)), i, c.(wat := WLookup))
    case WLookup =>
      if c.a in s.registry then SetCall(s, i, c.(wat := WEnter(s.registry[c.a])))
      else SetCall(s.(registryLock := None), i, c.(wat := WReturned))
    case WEnter(e) => SetCall(SetLock(s, e, Some(i)), i, c.(wat := WHandOver(e)))
    case WHandOver(e) => SetCall(s.(registryLock := None), i, c.(wat := WFlag(e)))
    case WFlag(e) =>
      var fs := ToFlag(s.entries[e].waiters, s.flagged, c.count);
      SetCall(SetLock(s.(flagged := s.flagged + Elems(fs), wakes := s.wakes + |fs|), e, None), i, c.(wat := WReturned))
  }

  datatype Action =
    | BeginWait(id: Id, a: Addr, expected: int)
    | BeginWake(id: Id, a: Addr, count: nat)
    | Store(a: Addr, value: int)
    | Go(id: Id, expired: bool)

  ghost predicate Enabled(s: State, act: Action) {
    match act
    case BeginWait(i, _, _) => i !in s.calls
    case BeginWake(i, _, n) => i !in s.calls && 0 < n <= INT_MAX
    case Store(_, _) => true
    case Go(i, _) => CanMove(s, i)
  }

  ghost function Do(s: State, act: Action): State
    requires Enabled(s, act)
  {
    match act
    case BeginWait(i, a, x) => s.(calls := s.calls[i := Wait(a, x, Start)])
    case BeginWake(i, a, n) => s.(calls := s.calls[i := Wake(a, n, WStart)])
    case Store(a, v) => s.(words := s.words[a := v])
    case Go(i, expired) => if s.calls[i].Wait? then MoveWait(s, i, expired) else MoveWake(s, i)
  }

  const INITIAL := State(map[], map[], None, map[], 0, map[], {}, 0)

  lemma {:induction false} RemoveElems(waiters: seq<Id>, i: Id)
    ensures forall w :: w in Remove(waiters, i) <==> w in waiters && w != i
    ensures Distinct(waiters) ==> Distinct(Remove(waiters, i))
  {
    if waiters != [] {
      RemoveElems(waiters[1..], i);
      assert forall w :: w in waiters <==> w == waiters[0] || w in waiters[1..];
      assert waiters[0] in Remove(waiters[1..], i) ==> waiters[0] in waiters[1..];
    }
  }

  /** What a wake flags is new, listed, and flagged once. */
  lemma ToFlagNew(waiters: seq<Id>, flagged: set<Id>, count: nat)
    requires Distinct(waiters) && count <= INT_MAX
    ensures var fs := ToFlag(waiters, flagged, count);
            Elems(fs) !! flagged && (forall w :: w in Elems(fs) ==> w in waiters) && |Elems(fs)| == |fs|
  {
    var fs, u := ToFlag(waiters, flagged, count), Unflagged(waiters, flagged);
    ToFlagIsOldest(waiters, flagged, count);
    UnflaggedElems(waiters, flagged);
    assert forall x :: x in fs ==> x in u;
    assert forall x :: x in u ==> x in Elems(u);
    DistinctSize(fs);
  }

  lemma {:induction false} DistinctSize(s: seq<Id>)
    requires Distinct(s)
    ensures |Elems(s)| == |s|
  {
    if s != [] {
      DistinctSize(s[1..]);
      assert Elems(s) == {s[0]} + Elems(s[1..]);
    }
  }

  // ----- the invariant -----

  ghost predicate CallOk(s: State, i: Id)
    requires i in s.calls
  {
    var c := s.calls[i];
    && (c.HoldsRegistry() ==> s.registryLock == Some(i))
    && (c.EntryHeld().Some? ==> c.EntryHeld().value in s.entries && s.entries[c.EntryHeld().value].lock == Some(i))
    && (c.Entry().Some? ==> c.Entry().value in s.entries)
    && (c.Listed().Some? ==> i in s.entries[c.Listed().value].waiters && s.entries[c.Listed().value].a == c.a)
    && (c.ReliesOn().Some? ==> c.a in s.registry && s.registry[c.a] == c.ReliesOn().value)
    && (c.Outcome() == Some(TimedOut) ==> i !in s.flagged)
    && (i in s.flagged ==> c.Listed().Some? || c.Outcome() == Some(OK))
    && (c.Wake? ==> 0 < c.count <= INT_MAX)
  }

  /** An entry is locked only by a call that holds it, lists only calls enlisted in it, and when it
      lists any, the registry finds it at its address. */
  ghost predicate EntryOk(s: State, e: EntryId)
    requires e in s.entries
  {
    var n := s.entries[e];
    && e < s.nextEntry && Distinct(n.waiters)
    && (n.lock.Some? ==> n.lock.value in s.calls && s.calls[n.lock.value].EntryHeld() == Some(e))
    && (forall w :: w in n.waiters ==> w in s.calls && s.calls[w].Listed() == Some(e))
    && (n.waiters != [] ==> n.a in s.registry && s.registry[n.a] == e)
  }

  ghost predicate RegistryOk(s: State) {
    && (s.registryLock.Some? ==> s.registryLock.value in s.calls && s.calls[s.registryLock.value].HoldsRegistry())
    && (forall a :: a in s.registry ==> s.registry[a] in s.entries && s.entries[s.registry[a]].a == a)
    && |s.flagged| == s.wakes && s.flagged <= s.calls.Keys
  }

  ghost predicate Inv(s: State) {
    && RegistryOk(s)
    && (forall i :: i in s.calls ==> CallOk(s, i))
    && (forall e :: e in s.entries ==> EntryOk(s, e))
  }

  lemma InitialInv()
    ensures Inv(INITIAL)
  {
  }

  /** The two calls differ only in where they are, and stay enlisted alike. */
  ghost predicate SameCall(c: Call, c': Call) {
    && (c.Wait? ==> c'.Wait? && c'.a == c.a && c'.expected == c.expected)
    && (c.Wake? ==> c'.Wake? && c'.a == c.a && c'.count == c.count)
    && c'.Listed() == c.Listed() && (c.Outcome().Some? ==> c'.Outcome() == c.Outcome())
  }

  /** Call i moves, and changes nothing else but locks that are free or its own; those it then holds are
      those its place says. */
  ghost predicate LockStep(s: State, s': State, i: Id) {
    && i in s.calls && i in s'.calls && s'.calls == s.calls[i := s'.calls[i]] && s'.calls[i].Listed() == s.calls[i].Listed()
    && s'.flagged == s.flagged && s'.wakes == s.wakes && s'.registry == s.registry && s'.nextEntry == s.nextEntry
    && Handled(s.registryLock, s'.registryLock, i) && (s'.registryLock == Some(i) ==> s'.calls[i].HoldsRegistry())
    && s'.entries.Keys == s.entries.Keys
    && forall d :: d in s.entries ==>
         && s'.entries[d] == s.entries[d].(lock := s'.entries[d].lock)
         && Handled(s.entries[d].lock, s'.entries[d].lock, i)
         && (s'.entries[d].lock == Some(i) ==> s'.calls[i].EntryHeld() == Some(d))
  }

  /** A lock after a step of call i. */
  ghost predicate Handled(was: Option<Id>, now: Option<Id>, i: Id) {
    now == was || ((was == None || was == Some(i)) && (now == None || now == Some(i)))
  }

  lemma LockStepKeepsInv(s: State, s': State, i: Id)
    requires Inv(s) && LockStep(s, s', i) && CallOk(s', i)
    ensures Inv(s')
  {
    forall j | j in s'.calls ensures CallOk(s', j) {
      if j != i { OtherCallOk(s, s', i, j); }
    }
    forall d | d in s'.entries ensures EntryOk(s', d) { LockedEntryOk(s, s', i, d); }
  }

  lemma OtherCallOk(s: State, s': State, i: Id, j: Id)
    requires Inv(s) && LockStep(s, s', i) && j in s.calls && j != i
    ensures j in s'.calls && CallOk(s', j)
  {
    assert CallOk(s, j);
  }

  lemma LockedEntryOk(s: State, s': State, i: Id, d: EntryId)
    requires Inv(s) && LockStep(s, s', i) && d in s.entries
    ensures EntryOk(s', d)
  {
    assert EntryOk(s, d);
  }

  /** A step that takes and releases no lock. */
  lemma Relabel(s: State, i: Id, c: Call)
    requires Inv(s) && i in s.calls
    requires SameCall(s.calls[i], c) && c.HoldsRegistry() == s.calls[i].HoldsRegistry() && c.EntryHeld() == s.calls[i].EntryHeld()
    requires c.ReliesOn().Some? ==> c.a in s.registry && s.registry[c.a] == c.ReliesOn().value
    requires c.Entry().Some? ==> c.Entry().value in s.entries
    requires c.Outcome() == Some(TimedOut) ==> i !in s.flagged
    ensures Inv(SetCall(s, i, c))
  {
    var s' := SetCall(s, i, c);
    assert CallOk(s, i);
    LockStepKeepsInv(s, s', i);
  }

  /** A step that takes the registry lock. */
  lemma TakeRegistry(s: State, i: Id, c: Call)
    requires Inv(s) && i in s.calls
    requires SameCall(s.calls[i], c) && s.registryLock == None && c.HoldsRegistry() && c.EntryHeld() == s.calls[i].EntryHeld()
    requires c.ReliesOn() == s.calls[i].ReliesOn() && c.Entry() == s.calls[i].Entry() && c.Outcome() == s.calls[i].Outcome()
    ensures Inv(SetCall(s.(registryLock := Some(i)), i, c))
  {
    var s' := SetCall(s.(registryLock := Some(i)), i, c);
    assert CallOk(s, i);
    LockStepKeepsInv(s, s', i);
  }

  /** A step that releases the registry lock. */
  lemma ReleaseRegistry(s: State, i: Id, c: Call)
    requires Inv(s) && i in s.calls
    requires SameCall(s.calls[i], c) && s.registryLock == Some(i) && !c.HoldsRegistry() && c.EntryHeld() == s.calls[i].EntryHeld()
    requires c.ReliesOn().Some? ==> c.ReliesOn() == s.calls[i].ReliesOn()
    requires c.Entry().Some? ==> c.Entry() == s.calls[i].Entry()
    requires c.Outcome() == s.calls[i].Outcome()
    ensures Inv(SetCall(s.(registryLock := None), i, c))
  {
    var s' := SetCall(s.(registryLock := None), i, c);
    assert CallOk(s, i);
    LockStepKeepsInv(s, s', i);
  }

  /** A step that takes the lock of entry e. */
  lemma TakeEntry(s: State, i: Id, e: EntryId, c: Call)
    requires Inv(s) && i in s.calls
    requires SameCall(s.calls[i], c) && e in s.entries && s.entries[e].lock == None
    requires c.HoldsRegistry() == s.calls[i].HoldsRegistry() && s.calls[i].EntryHeld() == None && c.EntryHeld() == Some(e) == c.Entry()
    requires c.ReliesOn() == s.calls[i].ReliesOn() && c.Outcome() == s.calls[i].Outcome()
    ensures Inv(SetCall(SetLock(s, e, Some(i)), i, c))
  {
    var s' := SetCall(SetLock(s, e, Some(i)), i, c);
    assert CallOk(s, i) && EntryOk(s, e);
    LockStepKeepsInv(s, s', i);
  }

  /** A step that releases the lock of entry e. */
  lemma ReleaseEntry(s: State, i: Id, e: EntryId, c: Call)
    requires Inv(s) && i in s.calls
    requires SameCall(s.calls[i], c) && s.calls[i].EntryHeld() == Some(e)
    requires c.HoldsRegistry() == s.calls[i].HoldsRegistry() && c.EntryHeld() == None
    requires c.ReliesOn() == None && (c.Entry().Some? ==> c.Entry() == Some(e)) && c.Outcome() == s.calls[i].Outcome()
    requires e in s.entries
    ensures Inv(SetCall(SetLock(s, e, None), i, c))
  {
    var s' := SetCall(SetLock(s, e, None), i, c);
    assert CallOk(s, i) && EntryOk(s, e);
    LockStepKeepsInv(s, s', i);
  }

  // The steps that change the registry, a waiter list or the flags.

  lemma CreateEntry(s: State, i: Id, expired: bool)
    requires Inv(s) && CanMove(s, i) && s.calls[i].Wait? && s.calls[i].at.Lookup? && s.calls[i].a !in s.registry
    ensures Inv(MoveWait(s, i, expired))
  {
    var s' := MoveWait(s, i, expired);
    assert CallOk(s, i);
    forall j | j in s'.calls ensures CallOk(s', j) { CreateEntryCall(s, i, expired, j); }
    forall e | e in s'.entries ensures EntryOk(s', e) { CreateEntryEntry(s, i, expired, e); }
  }

  lemma CreateEntryEntry(s: State, i: Id, expired: bool, e: EntryId)
    requires Inv(s) && CanMove(s, i) && s.calls[i].Wait? && s.calls[i].at.Lookup? && s.calls[i].a !in s.registry
    requires e in MoveWait(s, i, expired).entries
    ensures EntryOk(MoveWait(s, i, expired), e)
  {
    assert CallOk(s, i) && (e in s.entries ==> EntryOk(s, e));
    assert s.nextEntry in s.entries ==> EntryOk(s, s.nextEntry);
  }

  lemma CreateEntryCall(s: State, i: Id, expired: bool, j: Id)
    requires Inv(s) && CanMove(s, i) && s.calls[i].Wait? && s.calls[i].at.Lookup? && s.calls[i].a !in s.registry && j in s.calls
    ensures CallOk(MoveWait(s, i, expired), j)
  {
    assert CallOk(s, i) && CallOk(s, j);
    if j == i { CreateEntrySelf(s, i, expired); } else { CreateEntryOther(s, i, expired, j); }
  }

  lemma CreateEntrySelf(s: State, i: Id, expired: bool)
    requires CanMove(s, i) && s.calls[i].Wait? && s.calls[i].at.Lookup? && s.calls[i].a !in s.registry && CallOk(s, i)
    ensures CallOk(MoveWait(s, i, expired), i)
  {
  }

  lemma CreateEntryOther(s: State, i: Id, expired: bool, j: Id)
    requires Inv(s) && CanMove(s, i) && s.calls[i].Wait? && s.calls[i].at.Lookup? && s.calls[i].a !in s.registry
    requires j in s.calls && j != i && CallOk(s, j)
    ensures CallOk(MoveWait(s, i, expired), j)
  {
    assert s.nextEntry in s.entries ==> EntryOk(s, s.nextEntry);
  }

  lemma Enlist(s: State, i: Id, expired: bool)
    requires Inv(s) && CanMove(s, i) && s.calls[i].Wait? && s.calls[i].at.Enter?
    ensures Inv(MoveWait(s, i, expired))
  {
    var s' := MoveWait(s, i, expired);
    var e := s.calls[i].at.e;
    assert CallOk(s, i) && EntryOk(s, e);
    forall j | j in s'.calls ensures CallOk(s', j) { EnlistCall(s, i, expired, j); }
    forall d | d in s'.entries ensures EntryOk(s', d) { EnlistEntry(s, i, expired, d); }
  }

  lemma EnlistEntry(s: State, i: Id, expired: bool, d: EntryId)
    requires Inv(s) && CanMove(s, i) && s.calls[i].Wait? && s.calls[i].at.Enter? && d in s.entries
    ensures EntryOk(MoveWait(s, i, expired), d)
  {
    assert CallOk(s, i) && EntryOk(s, d);
  }

  lemma EnlistCall(s: State, i: Id, expired: bool, j: Id)
    requires Inv(s) && CanMove(s, i) && s.calls[i].Wait? && s.calls[i].at.Enter? && j in s.calls
    ensures CallOk(MoveWait(s, i, expired), j)
  {
    assert CallOk(s, i) && CallOk(s, j) && EntryOk(s, s.calls[i].at.e);
  }

  lemma Unlist(s: State, i: Id, expired: bool)
    requires Inv(s) && CanMove(s, i) && s.calls[i].Wait? && s.calls[i].at.Leave?
    ensures Inv(MoveWait(s, i, expired))
  {
    var s' := MoveWait(s, i, expired);
    var e := s.calls[i].at.e;
    assert CallOk(s, i) && EntryOk(s, e);
    RemoveElems(s.entries[e].waiters, i);
    forall j | j in s'.calls ensures CallOk(s', j) { UnlistCall(s, i, expired, j); }
    forall d | d in s'.entries ensures EntryOk(s', d) { assert EntryOk(s, d); }
  }

  lemma UnlistCall(s: State, i: Id, expired: bool, j: Id)
    requires Inv(s) && CanMove(s, i) && s.calls[i].Wait? && s.calls[i].at.Leave? && j in s.calls
    ensures CallOk(MoveWait(s, i, expired), j)
  {
    assert CallOk(s, i) && CallOk(s, j);
    if i == j { UnlistSelf(s, i, expired); } else { UnlistOther(s, i, expired, j); }
  }

  lemma UnlistSelf(s: State, i: Id, expired: bool)
    requires CanMove(s, i) && s.calls[i].Wait? && s.calls[i].at.Leave? && CallOk(s, i)
    ensures CallOk(MoveWait(s, i, expired), i)
  {
    assert s.calls[i].at.r.OK? || s.calls[i].at.r.TimedOut?;
  }

  lemma UnlistOther(s: State, i: Id, expired: bool, j: Id)
    requires CanMove(s, i) && s.calls[i].Wait? && s.calls[i].at.Leave? && CallOk(s, i)
    requires j in s.calls && j != i && CallOk(s, j)
    ensures CallOk(MoveWait(s, i, expired), j)
  {
    RemoveElems(s.entries[s.calls[i].at.e].waiters, i);
  }

  /** While a call holds both locks, nobody relies on the entry it drops. */
  lemma DropMapping(s: State, i: Id, e: EntryId, a: Addr)
    requires Inv(s) && i in s.calls && s.calls[i].HoldsRegistry() && s.calls[i].EntryHeld() == Some(e)
    requires s.calls[i].ReliesOn() == None && e in s.entries
    requires a in s.registry && s.registry[a] == e && s.entries[e].waiters == []
    ensures Inv(s.(registry := s.registry - {a}))
  {
    var s' := s.(registry := s.registry - {a});
    assert CallOk(s, i) && EntryOk(s, e);
    forall j | j in s'.calls ensures CallOk(s', j) { assert CallOk(s, j); }
    forall d | d in s'.entries ensures EntryOk(s', d) { assert EntryOk(s, d); }
  }

  lemma ReleaseBoth(s: State, i: Id, e: EntryId, c: Call)
    requires Inv(s) && i in s.calls && SameCall(s.calls[i], c) && e in s.entries
    requires s.calls[i].HoldsRegistry() && s.calls[i].EntryHeld() == Some(e)
    requires !c.HoldsRegistry() && c.Entry() == None && c.Outcome() == s.calls[i].Outcome()
    ensures Inv(SetCall(SetLock(s.(registryLock := None), e, None), i, c))
  {
    var s' := SetCall(SetLock(s.(registryLock := None), e, None), i, c);
    assert CallOk(s, i) && EntryOk(s, e);
    LockStepKeepsInv(s, s', i);
  }

  lemma EraseEntry(s: State, i: Id, expired: bool)
    requires Inv(s) && CanMove(s, i) && s.calls[i].Wait? && s.calls[i].at.Erase?
    ensures Inv(MoveWait(s, i, expired))
  {
    var c := s.calls[i];
    var e := c.at.e;
    assert CallOk(s, i);
    var s1 := s;
    if c.a in s.registry && s.registry[c.a] == e && s.entries[e].waiters == [] {
      DropMapping(s, i, e, c.a);
      s1 := s.(registry := s.registry - {c.a});
    }
    ReleaseBoth(s1, i, e, c.(at := Returned(c.at.r)));
  }

  /** Flagging waiters while holding their entry's lock. */
  lemma AddFlags(s: State, i: Id, e: EntryId, fs: set<Id>)
    requires Inv(s) && i in s.calls && s.calls[i].EntryHeld() == Some(e) && e in s.entries
    requires s.calls[i].Listed() == None && s.calls[i].Outcome() == None
    requires fs !! s.flagged && (forall w :: w in fs ==> w in s.entries[e].waiters)
    ensures Inv(s.(flagged := s.flagged + fs, wakes := s.wakes + |fs|))
  {
    var s' := s.(flagged := s.flagged + fs, wakes := s.wakes + |fs|);
    assert CallOk(s, i) && EntryOk(s, e);
    assert fs <= s.calls.Keys && |s.flagged + fs| == |s.flagged| + |fs|;
    assert RegistryOk(s');
    forall j | j in s'.calls ensures CallOk(s', j) { FlaggedCall(s, i, e, fs, j); }
    forall d | d in s'.entries ensures EntryOk(s', d) { SameEntry(s, s', d); }
  }

  lemma SameEntry(s: State, s': State, d: EntryId)
    requires d in s.entries && EntryOk(s, d)
    requires s'.entries == s.entries && s'.calls == s.calls && s'.registry == s.registry && s'.nextEntry == s.nextEntry
    ensures EntryOk(s', d)
  {
  }

  lemma FlaggedCall(s: State, i: Id, e: EntryId, fs: set<Id>, j: Id)
    requires Inv(s) && i in s.calls && s.calls[i].EntryHeld() == Some(e) && e in s.entries && j in s.calls
    requires s.calls[i].Listed() == None
    requires forall w :: w in fs ==> w in s.entries[e].waiters
    ensures CallOk(s.(flagged := s.flagged + fs, wakes := s.wakes + |fs|), j)
  {
    assert CallOk(s, i) && EntryOk(s, e) && CallOk(s, j);
  }

  lemma SetFlags(s: State, i: Id)
    requires Inv(s) && CanMove(s, i) && s.calls[i].Wake? && s.calls[i].wat.WFlag?
    ensures Inv(MoveWake(s, i))
  {
    var c := s.calls[i];
    var s1 := Flagged(s, i);
    FlaggedInv(s, i);
    ReleaseEntry(s1, i, c.wat.e, c.(wat := WReturned));
  }

  /** The waiters are flagged; the entry lock is still held. */
  ghost function Flagged(s: State, i: Id): State
    requires CanMove(s, i) && s.calls[i].Wake? && s.calls[i].wat.WFlag?
  {
    var fs := ToFlag(s.entries[s.calls[i].wat.e].waiters, s.flagged, s.calls[i].count);
    s.(flagged := s.flagged + Elems(fs), wakes := s.wakes + |fs|)
  }

  lemma FlaggedInv(s: State, i: Id)
    requires Inv(s) && CanMove(s, i) && s.calls[i].Wake? && s.calls[i].wat.WFlag?
    ensures Inv(Flagged(s, i))
  {
    var e := s.calls[i].wat.e;
    assert CallOk(s, i) && EntryOk(s, e);
    ToFlagNew(s.entries[e].waiters, s.flagged, s.calls[i].count);
    AddFlags(s, i, e, Elems(ToFlag(s.entries[e].waiters, s.flagged, s.calls[i].count)));
  }

  lemma MoveWaitKeepsInv(s: State, i: Id, expired: bool)
    requires Inv(s) && CanMove(s, i) && s.calls[i].Wait?
    ensures Inv(MoveWait(s, i, expired))
  {
    assert CallOk(s, i);
    var c := s.calls[i];
    match c.at
    case Lookup =>
      if c.a in s.registry { Relabel(s, i, c.(at := Enter(s.registry[c.a]))); } else { CreateEntry(s, i, expired); }
    case Enter(e) => Enlist(s, i, expired);
    case Leave(e, r) => Unlist(s, i, expired);
    case Erase(e, r) => EraseEntry(s, i, expired);
    case _ => LockStepsKeepInv(s, i, expired);
  }

  lemma TopKeepsInv(s: State, i: Id, expired: bool)
    requires Inv(s) && CanMove(s, i) && s.calls[i].Wait? && s.calls[i].at.Top?
    ensures Inv(MoveWait(s, i, expired))
  {
    assert CallOk(s, i);
    var c := s.calls[i];
    var blocked := s.Word(c.a) == c.expected && i !in s.flagged;
    if blocked && !expired { ReleaseEntry(s, i, c.at.e, c.(at := Parked(c.at.e))); }
    else { Relabel(s, i, c.(at := Leave(c.at.e, if blocked then TimedOut else OK))); }
  }

  lemma LockStepsKeepInv(s: State, i: Id, expired: bool)
    requires Inv(s) && CanMove(s, i) && s.calls[i].Wait?
    requires !s.calls[i].at.Lookup? && !s.calls[i].at.Enter? && !s.calls[i].at.Leave? && !s.calls[i].at.Erase?
    ensures Inv(MoveWait(s, i, expired))
  {
    assert CallOk(s, i);
    var c := s.calls[i];
    var blocked := s.Word(c.a) == c.expected && i !in s.flagged;
    match c.at
    case Top(e) => TopKeepsInv(s, i, expired);
    case Recheck(e) => Relabel(s, i, c.(at := if expired && blocked then Leave(e, TimedOut) else Top(e)));
    case Woken(e) => ReleaseEntry(s, i, e, c.(at := Polling(e)));
    case _ => if c.WantsRegistry() { RegistryStepsKeepInv(s, i, expired); } else { TakeStepsKeepInv(s, i, expired); }
  }

  lemma RegistryStepsKeepInv(s: State, i: Id, expired: bool)
    requires Inv(s) && CanMove(s, i) && s.calls[i].Wait? && s.calls[i].WantsRegistry()
    ensures Inv(MoveWait(s, i, expired))
  {
    assert CallOk(s, i);
    var c := s.calls[i];
    TakeRegistry(s, i, c.(at := if c.at.Start? then WaitAt.Lookup else TidyEntry(c.at.e, c.at.r)));
  }

  lemma TakeStepsKeepInv(s: State, i: Id, expired: bool)
    requires Inv(s) && CanMove(s, i) && s.calls[i].Wait?
    requires s.calls[i].at.Parked? || s.calls[i].at.Polling? || s.calls[i].at.TidyEntry?
    ensures Inv(MoveWait(s, i, expired))
  {
    assert CallOk(s, i);
    var c := s.calls[i];
    match c.at
    case Parked(e) => TakeEntry(s, i, e, c.(at := Woken(e)));
    case Polling(e) => TakeEntry(s, i, e, c.(at := Recheck(e)));
    case TidyEntry(e, r) => TakeEntry(s, i, e, c.(at := Erase(e, r)));
  }

  lemma MoveWakeKeepsInv(s: State, i: Id)
    requires Inv(s) && CanMove(s, i) && s.calls[i].Wake?
    ensures Inv(MoveWake(s, i))
  {
    assert CallOk(s, i);
    var c := s.calls[i];
    match c.wat
    case WStart => TakeRegistry(s, i, c.(wat := WLookup));
    case WLookup =>
      if c.a in s.registry { Relabel(s, i, c.(wat := WEnter(s.registry[c.a]))); }
      else { ReleaseRegistry(s, i, c.(wat := WReturned)); }
    case WEnter(e) => TakeEntry(s, i, e, c.(wat := WHandOver(e)));
    case WHandOver(e) => ReleaseRegistry(s, i, c.(wat := WFlag(e)));
    case WFlag(e) => SetFlags(s, i);
  }

  lemma BeginKeepsInv(s: State, i: Id, c: Call)
    requires Inv(s) && i !in s.calls && !c.Finished()
    requires c.Wait? ==> c.at == Start
    requires c.Wake? ==> c.wat == WStart && 0 < c.count <= INT_MAX
    ensures Inv(SetCall(s, i, c))
  {
    var s' := SetCall(s, i, c);
    forall j | j in s'.calls ensures CallOk(s', j) { assert j != i ==> CallOk(s, j); }
    forall e | e in s'.entries ensures EntryOk(s', e) { assert EntryOk(s, e); }
  }

  /** Every step keeps the invariant. */
  lemma StepKeepsInv(s: State, act: Action)
    requires Inv(s) && Enabled(s, act)
    ensures Inv(Do(s, act))
  {
    match act
    case BeginWait(i, a, x) => BeginKeepsInv(s, i, Wait(a, x, Start));
    case BeginWake(i, a, n) => BeginKeepsInv(s, i, Wake(a, n, WStart));
    case Store(a, v) => StoreKeepsInv(s, a, v);
    case Go(i, expired) => if s.calls[i].Wait? { MoveWaitKeepsInv(s, i, expired); } else { MoveWakeKeepsInv(s, i); }
  }

  lemma StoreKeepsInv(s: State, a: Addr, v: int)
    requires Inv(s)
    ensures Inv(s.(words := s.words[a := v]))
  {
    var s' := s.(words := s.words[a := v]);
    forall j | j in s'.calls ensures CallOk(s', j) { assert CallOk(s, j); }
    forall e | e in s'.entries ensures EntryOk(s', e) { assert EntryOk(s, e); }
  }

  // ----- runs -----

  /** ss are the states of a run from the initial state taking the steps acts. */
  ghost predicate IsRun(ss: seq<State>, acts: seq<Action>) {
    && |ss| == |acts| + 1 && ss[0] == INITIAL
    && forall k {:trigger acts[k]} :: 0 <= k < |acts| ==> Enabled(ss[k], acts[k]) && ss[k + 1] == Do(ss[k], acts[k])
  }

  lemma {:induction false} RunKeepsInv(ss: seq<State>, acts: seq<Action>, k: nat)
    requires IsRun(ss, acts) && k < |ss|
    ensures Inv(ss[k])
  {
    if k == 0 {
      InitialInv();
    } else {
      RunKeepsInv(ss, acts, k - 1);
      StepKeepsInv(ss[k - 1], acts[k - 1]);
    }
  }

  /** In every reachable state an enlisted waiter is found through the registry at its address, in
      spite of the late removal of empty entries. */
  lemma WaiterIsReachable(ss: seq<State>, acts: seq<Action>, k: nat, w: Id)
    requires IsRun(ss, acts) && k < |ss|
    requires w in ss[k].calls && ss[k].calls[w].Listed().Some?
    ensures var s, a := ss[k], ss[k].calls[w].a;
            a in s.registry && s.registry[a] in s.entries && w in s.entries[s.registry[a]].waiters
  {
    RunKeepsInv(ss, acts, k);
    assert CallOk(ss[k], w) && EntryOk(ss[k], ss[k].calls[w].Listed().value);
  }

  // ----- no deadlock -----

  /** Call j holds the lock that call i is about to take. */
  ghost predicate Blocks(s: State, j: Id, i: Id) {
    && i in s.calls && j in s.calls
    && ((s.calls[i].WantsRegistry() && s.calls[j].HoldsRegistry())
        || (s.calls[i].EntryWanted().Some? && s.calls[j].EntryHeld() == s.calls[i].EntryWanted()))
  }

  /** An unfinished call can move, or is blocked by one that can, or is blocked by a holder of the
      registry lock that is blocked by one that can. A holder of an entry lock always can, since it
      never waits for the registry lock. */
  lemma NoDeadlock(s: State, i: Id) returns (j: Id, k: Id)
    requires Inv(s) && i in s.calls && !s.calls[i].Finished()
    ensures CanMove(s, k)
    ensures i == j == k || (Blocks(s, j, i) && (k == j || Blocks(s, k, j)))
  {
    assert CallOk(s, i);
    j, k := i, i;
    if s.calls[i].WantsRegistry() && s.registryLock.Some? {
      j := s.registryLock.value;
      k := j;
      assert CallOk(s, j);
      if s.calls[j].EntryWanted().Some? && s.entries[s.calls[j].EntryWanted().value].lock.Some? {
        k := HolderCanMove(s, s.calls[j].EntryWanted().value);
      }
    } else if s.calls[i].EntryWanted().Some? && s.entries[s.calls[i].EntryWanted().value].lock.Some? {
      j := HolderCanMove(s, s.calls[i].EntryWanted().value);
      k := j;
    }
  }

  lemma HolderCanMove(s: State, e: EntryId) returns (j: Id)
    requires Inv(s) && e in s.entries && s.entries[e].lock.Some?
    ensures j in s.calls && s.calls[j].EntryHeld() == Some(e) && CanMove(s, j)
  {
    assert EntryOk(s, e);
    j := s.entries[e].lock.value;
    assert CallOk(s, j);
  }

  // ----- no lost wake-up -----

  /** Every call asleep at address a that expects something other than v has been flagged. */
  ghost predicate Settled(s: State, a: Addr, v: int) {
    forall w :: w in s.calls && s.calls[w].a == a && s.calls[w].Asleep() && s.calls[w].expected != v ==> w in s.flagged
  }

  /** The last step of a wake for all leaves every waiter at its address flagged. */
  lemma WakeAllSettles(s: State, i: Id, v: int)
    requires Inv(s) && CanMove(s, i) && s.calls[i].Wake? && s.calls[i].count == INT_MAX
    requires MoveWake(s, i).calls[i].Finished()
    ensures Settled(MoveWake(s, i), s.calls[i].a, v)
  {
    var c, s' := s.calls[i], MoveWake(s, i);
    assert CallOk(s, i);
    forall w | w in s'.calls && s'.calls[w].a == c.a && s'.calls[w].Asleep() ensures w in s'.flagged {
      assert CallOk(s, w);
      var e := s.calls[w].Listed().value;
      assert EntryOk(s, e);
      var ws := s.entries[e].waiters;
      ToFlagIsOldest(ws, s.flagged, INT_MAX);
      UnflaggedElems(ws, s.flagged);
      assert w in Elems(ws);
      assert w in s.flagged || w in Elems(Unflagged(ws, s.flagged));
    }
  }

  /** A step changes no call but the one that moves, and no flag is ever taken back. */
  lemma StepFrame(s: State, act: Action, w: Id)
    requires Enabled(s, act)
    ensures s.flagged <= Do(s, act).flagged
    ensures w in s.calls && !(act.Go? && act.id == w) ==> w in Do(s, act).calls && Do(s, act).calls[w] == s.calls[w]
    ensures w !in s.calls && w in Do(s, act).calls ==>
      !Do(s, act).calls[w].Finished() && !Do(s, act).calls[w].Asleep() && Do(s, act).calls[w].Outcome() == None
  {
    if act.Go? {
      var s' := if s.calls[act.id].Wait? then MoveWait(s, act.id, act.expired) else MoveWake(s, act.id);
      assert s'.calls == s.calls[act.id := s'.calls[act.id]];
    }
  }

  /** The part of a state a waiter that expects something other than v must satisfy. */
  ghost predicate Safe(s: State, s0: State, w: Id) {
    && (w in s.calls && s.calls[w].Asleep() ==> w in s.flagged)
    && (w in s.calls && s.calls[w].Outcome() == Some(TimedOut) ==>
          w in s0.calls && s0.calls[w].Outcome() == Some(TimedOut))
  }

  lemma SafeMove(s: State, i: Id, expired: bool)
    requires Inv(s) && CanMove(s, i) && s.calls[i].Wait?
    requires s.Word(s.calls[i].a) != s.calls[i].expected
    requires s.calls[i].Asleep() ==> i in s.flagged
    ensures Safe(MoveWait(s, i, expired), s, i)
  {
    SafeAsleep(s, i, expired);
    SafeTimedOut(s, i, expired);
  }

  lemma SafeAsleep(s: State, i: Id, expired: bool)
    requires Inv(s) && CanMove(s, i) && s.calls[i].Wait? && s.Word(s.calls[i].a) != s.calls[i].expected
    requires s.calls[i].Asleep() ==> i in s.flagged
    ensures var s' := MoveWait(s, i, expired); i in s'.calls && s'.calls[i].Asleep() ==> i in s'.flagged
  {
    assert CallOk(s, i);
  }

  lemma SafeTimedOut(s: State, i: Id, expired: bool)
    requires CanMove(s, i) && s.calls[i].Wait? && s.Word(s.calls[i].a) != s.calls[i].expected
    ensures var s' := MoveWait(s, i, expired);
            i in s'.calls && s'.calls[i].Outcome() == Some(TimedOut) ==> s.calls[i].Outcome() == Some(TimedOut)
  {
    match s.calls[i].at {
      case Top(e) =>
      case Recheck(e) =>
      case Leave(e, r) =>
      case Erase(e, r) =>
      case _ =>
    }
  }

  /** While the word holds v, no call that expects something else goes to sleep or times out. */
  lemma SettledStays(ss: seq<State>, acts: seq<Action>, k: nat, a: Addr, v: int, w: Id)
    requires IsRun(ss, acts) && k + 1 < |ss| && ss[k].Word(a) == v && Settled(ss[k], a, v)
    requires w in ss[k + 1].calls && ss[k + 1].calls[w].Wait?
    requires ss[k + 1].calls[w].a == a && ss[k + 1].calls[w].expected != v
    ensures Safe(ss[k + 1], ss[k], w)
  {
    var s, act := ss[k], acts[k];
    RunKeepsInv(ss, acts, k);
    StepFrame(s, act, w);
    if act.Go? && act.id == w { SafeMoved(s, act, a, v, w); }
  }

  lemma SafeMoved(s: State, act: Action, a: Addr, v: int, w: Id)
    requires Inv(s) && Enabled(s, act) && act.Go? && act.id == w && s.Word(a) == v && Settled(s, a, v)
    requires w in Do(s, act).calls && Do(s, act).calls[w].Wait?
    requires Do(s, act).calls[w].a == a && Do(s, act).calls[w].expected != v
    ensures Safe(Do(s, act), s, w)
  {
    MoveKeepsKind(s, w, act.expired);
    SafeMove(s, w, act.expired);
  }

  lemma MoveKeepsKind(s: State, i: Id, expired: bool)
    requires CanMove(s, i)
    ensures var s' := Do(s, Go(i, expired));
      i in s'.calls && s'.calls[i].a == s.calls[i].a && (s'.calls[i].Wait? <==> s.calls[i].Wait?)
      && (s.calls[i].Wait? ==> s'.calls[i].expected == s.calls[i].expected)
      && (s.calls[i].Wake? ==> s'.calls[i].count == s.calls[i].count)
  {
  }

  lemma SettledNext(ss: seq<State>, acts: seq<Action>, k: nat, a: Addr, v: int)
    requires IsRun(ss, acts) && k + 1 < |ss| && ss[k].Word(a) == v && Settled(ss[k], a, v)
    ensures Settled(ss[k + 1], a, v)
  {
    var s' := ss[k + 1];
    forall w | w in s'.calls && s'.calls[w].a == a && s'.calls[w].Asleep() && s'.calls[w].expected != v
      ensures w in s'.flagged { SettledStays(ss, acts, k, a, v, w); }
  }

  /** The step in which a wake for all returns. */
  lemma SettledNow(ss: seq<State>, acts: seq<Action>, j: nat, k: Id, a: Addr, v: int)
    requires IsRun(ss, acts) && j + 1 < |ss|
    requires k in ss[j].calls ==> !ss[j].calls[k].Finished()
    requires k in ss[j + 1].calls && ss[j + 1].calls[k] == Wake(a, INT_MAX, WReturned)
    ensures Settled(ss[j + 1], a, v)
  {
    var s, act := ss[j], acts[j];
    RunKeepsInv(ss, acts, j);
    StepFrame(s, act, k);
    MoveKeepsKind(s, k, act.expired);
    WakeAllSettles(s, k, v);
  }

  lemma StaysReturned(ss: seq<State>, acts: seq<Action>, j: nat, k: Id)
    requires IsRun(ss, acts) && j + 1 < |ss| && k in ss[j].calls && ss[j].calls[k].Finished()
    ensures k in ss[j + 1].calls && ss[j + 1].calls[k] == ss[j].calls[k]
  {
    StepFrame(ss[j], acts[j], k);
  }

  lemma {:induction false} SettledFrom(ss: seq<State>, acts: seq<Action>, i: nat, m: nat, k: Id, a: Addr, v: int)
    requires IsRun(ss, acts) && i <= m < |ss|
    requires forall j :: i <= j < |ss| ==> ss[j].Word(a) == v
    requires k in ss[i].calls ==> !ss[i].calls[k].Finished()
    requires k in ss[m].calls && ss[m].calls[k] == Wake(a, INT_MAX, WReturned)
    ensures Settled(ss[m], a, v)
  {
    if i < m {
      if k in ss[m - 1].calls && ss[m - 1].calls[k].Finished() {
        StaysReturned(ss, acts, m - 1, k);
        SettledFrom(ss, acts, i, m - 1, k, a, v);
        SettledNext(ss, acts, m - 1, a, v);
      } else {
        SettledNow(ss, acts, m - 1, k, a, v);
      }
    }
  }

  /** A store of v followed by a wake for all loses nobody: from the moment the wake has returned,
      and as long as the word holds v, every call that expected another value is flagged if it is
      still asleep, and none of them times out that had not timed out already. */
  lemma {:induction false} NoLostWakeUp(ss: seq<State>, acts: seq<Action>, i: nat, n: nat, m: nat, k: Id, a: Addr, v: int, w: Id)
    requires IsRun(ss, acts) && i <= n <= m < |ss|
    requires forall j :: i <= j < |ss| ==> ss[j].Word(a) == v
    requires k in ss[i].calls ==> !ss[i].calls[k].Finished()
    requires k in ss[n].calls && ss[n].calls[k] == Wake(a, INT_MAX, WReturned)
    requires w in ss[m].calls && ss[m].calls[w].Wait? && ss[m].calls[w].a == a && ss[m].calls[w].expected != v
    ensures ss[m].calls[w].Asleep() ==> w in ss[m].flagged
    ensures ss[m].calls[w].Outcome() == Some(TimedOut) ==>
      w in ss[n].calls && ss[n].calls[w].Outcome() == Some(TimedOut)
    decreases m
  {
    SettledFrom(ss, acts, i, n, k, a, v);
    if n < m {
      StillReturned(ss, acts, n, m - 1, k);
      SettledFrom(ss, acts, i, m - 1, k, a, v);
      SettledStays(ss, acts, m - 1, a, v, w);
      if ss[m].calls[w].Outcome() == Some(TimedOut) {
        SameWaiter(ss, acts, m - 1, w);
        NoLostWakeUp(ss, acts, i, n, m - 1, k, a, v, w);
      }
    }
  }

  lemma {:induction false} StillReturned(ss: seq<State>, acts: seq<Action>, n: nat, m: nat, k: Id)
    requires IsRun(ss, acts) && n <= m < |ss| && k in ss[n].calls && ss[n].calls[k].Finished()
    ensures k in ss[m].calls && ss[m].calls[k] == ss[n].calls[k]
  {
    if n < m {
      StillReturned(ss, acts, n, m - 1, k);
      StaysReturned(ss, acts, m - 1, k);
    }
  }

  lemma SameWaiter(ss: seq<State>, acts: seq<Action>, j: nat, w: Id)
    requires IsRun(ss, acts) && j + 1 < |ss| && w in ss[j].calls
    ensures w in ss[j + 1].calls && ss[j + 1].calls[w].a == ss[j].calls[w].a
    ensures ss[j + 1].calls[w].Wait? <==> ss[j].calls[w].Wait?
    ensures ss[j].calls[w].Wait? ==> ss[j + 1].calls[w].expected == ss[j].calls[w].expected
  {
    StepFrame(ss[j], acts[j], w);
    if acts[j].Go? && acts[j].id == w { MoveKeepsKind(ss[j], w, acts[j].expired); }
  }

  // ----- flagged waiters return -----

  /** How many steps of its own a flagged waiter still takes, at most. */
  function StepsLeft(at: WaitAt): nat {
    match at
    case Parked(_) => 9
    case Woken(_) => 8
    case Polling(_) => 7
    case Recheck(_) => 6
    case Top(_) => 5
    case Leave(_, _) => 4
    case Tidy(_, _) => 3
    case TidyEntry(_, _) => 2
    case Erase(_, _) => 1
    case Returned(_) => 0
    case Enter(_) => 10
    case Lookup => 11
    case Start => 12
  }

  /** A flagged waiter that is at most n steps away from returning OK. */
  ghost predicate WithinSteps(s: State, w: Id, n: int) {
    && w in s.flagged && w in s.calls && s.calls[w].Wait? && StepsLeft(s.calls[w].at) <= n
    && (s.calls[w].Finished() ==> s.calls[w].at == Returned(OK))
  }

  lemma FlaggedNear(s: State, w: Id)
    requires Inv(s) && w in s.flagged
    ensures WithinSteps(s, w, 9)
  {
    FlaggedIsKnown(s, w);
    NearCall(s.calls[w]);
  }

  lemma NearCall(c: Call)
    requires c.Listed().Some? || c.Outcome() == Some(OK)
    ensures c.Wait? && StepsLeft(c.at) <= 9 && (c.Finished() ==> c.at == Returned(OK))
  {
  }

  /** There is a reason for the waiter not to sleep: a wake, another value, or the deadline. */
  ghost predicate Pressed(s: State, w: Id, expired: bool)
    requires w in s.calls && s.calls[w].Wait?
  {
    w in s.flagged || expired || s.Word(s.calls[w].a) != s.calls[w].expected
  }

  lemma PressedNearer(s: State, w: Id, expired: bool)
    requires CanMove(s, w) && s.calls[w].Wait? && Pressed(s, w, expired)
    ensures StepsLeft(MoveWait(s, w, expired).calls[w].at) < StepsLeft(s.calls[w].at)
  {
    if s.calls[w].Listed().Some? { ListedNearer(s, w, expired); } else { UnlistedNearer(s, w, expired); }
  }

  lemma ListedNearer(s: State, w: Id, expired: bool)
    requires CanMove(s, w) && s.calls[w].Wait? && Pressed(s, w, expired) && s.calls[w].Listed().Some?
    ensures StepsLeft(MoveWait(s, w, expired).calls[w].at) < StepsLeft(s.calls[w].at)
  {
    var at := s.calls[w].at;
    if at.Top? {} else if at.Parked? {} else if at.Woken? {} else if at.Polling? {} else if at.Recheck? {} else {}
  }

  lemma UnlistedNearer(s: State, w: Id, expired: bool)
    requires CanMove(s, w) && s.calls[w].Wait? && s.calls[w].Listed() == None
    ensures StepsLeft(MoveWait(s, w, expired).calls[w].at) < StepsLeft(s.calls[w].at)
  {
    var at := s.calls[w].at;
    if at.Tidy? {} else if at.TidyEntry? {} else if at.Erase? {} else if at.Start? {} else if at.Lookup? {} else {}
  }

  lemma FlaggedStep(s: State, act: Action, w: Id, n: int)
    requires Inv(s) && Enabled(s, act) && WithinSteps(s, w, n) && n <= 9
    ensures WithinSteps(Do(s, act), w, if act.Go? && act.id == w then n - 1 else n)
  {
    var s' := Do(s, act);
    StepKeepsInv(s, act);
    StepFrame(s, act, w);
    FlaggedNear(s', w);
    if act.Go? && act.id == w { PressedNearer(s, w, act.expired); }
  }

  /** The steps of one call among steps k to n of a run. */
  function OwnSteps(acts: seq<Action>, w: Id, k: nat, n: nat): nat
    requires k <= n <= |acts|
    decreases n
  {
    if k == n then 0 else OwnSteps(acts, w, k, n - 1) + if acts[n - 1].Go? && acts[n - 1].id == w then 1 else 0
  }

  lemma StepOfRun(ss: seq<State>, acts: seq<Action>, k: nat)
    requires IsRun(ss, acts) && k < |acts|
    ensures Inv(ss[k]) && Enabled(ss[k], acts[k]) && ss[k + 1] == Do(ss[k], acts[k])
  {
    RunKeepsInv(ss, acts, k);
  }

  /** Once flagged, a waiter takes at most nine more steps of its own, whatever the other calls, the
      word and the deadline do in between. */
  lemma {:induction false} FlaggedReturns(ss: seq<State>, acts: seq<Action>, k: nat, n: nat, w: Id)
    requires IsRun(ss, acts) && k <= n < |ss| && w in ss[k].flagged
    ensures WithinSteps(ss[n], w, 9 - OwnSteps(acts, w, k, n))
    decreases n
  {
    if k == n {
      RunKeepsInv(ss, acts, n);
      FlaggedNear(ss[n], w);
    } else {
      StepOfRun(ss, acts, n - 1);
      FlaggedReturns(ss, acts, k, n - 1, w);
      FlaggedStep(ss[n - 1], acts[n - 1], w, 9 - OwnSteps(acts, w, k, n - 1));
    }
  }

  /** After the last of them it has returned OK. */
  lemma NinthStepReturns(ss: seq<State>, acts: seq<Action>, k: nat, n: nat, w: Id)
    requires IsRun(ss, acts) && k <= n < |ss| && w in ss[k].flagged
    ensures OwnSteps(acts, w, k, n) <= 9 && w in ss[n].calls && ss[n].calls[w].Wait?
    ensures OwnSteps(acts, w, k, n) == 9 ==> ss[n].calls[w].at == Returned(OK)
  {
    FlaggedReturns(ss, acts, k, n, w);
  }

  /** A waiter that finds a reason at each of its steps needs at most twelve from the start of its call
      to its return, whatever the other calls do in between. */
  lemma {:induction false} PressedReturns(ss: seq<State>, acts: seq<Action>, k: nat, n: nat, w: Id)
    requires IsRun(ss, acts) && k <= n < |ss| && w in ss[k].calls && ss[k].calls[w].Wait?
    requires forall m :: k <= m < n ==> PressedAtStep(ss, acts, m, w)
    ensures Near(ss[n], w, StepsLeft(ss[k].calls[w].at) - OwnSteps(acts, w, k, n)) && StepsLeft(ss[k].calls[w].at) <= 12
    decreases n
  {
    if k < n {
      PressedReturns(ss, acts, k, n - 1, w);
      StepOfRun(ss, acts, n - 1);
      assert PressedAtStep(ss, acts, n - 1, w);
      PressedStep(ss[n - 1], acts[n - 1], w, StepsLeft(ss[k].calls[w].at) - OwnSteps(acts, w, k, n - 1));
    }
  }

  /** The waiter has at most that many steps of its own before it. */
  ghost predicate Near(s: State, w: Id, n: int) {
    w in s.calls && s.calls[w].Wait? && StepsLeft(s.calls[w].at) <= n
  }

  ghost predicate PressedAtStep(ss: seq<State>, acts: seq<Action>, m: int, w: Id) {
    0 <= m < |acts| && m < |ss| && PressedAt(ss[m], acts[m], w)
  }

  /** If the waiter takes the step, it has a reason. */
  ghost predicate PressedAt(s: State, act: Action, w: Id) {
    act.Go? && act.id == w && w in s.calls && s.calls[w].Wait? ==> Pressed(s, w, act.expired)
  }

  lemma PressedStep(s: State, act: Action, w: Id, n: int)
    requires Enabled(s, act) && Near(s, w, n) && PressedAt(s, act, w)
    ensures Near(Do(s, act), w, if act.Go? && act.id == w then n - 1 else n)
  {
    StepFrame(s, act, w);
    if act.Go? && act.id == w { PressedNearer(s, w, act.expired); }
  }

  // ----- when a wait may end -----

  /** The word has the expected value and nobody has woken the waiter. */
  ghost predicate Waiting(s: State, w: Id)
    requires w in s.calls && s.calls[w].Wait?
  {
    s.Word(s.calls[w].a) == s.calls[w].expected && w !in s.flagged
  }

  /** The call holds the lock of the entry in which its waiter is listed. */
  ghost predicate HoldsEntry(s: State, w: Id) {
    && w in s.calls && s.calls[w].EntryHeld().Some? && s.calls[w].Listed() == s.calls[w].EntryHeld()
    && s.calls[w].EntryHeld().value in s.entries && s.entries[s.calls[w].EntryHeld().value].lock == Some(w)
  }

  /** How the outcome of a call is decided by one of its steps. */
  lemma OutcomeStep(s: State, w: Id, expired: bool)
    requires Inv(s) && CanMove(s, w) && s.calls[w].Wait?
    ensures var o, o' := s.calls[w].Outcome(), MoveWait(s, w, expired).calls[w].Outcome();
            && (o.Some? ==> o' == o)
            && (o == None && o'.Some? ==> HoldsEntry(s, w) && if o' == Some(OK) then !Waiting(s, w) else expired && Waiting(s, w))
  {
    assert CallOk(s, w);
    if s.calls[w].Outcome().Some? { DecidedStep(s, w, expired); } else { UndecidedStep(s, w, expired); }
  }

  lemma DecidedStep(s: State, w: Id, expired: bool)
    requires CanMove(s, w) && s.calls[w].Wait? && s.calls[w].Outcome().Some?
    ensures MoveWait(s, w, expired).calls[w].Outcome() == s.calls[w].Outcome()
  {
    var at := s.calls[w].at;
    if at.Leave? {} else if at.Tidy? {} else if at.TidyEntry? {} else {}
  }

  lemma UndecidedStep(s: State, w: Id, expired: bool)
    requires CanMove(s, w) && s.calls[w].Wait? && s.calls[w].Outcome() == None
    ensures var o := MoveWait(s, w, expired).calls[w].Outcome();
            o.Some? ==> (s.calls[w].at.Top? || s.calls[w].at.Recheck?) && if o == Some(OK) then !Waiting(s, w) else expired && Waiting(s, w)
  {
    var at := s.calls[w].at;
    if at.Top? {} else if at.Recheck? {} else if at.Start? {} else if at.Lookup? {} else if at.Enter? {}
    else if at.Parked? {} else if at.Woken? {} else {}
  }

  /** In every run: a wait that has ended with OK had been woken, or its word had another value, and
      one that has timed out had an expired deadline while its word had the expected value and nobody
      had woken it; this was so in an earlier state, in which the call held its entry's lock. */
  lemma {:induction false} OutcomeHasReason(ss: seq<State>, acts: seq<Action>, n: nat, w: Id) returns (m: nat)
    requires IsRun(ss, acts) && n < |ss| && w in ss[n].calls && ss[n].calls[w].Outcome().Some?
    ensures m < n && acts[m].Go? && acts[m].id == w && HoldsEntry(ss[m], w)
    ensures ss[m].calls[w].Wait? && ss[m].calls[w].a == ss[n].calls[w].a && ss[m].calls[w].expected == ss[n].calls[w].expected
    ensures var word, c := ss[m].Word(ss[n].calls[w].a), ss[n].calls[w];
            if c.Outcome() == Some(OK) then word != c.expected || w in ss[m].flagged
            else word == c.expected && w !in ss[m].flagged && acts[m].expired
  {
    m := n - 1;
    StepOfRun(ss, acts, m);
    StepFrame(ss[m], acts[m], w);
    SameWaiter(ss, acts, m, w);
    if acts[m].Go? && acts[m].id == w { OutcomeStep(ss[m], w, acts[m].expired); }
    if ss[m].calls[w].Outcome().Some? { m := OutcomeHasReason(ss, acts, m, w); }
  }

  lemma WaitingStep(s: State, w: Id)
    requires CanMove(s, w) && s.calls[w].Wait? && s.calls[w].Outcome() == None && Waiting(s, w)
    ensures var c' := MoveWait(s, w, false).calls[w];
            c'.Outcome() == None && (s.calls[w].Listed().Some? ==> c'.Listed() == s.calls[w].Listed())
  {
    UndecidedStep(s, w, false);
    var at := s.calls[w].at;
    if at.Top? {} else if at.Recheck? {} else if at.Start? {} else if at.Lookup? {} else if at.Enter? {}
    else if at.Parked? {} else if at.Woken? {} else {}
  }

  /** In every run: as long as the word has the expected value, nobody wakes the waiter and its deadline
      has not expired at a step of its own, the wait does not end, and the waiter stays in its list. */
  lemma {:induction false} StaysEnlisted(ss: seq<State>, acts: seq<Action>, k: nat, n: nat, w: Id)
    requires IsRun(ss, acts) && k <= n < |ss| && w in ss[k].calls && ss[k].calls[w].Wait? && ss[k].calls[w].Outcome() == None
    requires forall m :: k <= m < n ==> ss[m].Word(ss[k].calls[w].a) == ss[k].calls[w].expected
    requires forall m :: k <= m < n ==> acts[m] != Go(w, true)
    requires w !in ss[n].flagged
    ensures w in ss[n].calls && ss[n].calls[w].Wait? && ss[n].calls[w].Outcome() == None
    ensures ss[n].calls[w].a == ss[k].calls[w].a && ss[n].calls[w].expected == ss[k].calls[w].expected
    ensures ss[k].calls[w].Listed().Some? ==> ss[n].calls[w].Listed() == ss[k].calls[w].Listed()
    decreases n
  {
    if k < n {
      StepOfRun(ss, acts, n - 1);
      StepFrame(ss[n - 1], acts[n - 1], w);
      StaysEnlisted(ss, acts, k, n - 1, w);
      WaitingRunStep(ss[n - 1], acts[n - 1], w);
    }
  }

  lemma WaitingRunStep(s: State, act: Action, w: Id)
    requires Enabled(s, act) && w in s.calls && s.calls[w].Wait? && s.calls[w].Outcome() == None && Waiting(s, w) && act != Go(w, true)
    ensures w in Do(s, act).calls
    ensures var c, c' := s.calls[w], Do(s, act).calls[w];
            && c'.Wait? && c'.Outcome() == None && c'.a == c.a && c'.expected == c.expected
            && (c.Listed().Some? ==> c'.Listed() == c.Listed())
  {
    StepFrame(s, act, w);
    if act.Go? && act.id == w { WaitingStep(s, w); }
  }

  /** At the loop condition the call parks and releases the entry lock, unless there is a reason not to. */
  lemma TopStep(s: State, w: Id, expired: bool)
    requires CanMove(s, w) && s.calls[w].Wait? && s.calls[w].at.Top?
    ensures var s', e := Do(s, Go(w, expired)), s.calls[w].at.e;
            && w in s'.calls && e in s'.entries && s'.entries[e].waiters == s.entries[e].waiters
            && if !Waiting(s, w) then s'.calls[w].Outcome() == Some(OK)
               else if expired then s'.calls[w].Outcome() == Some(TimedOut)
               else s'.calls[w].at == Parked(e) && s'.entries[e].lock == None
  {
  }

  /** Behind the poll it times out at once, or goes back to the loop condition with the lock. */
  lemma RecheckStep(s: State, w: Id, expired: bool)
    requires CanMove(s, w) && s.calls[w].Wait? && s.calls[w].at.Recheck?
    ensures var s', e := Do(s, Go(w, expired)), s.calls[w].at.e;
            && w in s'.calls && s'.entries == s.entries
            && if expired && Waiting(s, w) then s'.calls[w].Outcome() == Some(TimedOut) else s'.calls[w].at == Top(e)
  {
  }

  // ----- first come, first woken -----

  /** The waiters of an entry after a step: as they were, with a newcomer at the end, or without one. */
  ghost predicate ListAfter(ws: seq<Id>, ws': seq<Id>, s: State, act: Action) {
    || ws' == ws
    || (act.Go? && act.id in s.calls && s.calls[act.id].Listed() == None && ws' == ws + [act.id])
    || (act.Go? && ws' == Remove(ws, act.id))
  }

  lemma ListStep(s: State, act: Action, e: EntryId)
    requires Inv(s) && Enabled(s, act) && e in Do(s, act).entries
    ensures if e in s.entries then ListAfter(s.entries[e].waiters, Do(s, act).entries[e].waiters, s, act)
            else Do(s, act).entries[e].waiters == []
  {
    if act.Go? {
      assert CallOk(s, act.id) && (s.nextEntry in s.entries ==> EntryOk(s, s.nextEntry));
      if s.calls[act.id].Wait? { WaitListStep(s, act.id, act.expired, e); } else { WakeListStep(s, act.id, e); }
    }
  }

  lemma WakeListStep(s: State, i: Id, e: EntryId)
    requires CanMove(s, i) && s.calls[i].Wake? && e in MoveWake(s, i).entries
    ensures e in s.entries && MoveWake(s, i).entries[e].waiters == s.entries[e].waiters
  {
    var at := s.calls[i].wat;
    if at.WStart? {} else if at.WLookup? {} else if at.WEnter? {} else if at.WHandOver? {} else {}
  }

  lemma WaitListStep(s: State, i: Id, expired: bool, e: EntryId)
    requires CanMove(s, i) && s.calls[i].Wait? && CallOk(s, i) && s.nextEntry !in s.entries
    requires e in MoveWait(s, i, expired).entries
    ensures var ws' := MoveWait(s, i, expired).entries[e].waiters;
            if e in s.entries then
              || ws' == s.entries[e].waiters
              || (s.calls[i].Listed() == None && ws' == s.entries[e].waiters + [i])
              || ws' == Remove(s.entries[e].waiters, i)
            else ws' == []
  {
    var at := s.calls[i].at;
    if at.Lookup? {} else if at.Enter? {} else if at.Leave? {} else { QuietStep(s, i, expired, e); }
  }

  /** All but three kinds of steps of a wait leave the lists alone. */
  lemma QuietStep(s: State, i: Id, expired: bool, e: EntryId)
    requires CanMove(s, i) && s.calls[i].Wait? && !s.calls[i].at.Lookup? && !s.calls[i].at.Enter? && !s.calls[i].at.Leave?
    ensures var s' := MoveWait(s, i, expired);
            && s'.entries.Keys == s.entries.Keys && (e in s.entries ==> s'.entries[e].waiters == s.entries[e].waiters)
            && forall a :: a in s'.registry ==> a in s.registry && s'.registry[a] == s.registry[a]
  {
    var at := s.calls[i].at;
    if at.Top? {} else if at.Recheck? {} else if at.Start? {} else if at.Parked? {} else if at.Woken? {}
    else if at.Polling? {} else if at.Tidy? {} else if at.TidyEntry? {} else {}
  }

  lemma {:induction false} RemoveOrder(ws: seq<Id>, i: Id, p: nat, q: nat) returns (p': nat, q': nat)
    requires p < q < |Remove(ws, i)|
    ensures p' < q' < |ws| && ws[p'] == Remove(ws, i)[p] && ws[q'] == Remove(ws, i)[q]
  {
    if ws[0] == i {
      p', q' := RemoveOrder(ws[1..], i, p, q);
      p', q' := p' + 1, q' + 1;
    } else if p > 0 {
      p', q' := RemoveOrder(ws[1..], i, p - 1, q - 1);
      p', q' := p' + 1, q' + 1;
    } else {
      RemoveElems(ws[1..], i);
      var x := Remove(ws[1..], i)[q - 1];
      assert x in Remove(ws[1..], i);
      q' :| 0 < q' < |ws| && ws[q'] == x;
      p' := 0;
    }
  }

  ghost predicate IsListed(s: State, w: Id) {
    w in s.calls && s.calls[w].Listed().Some?
  }

  /** In every run: of two waiters in a list the one in front was enlisted first; in some earlier state
      it was in the list and the other one was not. */
  lemma {:induction false} ListInOrder(ss: seq<State>, acts: seq<Action>, n: nat, e: EntryId, p: nat, q: nat) returns (m: nat)
    requires IsRun(ss, acts) && n < |ss| && e in ss[n].entries && p < q < |ss[n].entries[e].waiters|
    ensures m < n && e in ss[m].entries && ss[n].entries[e].waiters[p] in ss[m].entries[e].waiters
    ensures !IsListed(ss[m], ss[n].entries[e].waiters[q])
    decreases n
  {
    m := n - 1;
    StepOfRun(ss, acts, m);
    ListStep(ss[m], acts[m], e);
    var ws, ws' := ss[m].entries[e].waiters, ss[n].entries[e].waiters;
    if ws' == ws {
      m := ListInOrder(ss, acts, m, e, p, q);
    } else if acts[m].Go? && ws' == Remove(ws, acts[m].id) {
      var p', q' := RemoveOrder(ws, acts[m].id, p, q);
      m := ListInOrder(ss, acts, m, e, p', q');
    } else if q < |ws| {
      m := ListInOrder(ss, acts, m, e, p, q);
    }
  }

  /** A wake passes over nobody: a waiter in front of one that it flags is flagged too. */
  lemma {:induction false} OlderFirst(waiters: seq<Id>, flagged: set<Id>, count: nat, p: nat, q: nat)
    requires Distinct(waiters) && p < q < |waiters| && waiters[q] in ToFlag(waiters, flagged, count)
    ensures waiters[p] in flagged || waiters[p] in ToFlag(waiters, flagged, count)
  {
    if p > 0 {
      OlderFirst(waiters[1..], flagged, if waiters[0] in flagged || count == INT_MAX then count else count - 1, p - 1, q - 1);
    }
  }

  /** In every run: when a step flags a waiter, everyone in front of it in its list is flagged. */
  lemma FirstComeFirstWoken(ss: seq<State>, acts: seq<Action>, k: nat, e: EntryId, p: nat, q: nat)
    requires IsRun(ss, acts) && k < |acts| && e in ss[k].entries && p < q < |ss[k].entries[e].waiters|
    requires ss[k].entries[e].waiters[q] in ss[k + 1].flagged && ss[k].entries[e].waiters[q] !in ss[k].flagged
    ensures ss[k].entries[e].waiters[p] in ss[k + 1].flagged
  {
    StepOfRun(ss, acts, k);
    var s, i := ss[k], acts[k].id;
    assert CallOk(s, i) && EntryOk(s, e);
    var d := FlaggingStep(s, acts[k]);
    assert EntryOk(s, d) && d == e;
    OlderFirst(s.entries[e].waiters, s.flagged, s.calls[i].count, p, q);
  }

  lemma FlaggingStep(s: State, act: Action) returns (d: EntryId)
    requires Inv(s) && Enabled(s, act) && Do(s, act).flagged != s.flagged
    ensures act.Go? && s.calls[act.id].Wake? && d in s.entries
    ensures Do(s, act).flagged == s.flagged + Elems(ToFlag(s.entries[d].waiters, s.flagged, s.calls[act.id].count))
    ensures forall w :: w in Do(s, act).flagged && w !in s.flagged ==> w in s.entries[d].waiters
  {
    var c := s.calls[act.id];
    assert CallOk(s, act.id);
    d := c.wat.e;
    assert EntryOk(s, d);
    ToFlagNew(s.entries[d].waiters, s.flagged, c.count);
  }

  /** The waiters at an address that nobody has woken yet. */
  ghost function Sleepers(s: State, a: Addr): set<Id> {
    set w | w in s.calls && s.calls[w].a == a && s.calls[w].Listed().Some? && w !in s.flagged
  }

  /** As many of a set of waiters have been flagged as asked for, or all, and nobody else. */
  ghost predicate FlagsUpTo(was: set<Id>, now: set<Id>, all: set<Id>, count: nat) {
    now - was <= all && |now - was| == if count == INT_MAX || count >= |all| then |all| else count
  }

  /** The step with which a wake returns flags as many sleepers at its address as it was asked to, or
      all of them, and nobody else. */
  lemma WakeCounts(s: State, i: Id)
    requires Inv(s) && CanMove(s, i) && s.calls[i].Wake? && MoveWake(s, i).calls[i].Finished()
    ensures FlagsUpTo(s.flagged, MoveWake(s, i).flagged, Sleepers(s, s.calls[i].a), s.calls[i].count)
  {
    assert CallOk(s, i);
    if s.calls[i].wat.WFlag? { FlagCounts(s, i); } else { NobodyThere(s, s.calls[i].a); }
  }

  lemma NobodyThere(s: State, a: Addr)
    requires Inv(s) && a !in s.registry
    ensures Sleepers(s, a) == {}
  {
    forall w | w in s.calls && s.calls[w].Listed().Some? ensures s.calls[w].a in s.registry {
      assert CallOk(s, w) && EntryOk(s, s.calls[w].Listed().value);
    }
  }

  lemma FlagCounts(s: State, i: Id)
    requires Inv(s) && CanMove(s, i) && s.calls[i].Wake? && s.calls[i].wat.WFlag?
    ensures FlagsUpTo(s.flagged, MoveWake(s, i).flagged, Sleepers(s, s.calls[i].a), s.calls[i].count)
  {
    var c := s.calls[i];
    assert CallOk(s, i) && EntryOk(s, c.wat.e);
    var ws := s.entries[c.wat.e].waiters;
    UnflaggedElems(ws, s.flagged);
    SleepersAreUnflagged(s, i);
    WakeFlagsOldest(s, i);
    FirstOf(Unflagged(ws, s.flagged), c.count, s.flagged, MoveWake(s, i).flagged);
  }

  lemma SleepersAreUnflagged(s: State, i: Id)
    requires Inv(s) && i in s.calls && s.calls[i].Wake? && s.calls[i].wat.WFlag? && s.calls[i].wat.e in s.entries
    ensures Sleepers(s, s.calls[i].a) == Elems(s.entries[s.calls[i].wat.e].waiters) - s.flagged
  {
    var ws := s.entries[s.calls[i].wat.e].waiters;
    assert EntryOk(s, s.calls[i].wat.e);
    forall w | w in s.calls ensures s.calls[w].Listed().Some? && s.calls[w].a == s.calls[i].a <==> w in ws { ListIsWaiters(s, i, w); }
  }

  lemma FirstOf(u: seq<Id>, count: nat, was: set<Id>, now: set<Id>)
    requires Distinct(u) && Elems(u) !! was
    requires now == was + Elems(if count == INT_MAX || count >= |u| then u else u[..count])
    ensures FlagsUpTo(was, now, Elems(u), count)
  {
    var fs := if count == INT_MAX || count >= |u| then u else u[..count];
    DistinctSize(u);
    DistinctSize(fs);
    assert forall w :: w in Elems(fs) ==> w in Elems(u);
    assert now - was == Elems(fs);
  }

  // ----- nothing is left behind -----

  /** The call has found or created entry e for its address and is about to enlist, or found its list
      empty and has not finished tidying up. */
  ghost predicate Tends(s: State, j: Id, a: Addr, e: EntryId) {
    j in s.calls && s.calls[j].Wait? && s.calls[j].a == a && s.calls[j].Entry() == Some(e) && s.calls[j].Listed() == None
  }

  ghost predicate InUse(s: State, a: Addr)
    requires a in s.registry && s.registry[a] in s.entries
  {
    s.entries[s.registry[a]].waiters != [] || exists j :: Tends(s, j, a, s.registry[a])
  }

  ghost predicate AllInUse(s: State) {
    forall a :: a in s.registry ==> s.registry[a] in s.entries && InUse(s, a)
  }

  lemma UseStep(s: State, act: Action, a: Addr)
    requires Inv(s) && AllInUse(s) && Enabled(s, act) && a in Do(s, act).registry
    ensures Do(s, act).registry[a] in Do(s, act).entries && InUse(Do(s, act), a)
  {
    if act.Go? {
      if s.calls[act.id].Wait? { UseWaitStep(s, act.id, act.expired, a); } else { UseWakeStep(s, act.id, a); }
    } else {
      assert InUse(s, a);
      if s.entries[s.registry[a]].waiters == [] {
        var j :| Tends(s, j, a, s.registry[a]);
        assert Tends(Do(s, act), j, a, s.registry[a]);
      }
    }
  }

  lemma UseWakeStep(s: State, i: Id, a: Addr)
    requires Inv(s) && AllInUse(s) && CanMove(s, i) && s.calls[i].Wake? && a in MoveWake(s, i).registry
    ensures MoveWake(s, i).registry[a] in MoveWake(s, i).entries && InUse(MoveWake(s, i), a)
  {
    WakeKeepsRegistry(s, i);
    var e := s.registry[a];
    assert InUse(s, a);
    WakeListStep(s, i, e);
    if s.entries[e].waiters == [] {
      var j :| Tends(s, j, a, e);
      assert Tends(MoveWake(s, i), j, a, e);
    }
  }

  lemma WakeKeepsRegistry(s: State, i: Id)
    requires CanMove(s, i) && s.calls[i].Wake?
    ensures MoveWake(s, i).registry == s.registry && MoveWake(s, i).entries.Keys == s.entries.Keys
  {
    var at := s.calls[i].wat;
    if at.WStart? {} else if at.WLookup? {} else if at.WEnter? {} else if at.WHandOver? {} else {}
  }

  lemma UseWaitStep(s: State, i: Id, expired: bool, a: Addr)
    requires Inv(s) && AllInUse(s) && CanMove(s, i) && s.calls[i].Wait? && a in MoveWait(s, i, expired).registry
    ensures MoveWait(s, i, expired).registry[a] in MoveWait(s, i, expired).entries && InUse(MoveWait(s, i, expired), a)
  {
    var s' := MoveWait(s, i, expired);
    RegistryStep(s, i, expired, a);
    var e := s'.registry[a];
    if s'.entries[e].waiters == [] {
      if a in s.registry && s.entries[e].waiters == [] {
        assert InUse(s, a);
        var j :| Tends(s, j, a, e);
        if j == i { TenderStep(s, i, expired, a); }
        assert Tends(s', j, a, e);
      } else {
        assert Tends(s', i, a, e);
      }
    }
  }

  /** An address stays registered with its entry, or a call has just registered it. */
  lemma RegistryStep(s: State, i: Id, expired: bool, a: Addr)
    requires Inv(s) && CanMove(s, i) && s.calls[i].Wait? && a in MoveWait(s, i, expired).registry
    ensures var s' := MoveWait(s, i, expired); var e := s'.registry[a];
            && e in s'.entries
            && (if a in s.registry then e == s.registry[a] && e in s.entries else Tends(s', i, a, e))
            && (a in s.registry && s.entries[e].waiters != [] && s'.entries[e].waiters == [] ==> Tends(s', i, a, e))
  {
    assert CallOk(s, i) && (s.nextEntry in s.entries ==> EntryOk(s, s.nextEntry));
    if s.calls[i].at.Lookup? { LookupRegistry(s, i, expired, a); }
    else if s.calls[i].at.Leave? { LeaveRegistry(s, i, expired, a); }
    else { OtherRegistry(s, i, expired, a); }
  }

  lemma LookupRegistry(s: State, i: Id, expired: bool, a: Addr)
    requires RegistryOk(s) && CanMove(s, i) && s.calls[i].Wait? && s.calls[i].at.Lookup? && s.nextEntry !in s.entries
    requires a in MoveWait(s, i, expired).registry
    ensures var s' := MoveWait(s, i, expired); var e := s'.registry[a];
            && e in s'.entries
            && (if a in s.registry then e == s.registry[a] && e in s.entries && s'.entries[e].waiters == s.entries[e].waiters
                else Tends(s', i, a, e))
  {
  }

  lemma LeaveRegistry(s: State, i: Id, expired: bool, a: Addr)
    requires RegistryOk(s) && CanMove(s, i) && s.calls[i].Wait? && s.calls[i].at.Leave? && CallOk(s, i)
    requires a in MoveWait(s, i, expired).registry
    ensures var s' := MoveWait(s, i, expired); var e := s'.registry[a];
            && a in s.registry && e == s.registry[a] && e in s.entries && e in s'.entries
            && (s.entries[e].waiters != [] && s'.entries[e].waiters == [] ==> Tends(s', i, a, e))
  {
  }

  lemma OtherRegistry(s: State, i: Id, expired: bool, a: Addr)
    requires RegistryOk(s) && CanMove(s, i) && s.calls[i].Wait? && !s.calls[i].at.Lookup? && !s.calls[i].at.Leave?
    requires a in MoveWait(s, i, expired).registry
    ensures var s' := MoveWait(s, i, expired); var e := s'.registry[a];
            && a in s.registry && e == s.registry[a] && e in s.entries && e in s'.entries
            && (s.entries[e].waiters != [] ==> s'.entries[e].waiters != [])
  {
    if !s.calls[i].at.Enter? { QuietStep(s, i, expired, MoveWait(s, i, expired).registry[a]); }
  }

  /** A call that tends an entry goes on doing so until it enlists in it or drops it. */
  lemma TenderStep(s: State, i: Id, expired: bool, a: Addr)
    requires CanMove(s, i) && a in s.registry && s.registry[a] in s.entries && Tends(s, i, a, s.registry[a])
    requires s.entries[s.registry[a]].waiters == []
    requires var s' := MoveWait(s, i, expired); a in s'.registry && s.registry[a] in s'.entries && s'.entries[s.registry[a]].waiters == []
    ensures Tends(MoveWait(s, i, expired), i, a, s.registry[a])
  {
    var at := s.calls[i].at;
    if at.Enter? {} else if at.Tidy? {} else if at.TidyEntry? {} else {}
  }

  lemma {:induction false} RegistryInUse(ss: seq<State>, acts: seq<Action>, n: nat)
    requires IsRun(ss, acts) && n < |ss|
    ensures AllInUse(ss[n])
  {
    if n > 0 {
      RegistryInUse(ss, acts, n - 1);
      StepOfRun(ss, acts, n - 1);
      forall a | a in ss[n].registry ensures ss[n].registry[a] in ss[n].entries && InUse(ss[n], a) {
        UseStep(ss[n - 1], acts[n - 1], a);
      }
    }
  }

  /** In every run: when no call is under way, the registry is empty, no waiter is listed and every lock
      is free. */
  lemma QuietIsClean(ss: seq<State>, acts: seq<Action>, n: nat)
    requires IsRun(ss, acts) && n < |ss|
    ensures (forall i :: i in ss[n].calls ==> ss[n].calls[i].Finished()) ==>
      && ss[n].registry == map[] && ss[n].registryLock == None
      && forall e :: e in ss[n].entries ==> ss[n].entries[e].waiters == [] && ss[n].entries[e].lock == None
  {
    var s := ss[n];
    RunKeepsInv(ss, acts, n);
    RegistryInUse(ss, acts, n);
    forall e | e in s.entries && (s.entries[e].waiters != [] || s.entries[e].lock.Some?) ensures UnderWay(s) { BusyEntry(s, e); }
    forall a | a in s.registry ensures UnderWay(s) { BusyAddress(s, a); }
    if s.registryLock.Some? { assert CallOk(s, s.registryLock.value); }
    if s.registry != map[] { assert exists a :: a in s.registry; }
  }

  ghost predicate UnderWay(s: State) { exists i :: i in s.calls && !s.calls[i].Finished() }

  lemma BusyEntry(s: State, e: EntryId)
    requires Inv(s) && e in s.entries && (s.entries[e].waiters != [] || s.entries[e].lock.Some?)
    ensures UnderWay(s)
  {
    assert EntryOk(s, e);
    var j := if s.entries[e].lock.Some? then s.entries[e].lock.value else s.entries[e].waiters[0];
    assert s.entries[e].lock == None ==> j in s.entries[e].waiters;
    assert j in s.calls && !s.calls[j].Finished();
  }

  lemma BusyAddress(s: State, a: Addr)
    requires Inv(s) && AllInUse(s) && a in s.registry
    ensures UnderWay(s)
  {
    assert InUse(s, a);
    var e := s.registry[a];
    if s.entries[e].waiters != [] { BusyEntry(s, e); } else {
      var j :| Tends(s, j, a, e);
      assert j in s.calls && !s.calls[j].Finished();
    }
  }

  // ----- accounting -----

  /** A waiter that timed out was never flagged, and every flag ever set is on a waiter that is still
      enlisted or that returned OK: no wake is lost or counted twice. */
  lemma WakesAccounted(ss: seq<State>, acts: seq<Action>, k: nat)
    requires IsRun(ss, acts) && k < |ss|
    ensures var s := ss[k];
      var listed := set w | w in s.flagged && w in s.calls && s.calls[w].Listed().Some?;
      var woken := set w | w in s.flagged && w in s.calls && s.calls[w].Listed() == None && s.calls[w].Outcome() == Some(OK);
      && s.wakes == |listed| + |woken|
      && forall w :: w in s.calls && s.calls[w].Outcome() == Some(TimedOut) ==> w !in s.flagged
  {
    var s := ss[k];
    RunKeepsInv(ss, acts, k);
    var listed := set w | w in s.flagged && w in s.calls && s.calls[w].Listed().Some?;
    var woken := set w | w in s.flagged && w in s.calls && s.calls[w].Listed() == None && s.calls[w].Outcome() == Some(OK);
    forall w | w in s.calls ensures s.calls[w].Outcome() == Some(TimedOut) ==> w !in s.flagged { assert CallOk(s, w); }
    forall w | w in s.flagged ensures w in listed || w in woken { FlaggedIsKnown(s, w); }
    assert s.flagged == listed + woken && listed !! woken;
  }

  lemma FlaggedIsKnown(s: State, w: Id)
    requires Inv(s) && w in s.flagged
    ensures w in s.calls && (s.calls[w].Listed().Some? || s.calls[w].Outcome() == Some(OK))
  {
    assert w in s.calls && CallOk(s, w);
  }

  /** The entry a wake has found lists exactly the waiters at its address. */
  lemma ListIsWaiters(s: State, i: Id, w: Id)
    requires Inv(s) && i in s.calls && s.calls[i].Wake? && s.calls[i].wat.WFlag? && w in s.calls
    ensures s.calls[i].wat.e in s.entries
    ensures s.calls[w].Listed().Some? && s.calls[w].a == s.calls[i].a <==> w in s.entries[s.calls[i].wat.e].waiters
  {
    assert CallOk(s, i) && EntryOk(s, s.calls[i].wat.e);
    assert CallOk(s, w);
    if s.calls[w].Listed().Some? { assert EntryOk(s, s.calls[w].Listed().value); }
  }

  /** A wake of n flags exactly the oldest n unflagged waiters at its address, all of them if there
      are no more than n or if n is INT_MAX. */
  lemma WakeFlagsOldest(s: State, i: Id)
    requires Inv(s) && CanMove(s, i) && s.calls[i].Wake? && s.calls[i].wat.WFlag?
    ensures var c := s.calls[i]; var ws := s.entries[c.wat.e].waiters; var u := Unflagged(ws, s.flagged);
      && MoveWake(s, i).flagged == s.flagged + Elems(if c.count == INT_MAX || c.count >= |u| then u else u[..c.count])
      && Elems(u) == Elems(ws) - s.flagged
  {
    var c := s.calls[i];
    assert CallOk(s, i);
    ToFlagIsOldest(s.entries[c.wat.e].waiters, s.flagged, c.count);
    UnflaggedElems(s.entries[c.wat.e].waiters, s.flagged);
  }
}
