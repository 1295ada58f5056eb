/**
 `KFutex` of kernel/src/sched/sync.rs: `block` and `unblock`, and the part of the scheduler they
 rely on, as a state machine.

 Every step is one atomic operation, or the taking or dropping of one lock, by one thread; any
 thread that can make a step may be the next to make one.  Atomic operations are taken to be
 sequentially consistent, and the futex is not destroyed.
 */
module KFutexes {
  import opened Arith

  /** Where a thread is in `block`, in the scheduler, or in `unblock`. */
  datatype Phase =
    | Out
      // block
    | Spinning           // `wait_count` was not negative: spins for the block lock
    | Holding            // has the block lock
    | Parked             // its state is `FutexBlock`: the next switch on its processor files it
    | Filing             // the scheduler has opened the block lock for it, and holds the thread lists
    | Listed             // in the list of the futex
    | Released           // in the ready list, or never blocked: `block` is about to return
      // unblock(n)
    | Calling(n: nat)    // spins for the block lock
    | Inside(n: nat)     // has the block lock, spins for the thread lists
    | Locked(n: nat)     // has both
    | Moving(n: nat)     // has issued its credits; `n` threads are still to be moved
    | Moved              // the loop of `inner_state_move` is over
    | Leaving            // has dropped the thread lists
    | Done               // has dropped the block lock: `unblock` is about to return

  /**
   The futex.  `list` is its thread list, first in first out.  The last two fields are a record
   of the past: the credits that `unblock` has issued, and the calls of `block` that have been
   let go.
   */
  datatype KFutex = KFutex(
    waitCount: int,
    blockLock: bool,
    tlist: bool,
    list: seq<nat>,
    phase: seq<Phase>,
    issued: nat,
    released: nat)

  datatype Event =
    | Enter(t: nat)            // wait_count.fetch_add(1)
    | TakeLock(t: nat)         // block_lock.try_lock() succeeds
    | SetState(t: nat)         // block(FutexBlock): set_state
    | ForceUnlock(t: nat)      // schedule: locks the lists, atomic_process
    | Insert(t: nat)           // schedule: insert_into; the lists are dropped
    | BlockReturns(t: nat)
    | Call(t: nat, n: nat)     // unblock(n)
    | TakeBlockLock(t: nat)
    | TakeTlist(t: nat)
    | Sub(t: nat)              // wait_count.fetch_sub(n)
    | MoveOne(t: nat)          // inner_state_move: pop_front, set_state, insert_into
    | EndMove(t: nat)          // ... n threads have been moved, or the list is empty
    | DropTlist(t: nat)
    | DropBlockLock(t: nat)
    | UnblockReturns(t: nat)

  /** `new`, seen by a given number of threads. */
  function Fresh(threads: nat): KFutex {
    KFutex(0, false, false, [], seq(threads, _ => Out), 0, 0)
  }

  predicate Enabled(k: KFutex, e: Event) {
    && e.t < |k.phase|
    && var p := k.phase[e.t];
    match e
    case Enter(_) => p.Out?
    case TakeLock(_) => p.Spinning? && !k.blockLock
    case SetState(_) => p.Holding?
    case ForceUnlock(_) => p.Parked? && !k.tlist
    case Insert(_) => p.Filing?
    case BlockReturns(_) => p.Released?
    case Call(_, _) => p.Out?
    case TakeBlockLock(_) => p.Calling? && !k.blockLock
    case TakeTlist(_) => p.Inside? && !k.tlist
    case Sub(_) => p.Locked?
    case MoveOne(_) => p.Moving? && p.n > 0 && k.list != []
    case EndMove(_) => p.Moving? && (p.n == 0 || k.list == [])
    case DropTlist(_) => p.Moved?
    case DropBlockLock(_) => p.Leaving?
    case UnblockReturns(_) => p.Done?
  }

  function Goes(k: KFutex, t: nat, p: Phase): KFutex {
    if t < |k.phase| then k.(phase := k.phase[t := p]) else k
  }

  function Next(k: KFutex, e: Event): KFutex
    requires Enabled(k, e)
  {
    var p := k.phase[e.t];
    match e
    case Enter(t) =>
      if k.waitCount >= 0 then Goes(k, t, Spinning).(waitCount := k.waitCount + 1)
      else Goes(k, t, Released).(waitCount := k.waitCount + 1, released := k.released + 1)
    case TakeLock(t) => Goes(k, t, Holding).(blockLock := true)
    case SetState(t) => Goes(k, t, Parked)
    case ForceUnlock(t) => Goes(k, t, Filing).(tlist := true, blockLock := false)
    case Insert(t) => Goes(k, t, Listed).(list := k.list + [t], tlist := false)
    case BlockReturns(t) => Goes(k, t, Out)
    case Call(t, n) => Goes(k, t, Calling(n))
    case TakeBlockLock(t) => Goes(k, t, Inside(p.n)).(blockLock := true)
    case TakeTlist(t) => Goes(k, t, Locked(p.n)).(tlist := true)
    case Sub(t) => Goes(k, t, Moving(p.n)).(waitCount := k.waitCount - p.n, issued := k.issued + p.n)
    case MoveOne(t) =>
      Goes(Goes(k, t, Moving(p.n - 1)), k.list[0], Released).(list := k.list[1..], released := k.released + 1)
    case EndMove(t) => Goes(k, t, Moved)
    case DropTlist(t) => Goes(k, t, Leaving).(tlist := false)
    case DropBlockLock(t) => Goes(k, t, Done).(blockLock := false)
    case UnblockReturns(t) => Goes(k, t, Out)
  }

  // ---------------------------------------------------------------------------------------
  // Counting threads

  /** What is counted. */
  datatype What =
    | LockHolders    // hold the block lock
    | ListHolders    // hold the thread lists
    | Waiting        // blocked or about to block
    | InList
    | Lockers        // in `block`
    | LetGo          // released, but still to return
    | Tickets        // credits not yet issued, and released threads that have not returned
    | Spinners       // spin for the block lock, to block
    | ToMove         // threads a move under way may still let go
    | StepsLeft      // at most so many steps until the call returns, or is in the list to stay

  function Weight(w: What, p: Phase): nat {
    match w
    case LockHolders => if p.Holding? || p.Parked? || p.Inside? || p.Locked? || p.Moving? || p.Moved?
      || p.Leaving? then 1 else 0
    case ListHolders => if p.Filing? || p.Locked? || p.Moving? || p.Moved? then 1 else 0
    case Waiting => if p.Spinning? || p.Holding? || p.Parked? || p.Filing? || p.Listed? then 1 else 0
    case InList => if p.Listed? then 1 else 0
    case Lockers => if p.Spinning? || p.Holding? || p.Parked? || p.Filing? || p.Listed? || p.Released? then 1 else 0
    case LetGo => if p.Released? then 1 else 0
    case Tickets => if p.Calling? || p.Inside? || p.Locked? then p.n else if p.Released? then 1 else 0
    case Spinners => if p.Spinning? then 1 else 0
    case ToMove => if p.Moving? then p.n else 0
    case StepsLeft => Left(p)
  }

  function Left(p: Phase): nat {
    match p
    case Out => 0
    case Released => 1
    case Listed => 2
    case Filing => 3
    case Parked => 4
    case Holding => 5
    case Spinning => 6
    case Done => 1
    case Leaving => 2
    case Moved => 3
    case Moving(n) => n + 4
    case Locked(n) => n + 5
    case Inside(n) => n + 6
    case Calling(n) => n + 7
  }

  function Sum(w: What, s: seq<Phase>): nat {
    if s == [] then 0 else Weight(w, s[0]) + Sum(w, s[1..])
  }

  /** A thread that changes its phase changes a sum by its own weight. */
  lemma {:induction false} SumChange(w: What, s: seq<Phase>, t: nat, p: Phase)
    requires t < |s|
    ensures Sum(w, s[t := p]) == Sum(w, s) - Weight(w, s[t]) + Weight(w, p)
  {
    if t == 0 {
      assert s[t := p][1..] == s[1..];
    } else {
      assert s[t := p][1..] == s[1..][t - 1 := p];
      SumChange(w, s[1..], t - 1, p);
    }
  }

  lemma {:induction false} SumAtLeast(w: What, s: seq<Phase>, t: nat)
    requires t < |s|
    ensures Sum(w, s) >= Weight(w, s[t])
  {
    if t > 0 {
      SumAtLeast(w, s[1..], t - 1);
    }
  }

  lemma {:induction false} SumAtLeastTwo(w: What, s: seq<Phase>, t: nat, u: nat)
    requires t < u < |s|
    ensures Sum(w, s) >= Weight(w, s[t]) + Weight(w, s[u])
  {
    if t == 0 {
      SumAtLeast(w, s[1..], u - 1);
    } else {
      SumAtLeastTwo(w, s[1..], t - 1, u - 1);
    }
  }

  lemma {:induction false} SumMonotone(v: What, w: What, s: seq<Phase>)
    requires forall p :: Weight(v, p) <= Weight(w, p)
    ensures Sum(v, s) <= Sum(w, s)
  {
    if s != [] {
      SumMonotone(v, w, s[1..]);
    }
  }

  // ---------------------------------------------------------------------------------------
  // The invariant

  /** The list holds just the threads that are filed, each once. */
  predicate ListRight(k: KFutex) {
    && (forall i :: 0 <= i < |k.list| ==> k.list[i] < |k.phase| && k.phase[k.list[i]].Listed?)
    && (forall i, j :: 0 <= i < j < |k.list| ==> k.list[i] != k.list[j])
    && |k.list| == Sum(InList, k.phase)
  }

  /** Nobody is let go without a credit, now or in the rest of a move that has begun. */
  predicate Covered(k: KFutex) {
    && k.released <= k.issued
    && forall t :: 0 <= t < |k.phase| && k.phase[t].Moving? ==> k.released + Min(k.phase[t].n, |k.list|) <= k.issued
  }

  predicate Inv(k: KFutex) {
    && Sum(LockHolders, k.phase) == (if k.blockLock then 1 else 0)
    && Sum(ListHolders, k.phase) == (if k.tlist then 1 else 0)
    && ListRight(k)
    && k.waitCount + k.issued == Sum(Waiting, k.phase) + k.released
    && Covered(k)
  }

  /** What the threads in `unblock` and the banked credits are worth to the caller above. */
  function Tokens(k: KFutex): int {
    Sum(Tickets, k.phase) + k.issued - k.released
  }

  lemma {:induction false} NothingInFresh(w: What, threads: nat)
    ensures Sum(w, Fresh(threads).phase) == 0
  {
    if threads > 0 {
      assert Fresh(threads).phase[1..] == Fresh(threads - 1).phase;
      NothingInFresh(w, threads - 1);
    }
  }

  lemma FreshInv(threads: nat)
    ensures Inv(Fresh(threads)) && Tokens(Fresh(threads)) == 0
  {
    NothingInFresh(LockHolders, threads);
    NothingInFresh(ListHolders, threads);
    NothingInFresh(Waiting, threads);
    NothingInFresh(InList, threads);
    NothingInFresh(Tickets, threads);
  }

  lemma Change(s: seq<Phase>, t: nat, p: Phase)
    requires t < |s|
    ensures forall w {:trigger Sum(w, s[t := p])} :: Sum(w, s[t := p]) == Sum(w, s) - Weight(w, s[t]) + Weight(w, p)
  {
    forall w ensures Sum(w, s[t := p]) == Sum(w, s) - Weight(w, s[t]) + Weight(w, p) {
      SumChange(w, s, t, p);
    }
  }

  /** What a step changes in the tokens ... */
  function TokenChange(e: Event): int {
    match e
    case Call(_, n) => n
    case BlockReturns(_) => -1
    case _ => 0
  }

  /** ... and in the number of threads in `block`. */
  function LockerChange(e: Event): int {
    match e
    case Enter(_) => 1
    case BlockReturns(_) => -1
    case _ => 0
  }

  ghost predicate StepKeeps(k: KFutex, e: Event)
    requires Enabled(k, e)
  {
    var k' := Next(k, e);
    && Inv(k') && |k'.phase| == |k.phase|
    && Tokens(k') == Tokens(k) + TokenChange(e)
    && Sum(Lockers, k'.phase) == Sum(Lockers, k.phase) + LockerChange(e)
    && k'.released - Sum(LetGo, k'.phase) == k.released - Sum(LetGo, k.phase) + (if e.BlockReturns? then 1 else 0)
  }

  /** A thread enters `block`: it is let go only on a banked credit. */
  lemma EnterStep(k: KFutex, e: Event)
    requires Inv(k) && Enabled(k, e) && (e.Enter?)
    ensures StepKeeps(k, e)
  {
    hide Left, Sum;
    var k' := Next(k, e);
    Change(k.phase, e.t, k'.phase[e.t]);
    SumMonotone(InList, Waiting, k.phase);
  }

  /** The steps of `block` up to the filing, and its return. */
  lemma BlockStep(k: KFutex, e: Event)
    requires Inv(k) && Enabled(k, e) && (e.TakeLock? || e.SetState? || e.ForceUnlock? || e.BlockReturns?)
    ensures StepKeeps(k, e)
  {
    hide Left, Sum;
    var k' := Next(k, e);
    Change(k.phase, e.t, k'.phase[e.t]);
  }

  /** The steps of `unblock` up to the issue of credits ... */
  lemma CallStep(k: KFutex, e: Event)
    requires Inv(k) && Enabled(k, e) && (e.Call? || e.TakeBlockLock? || e.TakeTlist?)
    ensures StepKeeps(k, e)
  {
    hide Left, Sum;
    var k' := Next(k, e);
    Change(k.phase, e.t, k'.phase[e.t]);
  }

  /** ... and after the last move. */
  lemma LeaveStep(k: KFutex, e: Event)
    requires Inv(k) && Enabled(k, e) && (e.EndMove? || e.DropTlist? || e.DropBlockLock? || e.UnblockReturns?)
    ensures StepKeeps(k, e)
  {
    hide Left, Sum;
    var k' := Next(k, e);
    Change(k.phase, e.t, k'.phase[e.t]);
  }

  /** Credits are issued before anybody is moved. */
  lemma SubStep(k: KFutex, e: Event)
    requires Inv(k) && Enabled(k, e) && (e.Sub?)
    ensures StepKeeps(k, e)
  {
    hide Left, Sum;
    var k' := Next(k, e);
    Change(k.phase, e.t, k'.phase[e.t]);
    OnlyMover(k, e.t);
  }

  /** Only one thread holds the thread lists. */
  lemma OnlyMover(k: KFutex, t: nat)
    requires Inv(k) && t < |k.phase| && Weight(ListHolders, k.phase[t]) == 1
    ensures forall u :: 0 <= u < |k.phase| && u != t ==> Weight(ListHolders, k.phase[u]) == 0
  {
    forall u | 0 <= u < |k.phase| && u != t ensures Weight(ListHolders, k.phase[u]) == 0 {
      SumAtLeastTwo(ListHolders, k.phase, if t < u then t else u, if t < u then u else t);
    }
  }

  /** The scheduler files a thread: nobody is moving threads meanwhile. */
  lemma InsertStep(k: KFutex, e: Event)
    requires Inv(k) && Enabled(k, e) && (e.Insert?)
    ensures StepKeeps(k, e)
  {
    hide Left, Sum;
    var k' := Next(k, e);
    Change(k.phase, e.t, k'.phase[e.t]);
    OnlyMover(k, e.t);
  }

  /** One thread is moved to the ready list. */
  lemma MoveStep(k: KFutex, e: Event)
    requires Inv(k) && Enabled(k, e) && (e.MoveOne?)
    ensures StepKeeps(k, e)
  {
    hide Left, Sum;
    OnlyMover(k, e.t);
    var k' := Next(k, e);
    var first := k.list[0];
    var mid := k.phase[e.t := k'.phase[e.t]];
    Change(k.phase, e.t, k'.phase[e.t]);
    Change(mid, first, Released);
  }

  /** Every step of every thread keeps the invariant. */
  lemma StepInv(k: KFutex, e: Event)
    requires Inv(k) && Enabled(k, e)
    ensures StepKeeps(k, e)
  {
    hide Inv, Enabled, StepKeeps;
    match e {
      case Enter(_) => EnterStep(k, e);
      case Sub(_) => SubStep(k, e);
      case Insert(_) => InsertStep(k, e);
      case MoveOne(_) => MoveStep(k, e);
      case TakeLock(_) => BlockStep(k, e);
      case SetState(_) => BlockStep(k, e);
      case ForceUnlock(_) => BlockStep(k, e);
      case BlockReturns(_) => BlockStep(k, e);
      case Call(_, _) => CallStep(k, e);
      case TakeBlockLock(_) => CallStep(k, e);
      case TakeTlist(_) => CallStep(k, e);
      case _ => LeaveStep(k, e);
    }
  }

  // ---------------------------------------------------------------------------------------
  // Runs

  /** The states that some run leads to. */
  ghost predicate Run(threads: nat, events: seq<Event>, k: KFutex)
    decreases |events|
  {
    if events == [] then k == Fresh(threads)
    else
      var e, before := events[|events| - 1], events[..|events| - 1];
      exists k0 :: Run(threads, before, k0) && Enabled(k0, e) && k == Next(k0, e)
  }

  /** How many calls of `block` have returned in a run, and for how many credits `unblock` was called. */
  function Returns(events: seq<Event>): nat {
    if events == [] then 0
    else Returns(events[..|events| - 1]) + (if events[|events| - 1].BlockReturns? then 1 else 0)
  }

  function Called(events: seq<Event>): nat {
    if events == [] then 0
    else Called(events[..|events| - 1]) + (match events[|events| - 1] case Call(_, n) => n case _ => 0)
  }

  /**
   In every state of every run: no more calls of `block` have returned than credits have been
   issued, and no more credits have been issued than were called for; the threads that are
   blocked or about to block number the wait count plus the credits nobody has taken; and each
   lock is held by one thread at most.
   */
  lemma {:induction false} NeverMoreThanIssued(threads: nat, events: seq<Event>, k: KFutex)
    requires Run(threads, events, k)
    ensures Inv(k)
    ensures Returns(events) <= k.released <= k.issued <= Called(events)
    ensures Sum(Waiting, k.phase) == k.waitCount + (k.issued - k.released)
    ensures Sum(LockHolders, k.phase) <= 1 && Sum(ListHolders, k.phase) <= 1
  {
    hide Sum, Inv, Returns, Called, Run;
    Ledger(threads, events, k);
    InvSays(k);
    SumMonotone(LetGo, Tickets, k.phase);
  }

  /** The books of a run. */
  lemma {:induction false} Ledger(threads: nat, events: seq<Event>, k: KFutex)
    requires Run(threads, events, k)
    ensures Inv(k)
    ensures Returns(events) == k.released - Sum(LetGo, k.phase) && Tokens(k) == Called(events) - Returns(events)
    decreases |events|
  {
    hide Sum, Inv, Enabled, Next;
    if events == [] {
      FreshInv(threads);
      NothingInFresh(LetGo, threads);
    } else {
      var e, before := events[|events| - 1], events[..|events| - 1];
      var k0 :| Run(threads, before, k0) && Enabled(k0, e) && k == Next(k0, e);
      Ledger(threads, before, k0);
      StepInv(k0, e);
    }
  }

  lemma InvSays(k: KFutex)
    requires Inv(k)
    ensures k.released <= k.issued && Sum(Waiting, k.phase) == k.waitCount + (k.issued - k.released)
    ensures Sum(LockHolders, k.phase) <= 1 && Sum(ListHolders, k.phase) <= 1
  {
  }

  lemma RunStep(threads: nat, events: seq<Event>, k: KFutex, e: Event)
    requires Run(threads, events, k) && Enabled(k, e)
    ensures Run(threads, events + [e], Next(k, e))
  {
    hide Next, Enabled;
    var all := events + [e];
    assert all[|all| - 1] == e && all[..|all| - 1] == events;
  }

  // ---------------------------------------------------------------------------------------
  // Lost wake-ups

  lemma {:induction false} SumOnly(w: What, s: seq<Phase>, t: nat)
    requires t < |s| && forall u :: 0 <= u < |s| && u != t ==> Weight(w, s[u]) == 0
    ensures Sum(w, s) == Weight(w, s[t])
  {
    if t == 0 {
      SumNone(w, s[1..]);
    } else {
      SumOnly(w, s[1..], t - 1);
    }
  }

  lemma {:induction false} SumNone(w: What, s: seq<Phase>)
    requires forall u :: 0 <= u < |s| ==> Weight(w, s[u]) == 0
    ensures Sum(w, s) == 0
  {
    if s != [] {
      SumNone(w, s[1..]);
    }
  }

  lemma {:induction false} SumAdds(v: What, w: What, x: What, s: seq<Phase>)
    requires forall u :: 0 <= u < |s| ==> Weight(x, s[u]) == Weight(v, s[u]) + Weight(w, s[u])
    ensures Sum(x, s) == Sum(v, s) + Sum(w, s)
  {
    if s != [] {
      SumAdds(v, w, x, s[1..]);
    }
  }

  /** Only one thread holds the block lock. */
  lemma OnlyLocker(k: KFutex, t: nat)
    requires Inv(k) && t < |k.phase| && Weight(LockHolders, k.phase[t]) == 1
    ensures forall u :: 0 <= u < |k.phase| && u != t ==> Weight(LockHolders, k.phase[u]) == 0
  {
    forall u | 0 <= u < |k.phase| && u != t ensures Weight(LockHolders, k.phase[u]) == 0 {
      SumAtLeastTwo(LockHolders, k.phase, if t < u then t else u, if t < u then u else t);
    }
  }

  /** While a thread holds both locks, those that wait are in the list or spin. */
  lemma ListedOrSpinning(k: KFutex, t: nat)
    requires Inv(k) && t < |k.phase| && k.phase[t].Locked?
    ensures Sum(Waiting, k.phase) == |k.list| + Sum(Spinners, k.phase) && Sum(ToMove, k.phase) == 0
  {
    hide Sum;
    OnlyLocker(k, t);
    OnlyMover(k, t);
    SumAdds(InList, Spinners, Waiting, k.phase);
    SumNone(ToMove, k.phase);
  }

  /**
   A wake-up is lost: when the move under way is over, if there is one, a thread will still wait
   beside a credit that nobody has taken.
   */
  predicate Lost(k: KFutex) {
    var m := Min(Sum(ToMove, k.phase), |k.list|);
    Sum(Waiting, k.phase) > m && k.issued - k.released > m
  }

  /** `unblock` issues more credits than there are threads in the list, while a thread spins. */
  predicate Overshoots(k: KFutex, e: Event)
    requires Enabled(k, e)
  {
    e.Sub? && k.phase[e.t].n > |k.list| && Sum(Spinners, k.phase) > 0
  }

  /** What becomes of lost wake-ups: they come about and are made good by the issue of credits only. */
  predicate LostAfter(k: KFutex, e: Event)
    requires Enabled(k, e)
  {
    if e.Sub? then
      Overshoots(k, e) || (Lost(k) && (Sum(Spinners, k.phase) > 0 || |k.list| > k.phase[e.t].n))
    else Lost(k)
  }

  lemma LostStep(k: KFutex, e: Event)
    requires Inv(k) && Enabled(k, e)
    ensures Lost(Next(k, e)) <==> LostAfter(k, e)
  {
    hide Inv, Enabled, Lost, LostAfter;
    match e {
      case Sub(_) => LostSub(k, e);
      case Insert(_) => LostInsert(k, e);
      case MoveOne(_) => LostMove(k, e);
      case _ => LostOther(k, e);
    }
  }

  lemma LostSub(k: KFutex, e: Event)
    requires Inv(k) && Enabled(k, e) && e.Sub?
    ensures Lost(Next(k, e)) <==> LostAfter(k, e)
  {
    hide Left, Sum, ListRight;
    var k' := Next(k, e);
    ListedOrSpinning(k, e.t);
    Change(k.phase, e.t, k'.phase[e.t]);
  }

  lemma LostInsert(k: KFutex, e: Event)
    requires Inv(k) && Enabled(k, e) && e.Insert?
    ensures Lost(Next(k, e)) <==> LostAfter(k, e)
  {
    hide Left, Sum, ListRight;
    var k' := Next(k, e);
    OnlyMover(k, e.t);
    SumNone(ToMove, k.phase);
    Change(k.phase, e.t, k'.phase[e.t]);
  }

  lemma LostMove(k: KFutex, e: Event)
    requires Inv(k) && Enabled(k, e) && e.MoveOne?
    ensures Lost(Next(k, e)) <==> LostAfter(k, e)
  {
    hide Left, Sum;
    var k' := Next(k, e);
    var first := k.list[0];
    var mid := k.phase[e.t := k'.phase[e.t]];
    OnlyMover(k, e.t);
    SumOnly(ToMove, k.phase, e.t);
    Change(k.phase, e.t, k'.phase[e.t]);
    Change(mid, first, Released);
  }

  lemma LostOther(k: KFutex, e: Event)
    requires Inv(k) && Enabled(k, e) && !e.Sub? && !e.Insert? && !e.MoveOne?
    ensures Lost(Next(k, e)) <==> LostAfter(k, e)
  {
    hide Left, Sum, ListRight, Covered;
    var k' := Next(k, e);
    Change(k.phase, e.t, k'.phase[e.t]);
  }

  /** In a run, wake-ups are lost only by a call that issues too many credits while a thread spins. */
  lemma {:induction false} LostOnlyByOvershoot(threads: nat, events: seq<Event>, k: KFutex) returns (i: nat, k0: KFutex)
    requires Run(threads, events, k) && Lost(k)
    ensures i < |events| && Run(threads, events[..i], k0) && Enabled(k0, events[i]) && Overshoots(k0, events[i])
    decreases |events|
  {
    hide Sum, Inv, Enabled, Next, Lost, Overshoots;
    i, k0 := 0, k;
    if events == [] {
      NothingWaits(threads);
      assert false;
    } else {
      var e, before := events[|events| - 1], events[..|events| - 1];
      k0 :| Run(threads, before, k0) && Enabled(k0, e) && k == Next(k0, e);
      Ledger(threads, before, k0);
      LostStep(k0, e);
      i := |events| - 1;
      if !Overshoots(k0, e) {
        i, k0 := LostOnlyByOvershoot(threads, before, k0);
        assert before[..i] == events[..i];
      }
    }
  }

  lemma NothingWaits(threads: nat)
    ensures !Lost(Fresh(threads))
  {
    NothingInFresh(Waiting, threads);
  }

  /** The events lead from one state to another. */
  ghost predicate Path(k: KFutex, events: seq<Event>, k': KFutex)
    decreases |events|
  {
    if events == [] then k' == k
    else Enabled(k, events[0]) && Path(Next(k, events[0]), events[1..], k')
  }

  /** How many threads are moved by thread `t`. */
  function Moves(t: nat, events: seq<Event>): nat {
    if events == [] then 0 else (if events[0] == MoveOne(t) then 1 else 0) + Moves(t, events[1..])
  }

  /** While a thread moves others, no other thread changes the list, issues credits, or disturbs it. */
  lemma OthersStep(k: KFutex, t: nat, e: Event)
    requires Inv(k) && Enabled(k, e) && t < |k.phase| && k.phase[t].Moving? && e.t != t
    ensures Next(k, e).list == k.list && Next(k, e).phase[t] == k.phase[t] && !e.Sub?
  {
    hide Sum;
    OnlyMover(k, t);
  }

  /** The loop of a call, while any other threads make their steps in between. */
  lemma {:induction false} MoveLoop(k: KFutex, t: nat, events: seq<Event>, k': KFutex)
    requires Inv(k) && t < |k.phase| && k.phase[t].Moving? && Path(k, events, k') && EndMove(t) !in events
    ensures
      var m := Moves(t, events);
      && Inv(k') && m <= Min(k.phase[t].n, |k.list|) && k'.list == k.list[m..]
      && |k'.phase| == |k.phase| && k'.phase[t] == Moving(k.phase[t].n - m)
      && (Lost(k') <==> Lost(k))
    decreases |events|
  {
    hide Inv, Lost, Enabled, Next;
    if events != [] {
      var e := events[0];
      var k1 := Next(k, e);
      MoverStep(k, t, e);
      MoveLoop(k1, t, events[1..], k');
    }
  }

  lemma MoverStep(k: KFutex, t: nat, e: Event)
    requires Inv(k) && t < |k.phase| && k.phase[t].Moving? && Enabled(k, e) && e != EndMove(t)
    ensures
      var k1 := Next(k, e);
      var m := if e == MoveOne(t) then 1 else 0;
      && Inv(k1) && |k1.phase| == |k.phase| && (Lost(k1) <==> Lost(k))
      && m <= k.phase[t].n && m <= |k.list| && k1.list == k.list[m..] && k1.phase[t] == Moving(k.phase[t].n - m)
  {
    hide Inv, Lost, Sum;
    StepInv(k, e);
    LostStep(k, e);
    if e.t != t {
      OthersStep(k, t, e);
    } else {
      MovedIsListed(k);
    }
  }

  lemma MovedIsListed(k: KFutex)
    requires Inv(k)
    ensures forall u :: u in k.list ==> u < |k.phase| && k.phase[u].Listed?
  {
  }

  /**
   A call of `unblock`, from the issue of its `n` credits to the end of its move, whatever other
   threads do in between.  It lets go the first threads of the list, as many as there are, up to
   `n`.  Afterwards a thread waits beside an untaken credit exactly if the call had a credit more
   than there were threads in the list while a thread was spinning, or if that was so before and
   the call has not let go all who wait.
   */
  lemma UnblockReleases(k: KFutex, t: nat, events: seq<Event>, k': KFutex)
    requires Inv(k) && Enabled(k, Sub(t)) && Path(Next(k, Sub(t)), events, k')
    requires EndMove(t) !in events && Enabled(k', EndMove(t))
    ensures
      var n, spinning := k.phase[t].n, Sum(Spinners, k.phase) > 0;
      && Moves(t, events) == Min(n, |k.list|) && k'.list == k.list[Min(n, |k.list|)..]
      && (Sum(Waiting, k'.phase) > 0 && k'.issued > k'.released
          <==> (n > |k.list| && spinning) || (Lost(k) && (spinning || |k.list| > n)))
  {
    hide Inv, Sum;
    StepInv(k, Sub(t));
    LostStep(k, Sub(t));
    MoveLoop(Next(k, Sub(t)), t, events, k');
    MoveOver(k', t);
  }

  lemma MoveOver(k: KFutex, t: nat)
    requires Inv(k) && Enabled(k, EndMove(t))
    ensures Lost(k) <==> Sum(Waiting, k.phase) > 0 && k.issued > k.released
  {
    hide Sum;
    OnlyMover(k, t);
    SumOnly(ToMove, k.phase, t);
  }

  // ---------------------------------------------------------------------------------------
  // First in, first out

  /** The threads that were filed, in order. */
  function Filed(events: seq<Event>): seq<nat> {
    if events == [] then [] else (if events[0].Insert? then [events[0].t] else []) + Filed(events[1..])
  }

  /** The threads below `n` that were in the list, and are let go. */
  function Woken(k: KFutex, k': KFutex, n: nat): seq<nat>
    requires n <= |k.phase| && n <= |k'.phase|
  {
    if n == 0 then []
    else Woken(k, k', n - 1) + (if k.phase[n - 1].Listed? && k'.phase[n - 1].Released? then [n - 1] else [])
  }

  /** The threads that are let go from the list by some events, in order. */
  function LetGoIn(k: KFutex, events: seq<Event>): seq<nat>
    decreases |events|
  {
    if events == [] || !Enabled(k, events[0]) || |Next(k, events[0]).phase| != |k.phase| then []
    else
      var k' := Next(k, events[0]);
      Woken(k, k', |k.phase|) + LetGoIn(k', events[1..])
  }

  lemma {:induction false} WokenNone(k: KFutex, k': KFutex, n: nat)
    requires n <= |k.phase| && n <= |k'.phase|
    requires forall u :: 0 <= u < n ==> !(k.phase[u].Listed? && k'.phase[u].Released?)
    ensures Woken(k, k', n) == []
  {
    if n > 0 {
      WokenNone(k, k', n - 1);
    }
  }

  lemma {:induction false} WokenOne(k: KFutex, k': KFutex, n: nat, t: nat)
    requires t < n <= |k.phase| && n <= |k'.phase|
    requires forall u :: 0 <= u < n ==> (k.phase[u].Listed? && k'.phase[u].Released? <==> u == t)
    ensures Woken(k, k', n) == [t]
  {
    if t == n - 1 {
      WokenNone(k, k', n - 1);
    } else {
      WokenOne(k, k', n - 1, t);
    }
  }

  /** One step: a thread comes to the end of the list, or leaves it from its head, or the list stays. */
  lemma QueueStep(k: KFutex, e: Event)
    requires Inv(k) && Enabled(k, e)
    ensures
      var k' := Next(k, e);
      && |k'.phase| == |k.phase|
      && k.list + (if e.Insert? then [e.t] else []) == Woken(k, k', |k.phase|) + k'.list
  {
    hide Inv, Woken;
    var k' := Next(k, e);
    MovedIsListed(k);
    if e.MoveOne? {
      HeadLeaves(k, e);
      WokenOne(k, k', |k.phase|, k.list[0]);
    } else {
      NobodyLeaves(k, e);
      WokenNone(k, k', |k.phase|);
    }
  }

  lemma HeadLeaves(k: KFutex, e: Event)
    requires Enabled(k, e) && e.MoveOne? && forall u :: u in k.list ==> u < |k.phase| && k.phase[u].Listed?
    ensures
      var k' := Next(k, e);
      && |k'.phase| == |k.phase| && k.list[0] < |k.phase| && k.list == [k.list[0]] + k'.list
      && forall u :: 0 <= u < |k.phase| ==> (k.phase[u].Listed? && k'.phase[u].Released? <==> u == k.list[0])
  {
    assert k.list[0] in k.list;
  }

  lemma NobodyLeaves(k: KFutex, e: Event)
    requires Enabled(k, e) && !e.MoveOne?
    ensures
      var k' := Next(k, e);
      && |k'.phase| == |k.phase| && k'.list == k.list + (if e.Insert? then [e.t] else [])
      && forall u :: 0 <= u < |k.phase| ==> !(k.phase[u].Listed? && k'.phase[u].Released?)
  {
  }

  /** The threads that are let go and those that are left are, in order, those that were there and those that came. */
  lemma {:induction false} QueueOrder(k: KFutex, events: seq<Event>, k': KFutex)
    requires Inv(k) && Path(k, events, k')
    ensures k.list + Filed(events) == LetGoIn(k, events) + k'.list
    decreases |events|
  {
    hide Inv, Enabled, Next;
    if events != [] {
      var k1 := Next(k, events[0]);
      QueueStep(k, events[0]);
      StepInv(k, events[0]);
      QueueOrder(k1, events[1..], k');
      var came := if events[0].Insert? then [events[0].t] else [];
      assert k.list + Filed(events) == (k.list + came) + Filed(events[1..]);
      assert LetGoIn(k, events) + k'.list == Woken(k, k1, |k.phase|) + (LetGoIn(k1, events[1..]) + k'.list);
    }
  }

  lemma {:induction false} PathStep(k: KFutex, events: seq<Event>, k1: KFutex, e: Event)
    requires Path(k, events, k1) && Enabled(k1, e)
    ensures Path(k, events + [e], Next(k1, e))
    decreases |events|
  {
    hide Next, Enabled;
    if events == [] {
      assert [e][1..] == [];
    } else {
      assert (events + [e])[1..] == events[1..] + [e];
      PathStep(Next(k, events[0]), events[1..], k1, e);
    }
  }

  lemma {:induction false} RunIsPath(threads: nat, events: seq<Event>, k: KFutex)
    requires Run(threads, events, k)
    ensures Path(Fresh(threads), events, k)
    decreases |events|
  {
    hide Next, Enabled;
    if events != [] {
      var e, before := events[|events| - 1], events[..|events| - 1];
      var k0 :| Run(threads, before, k0) && Enabled(k0, e) && k == Next(k0, e);
      RunIsPath(threads, before, k0);
      PathStep(Fresh(threads), before, k0, e);
      assert before + [e] == events;
    }
  }

  /**
   In every run threads are let go in the order in which they were filed: those that have been let
   go come first, and the rest is the list.
   */
  lemma FirstInFirstOut(threads: nat, events: seq<Event>, k: KFutex)
    requires Run(threads, events, k)
    ensures Filed(events) == LetGoIn(Fresh(threads), events) + k.list
  {
    hide *;
    FreshInv(threads);
    RunIsPath(threads, events, k);
    QueueOrder(Fresh(threads), events, k);
    NoneListed(threads);
    NothingBefore(Filed(events));
  }

  lemma NoneListed(threads: nat)
    ensures Fresh(threads).list == []
  {
  }

  lemma NothingBefore(s: seq<nat>)
    ensures [] + s == s
  {
  }

  // ---------------------------------------------------------------------------------------
  // Progress

  /** Where some thread holds a lock, one does. */
  lemma {:induction false} Someone(w: What, s: seq<Phase>) returns (t: nat)
    requires Sum(w, s) > 0
    ensures t < |s| && Weight(w, s[t]) > 0
  {
    if Weight(w, s[0]) > 0 {
      t := 0;
    } else {
      t := Someone(w, s[1..]);
      t := t + 1;
    }
  }

  /** As long as a thread is in a call, and not in the list, some thread can make a step in a call. */
  lemma NeverStuck(k: KFutex, t: nat) returns (e: Event)
    requires Inv(k) && t < |k.phase| && !k.phase[t].Out? && !k.phase[t].Listed?
    ensures Enabled(k, e) && !e.Enter? && !e.Call?
  {
    hide Sum, ListRight, Covered, Enabled;
    var u := t;
    if (k.phase[u].Spinning? || k.phase[u].Calling?) && k.blockLock {
      u := Someone(LockHolders, k.phase);
    }
    if (k.phase[u].Parked? || k.phase[u].Inside?) && k.tlist {
      u := Someone(ListHolders, k.phase);
    }
    e := OwnStep(k, u);
  }

  /** A thread that need not wait for a lock can make its next step. */
  lemma OwnStep(k: KFutex, t: nat) returns (e: Event)
    requires t < |k.phase| && !k.phase[t].Out? && !k.phase[t].Listed?
    requires k.phase[t].Spinning? || k.phase[t].Calling? ==> !k.blockLock
    requires k.phase[t].Parked? || k.phase[t].Inside? ==> !k.tlist
    ensures Enabled(k, e) && e.t == t && !e.Enter? && !e.Call?
  {
    match k.phase[t] {
      case Spinning => e := TakeLock(t);
      case Holding => e := SetState(t);
      case Parked => e := ForceUnlock(t);
      case Filing => e := Insert(t);
      case Released => e := BlockReturns(t);
      case Calling(_) => e := TakeBlockLock(t);
      case Inside(_) => e := TakeTlist(t);
      case Locked(_) => e := Sub(t);
      case Moving(n) => e := if n == 0 || k.list == [] then EndMove(t) else MoveOne(t);
      case Moved => e := DropTlist(t);
      case Leaving => e := DropBlockLock(t);
      case Done => e := UnblockReturns(t);
    }
  }

  /** What a call adds to the steps that are left. */
  function Begins(e: Event): nat {
    match e
    case Enter(_) => 6
    case Call(_, n) => n + 7
    case _ => 0
  }

  /** Every step in a call brings the calls nearer to their ends. */
  lemma Nearer(k: KFutex, e: Event)
    requires Inv(k) && Enabled(k, e)
    ensures Sum(StepsLeft, Next(k, e).phase) <= Sum(StepsLeft, k.phase) + Begins(e) - (if Begins(e) == 0 then 1 else 0)
  {
    hide Sum, Covered;
    var k' := Next(k, e);
    Change(k.phase, e.t, k'.phase[e.t]);
    if e.MoveOne? {
      MovedIsListed(k);
      var mid := k.phase[e.t := k'.phase[e.t]];
      Change(k.phase, e.t, mid[e.t]);
      Change(mid, k.list[0], Released);
    }
  }

  /** How many steps in calls some events are ... */
  function StepsIn(events: seq<Event>): nat {
    if events == [] then 0 else (if Begins(events[0]) == 0 then 1 else 0) + StepsIn(events[1..])
  }

  /** ... and for how many the calls that begin in them are good. */
  function BegunIn(events: seq<Event>): nat {
    if events == [] then 0 else Begins(events[0]) + BegunIn(events[1..])
  }

  /**
   Calls come to an end: from any state on, no more steps are made in calls than those that are
   under way or begin later are good for, six for a `block` and seven more than its number for an
   `unblock`.
   */
  lemma {:induction false} StepsBounded(k: KFutex, events: seq<Event>, k': KFutex)
    requires Inv(k) && Path(k, events, k')
    ensures StepsIn(events) + Sum(StepsLeft, k'.phase) <= Sum(StepsLeft, k.phase) + BegunIn(events)
    decreases |events|
  {
    hide Inv, Enabled, Next, Sum, Begins;
    if events != [] {
      Nearer(k, events[0]);
      StepInv(k, events[0]);
      StepsBounded(Next(k, events[0]), events[1..], k');
    }
  }

  /**
   Such a run.  An `unblock` that comes between the count and the block lock of a `block` moves
   nobody, and the thread then blocks all the same: it stays in the list although a credit has
   been issued for it.
   */
  lemma WakeUpLost()
    ensures exists events, k ::
      && Run(2, events, k)
      && k.phase == [Listed, Out] && k.list == [0] && k.issued == 1 && k.released == 0 && k.waitCount == 0
  {
    hide Run;
    var events := EarlyUnblock();
    events := Then(events, Two(0, false, false, [], Spinning, Out, 1), TakeLock(0),
      Two(0, true, false, [], Holding, Out, 1));
    events := Then(events, Two(0, true, false, [], Holding, Out, 1), SetState(0),
      Two(0, true, false, [], Parked, Out, 1));
    events := Then(events, Two(0, true, false, [], Parked, Out, 1), ForceUnlock(0),
      Two(0, false, true, [], Filing, Out, 1));
    events := Then(events, Two(0, false, true, [], Filing, Out, 1), Insert(0),
      Two(0, false, false, [0], Listed, Out, 1));
  }

  /** The futex as two threads see it, before anybody is released. */
  function Two(waitCount: int, blockLock: bool, tlist: bool, list: seq<nat>, p0: Phase, p1: Phase,
               issued: nat): KFutex {
    KFutex(waitCount, blockLock, tlist, list, [p0, p1], issued, 0)
  }

  lemma Then(events: seq<Event>, k: KFutex, e: Event, k': KFutex) returns (more: seq<Event>)
    requires Run(2, events, k) && Enabled(k, e) && k' == Next(k, e)
    ensures Run(2, more, k')
  {
    more := events + [e];
    RunStep(2, events, k, e);
  }

  lemma Begun() returns (events: seq<Event>)
    ensures Run(2, events, Two(0, false, false, [], Out, Out, 0))
  {
    events := [];
    assert Fresh(2) == Two(0, false, false, [], Out, Out, 0);
  }

  lemma HalfUnblock() returns (events: seq<Event>)
    ensures Run(2, events, Two(1, true, true, [], Spinning, Locked(1), 0))
  {
    hide Run, Fresh;
    events := Begun();
    events := Then(events, Two(0, false, false, [], Out, Out, 0), Enter(0), Two(1, false, false, [], Spinning, Out, 0));
    events := Then(events, Two(1, false, false, [], Spinning, Out, 0), Call(1, 1),
      Two(1, false, false, [], Spinning, Calling(1), 0));
    events := Then(events, Two(1, false, false, [], Spinning, Calling(1), 0), TakeBlockLock(1),
      Two(1, true, false, [], Spinning, Inside(1), 0));
    events := Then(events, Two(1, true, false, [], Spinning, Inside(1), 0), TakeTlist(1),
      Two(1, true, true, [], Spinning, Locked(1), 0));
  }

  lemma EarlyUnblock() returns (events: seq<Event>)
    ensures Run(2, events, Two(0, false, false, [], Spinning, Out, 1))
  {
    hide Run, Fresh;
    events := HalfUnblock();
    events := Then(events, Two(1, true, true, [], Spinning, Locked(1), 0), Sub(1),
      Two(0, true, true, [], Spinning, Moving(1), 1));
    events := Then(events, Two(0, true, true, [], Spinning, Moving(1), 1), EndMove(1),
      Two(0, true, true, [], Spinning, Moved, 1));
    events := Then(events, Two(0, true, true, [], Spinning, Moved, 1), DropTlist(1),
      Two(0, true, false, [], Spinning, Leaving, 1));
    events := Then(events, Two(0, true, false, [], Spinning, Leaving, 1), DropBlockLock(1),
      Two(0, false, false, [], Spinning, Done, 1));
    events := Then(events, Two(0, false, false, [], Spinning, Done, 1), UnblockReturns(1),
      Two(0, false, false, [], Spinning, Out, 1));
  }
}
