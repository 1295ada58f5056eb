/**
 `RawFutex` of libutil/src/futex.rs over `KFutex`, joined by kernel/src/util/mod.rs: a counter
 decides the uncontended cases, and the kernel's futex, made by whoever first needs it, blocks
 and wakes the other threads.

 A state machine again: every step is one atomic operation of one thread, or one step of a
 kernel futex.
 */
module RawFutexes {
  import opened Wrappers
  import K = KFutexes

  /** Where a thread is in `id`. */
  datatype Lookup =
    | Wants                        // about to load the id
    | MustMake                     // has seen that there is none
    | Made(mine: nat)              // has made a futex of its own
    | Lost(mine: nat, id: nat)     // the exchange has failed: must destroy its own
    | Got(id: nat)

  /** Where a thread is in `lock` or `unlock`. */
  datatype Phase =
    | Idle
    | Owner
    | Locking(look: Lookup)
    | Unlocking(look: Lookup)
    | InBlock(id: nat)
    | InUnblock(id: nat)

  /**
   The futex, the table of kernel futexes, and the threads.  `failed` stands for the panics in
   the glue: a kernel futex that is looked up is not there.
   */
  datatype RawFutex = RawFutex(
    id: Option<nat>,
    count: int,
    nextId: nat,
    table: map<nat, K.KFutex>,
    threads: seq<Phase>,
    failed: bool)

  datatype Event =
    | FetchAdd(t: nat)         // lock: count.fetch_add(1)
    | TryLock(t: nat)          // try_lock: count.fetch_update
    | FetchSub(t: nat)         // unlock: count.fetch_sub(1)
    | LoadId(t: nat)
    | MakeFutex(t: nat)        // futex_new
    | ExchangeId(t: nat)       // compare_exchange
    | DestroyOwn(t: nat)       // futex_destroy
    | CallBlock(t: nat)
    | CallUnblock(t: nat)
    | Kernel(id: nat, e: K.Event)
    | BlockReturns(t: nat)
    | UnblockReturns(t: nat)

  function Fresh(threads: nat): RawFutex {
    RawFutex(None, 0, 0, map[], seq(threads, _ => Idle), false)
  }

  /** Steps inside `block`, `unblock` and the scheduler. */
  predicate Inner(e: K.Event) {
    !e.Enter? && !e.Call? && !e.BlockReturns? && !e.UnblockReturns?
  }

  predicate LooksUp(p: Phase) {
    p.Locking? || p.Unlocking?
  }

  predicate Enabled(s: RawFutex, e: Event) {
    match e
    case FetchAdd(t) => t < |s.threads| && s.threads[t].Idle?
    case TryLock(t) => t < |s.threads| && s.threads[t].Idle?
    case FetchSub(t) => t < |s.threads| && s.threads[t].Owner?
    case LoadId(t) => t < |s.threads| && LooksUp(s.threads[t]) && s.threads[t].look.Wants?
    case MakeFutex(t) => t < |s.threads| && LooksUp(s.threads[t]) && s.threads[t].look.MustMake?
    case ExchangeId(t) => t < |s.threads| && LooksUp(s.threads[t]) && s.threads[t].look.Made?
    case DestroyOwn(t) => t < |s.threads| && LooksUp(s.threads[t]) && s.threads[t].look.Lost?
    case CallBlock(t) => t < |s.threads| && s.threads[t].Locking? && s.threads[t].look.Got?
    case CallUnblock(t) => t < |s.threads| && s.threads[t].Unlocking? && s.threads[t].look.Got?
    case Kernel(id, k) => id in s.table && Inner(k) && K.Enabled(s.table[id], k)
    case BlockReturns(t) =>
      && t < |s.threads| && s.threads[t].InBlock?
      && (s.threads[t].id in s.table ==> K.Enabled(s.table[s.threads[t].id], K.BlockReturns(t)))
    case UnblockReturns(t) =>
      && t < |s.threads| && s.threads[t].InUnblock?
      && (s.threads[t].id in s.table ==> K.Enabled(s.table[s.threads[t].id], K.UnblockReturns(t)))
  }

  function Goes(s: RawFutex, t: nat, p: Phase): RawFutex {
    if t < |s.threads| then s.(threads := s.threads[t := p]) else s
  }

  function Looking(p: Phase, look: Lookup): Phase {
    if p.Locking? then Locking(look) else Unlocking(look)
  }

  /** A step of a kernel futex; it fails if the futex is not there. */
  function InKernel(s: RawFutex, id: nat, e: K.Event): RawFutex {
    if id in s.table && K.Enabled(s.table[id], e) then s.(table := s.table[id := K.Next(s.table[id], e)])
    else s.(failed := true)
  }

  function Next(s: RawFutex, e: Event): RawFutex
    requires Enabled(s, e)
  {
    match e
    case FetchAdd(t) => Goes(s, t, if s.count > 0 then Locking(Wants) else Owner).(count := s.count + 1)
    case TryLock(t) => if s.count == 0 then Goes(s, t, Owner).(count := 1) else s
    case FetchSub(t) => Goes(s, t, if s.count > 1 then Unlocking(Wants) else Idle).(count := s.count - 1)
    case LoadId(t) =>
      Goes(s, t, Looking(s.threads[t], if s.id.Some? then Got(s.id.value) else MustMake))
    case MakeFutex(t) =>
      var mine := s.nextId;
      Goes(s, t, Looking(s.threads[t], Made(mine))).(nextId := mine + 1, table := s.table[mine := K.Fresh(|s.threads|)])
    case ExchangeId(t) =>
      var mine := s.threads[t].look.mine;
      if s.id.None? then Goes(s, t, Looking(s.threads[t], Got(mine))).(id := Some(mine))
      else Goes(s, t, Looking(s.threads[t], Lost(mine, s.id.value)))
    case DestroyOwn(t) =>
      var look := s.threads[t].look;
      Goes(s, t, Looking(s.threads[t], Got(look.id)))
        .(table := s.table - {look.mine}, failed := s.failed || look.mine !in s.table)
    case CallBlock(t) =>
      var id := s.threads[t].look.id;
      InKernel(Goes(s, t, InBlock(id)), id, K.Enter(t))
    case CallUnblock(t) =>
      var id := s.threads[t].look.id;
      InKernel(Goes(s, t, InUnblock(id)), id, K.Call(t, 1))
    case Kernel(id, k) => InKernel(s, id, k)
    case BlockReturns(t) => InKernel(Goes(s, t, Owner), s.threads[t].id, K.BlockReturns(t))
    case UnblockReturns(t) => InKernel(Goes(s, t, Idle), s.threads[t].id, K.UnblockReturns(t))
  }

  // ---------------------------------------------------------------------------------------
  // Counting threads

  datatype What =
    | Owners
    | ToBlock       // have counted themselves, but not called `block`
    | ToUnblock     // have given up the futex, but not called `unblock`
    | StepsLeft     // at most so many steps of their own until they are through, but for those in the kernel

  function Weight(w: What, p: Phase): nat {
    match w
    case Owners => if p.Owner? then 1 else 0
    case ToBlock => if p.Locking? then 1 else 0
    case ToUnblock => if p.Unlocking? then 1 else 0
    case StepsLeft => Left(p)
  }

  function Left(p: Phase): nat {
    match p
    case Idle => 0
    case Owner => 0
    case InBlock(_) => 1
    case InUnblock(_) => 1
    case Locking(look) => 8 + LookupLeft(look)
    case Unlocking(look) => 10 + LookupLeft(look)
  }

  function LookupLeft(look: Lookup): nat {
    match look
    case Got(_) => 0
    case Lost(_, _) => 1
    case Made(_) => 2
    case MustMake => 3
    case Wants => 4
  }

  function Sum(w: What, s: seq<Phase>): nat {
    if s == [] then 0 else Weight(w, s[0]) + Sum(w, s[1..])
  }

  lemma {:induction false} SumChange(w: What, s: seq<Phase>, t: nat, p: Phase)
    requires t < |s|
    ensures Sum(w, s[t := p]) == Sum(w, s) - Weight(w, s[t]) + Weight(w, p)
  {
    if t == 0 {
      assert s[t := p][1..] == s[1..];
    } else {
      assert s[t := p][1..] == s[1..][t - 1 := p];
      SumChange(w, s[1..], t - 1, p);
    }
  }

  lemma Change(s: seq<Phase>, t: nat, p: Phase)
    requires t < |s|
    ensures forall w {:trigger Sum(w, s[t := p])} :: Sum(w, s[t := p]) == Sum(w, s) - Weight(w, s[t]) + Weight(w, p)
  {
    forall w ensures Sum(w, s[t := p]) == Sum(w, s) - Weight(w, s[t]) + Weight(w, p) {
      SumChange(w, s, t, p);
    }
  }

  lemma {:induction false} SumAtLeast(w: What, s: seq<Phase>, t: nat)
    requires t < |s|
    ensures Sum(w, s) >= Weight(w, s[t])
  {
    if t > 0 {
      SumAtLeast(w, s[1..], t - 1);
    }
  }

  lemma {:induction false} SumAtLeastTwo(w: What, s: seq<Phase>, t: nat, u: nat)
    requires t < u < |s|
    ensures Sum(w, s) >= Weight(w, s[t]) + Weight(w, s[u])
  {
    if t == 0 {
      SumAtLeast(w, s[1..], u - 1);
    } else {
      SumAtLeastTwo(w, s[1..], t - 1, u - 1);
    }
  }

  // ---------------------------------------------------------------------------------------
  // The invariant

  /** The kernel futex that everybody uses; as good as new until there is one. */
  function Main(s: RawFutex): K.KFutex {
    if s.id.Some? && s.id.value in s.table then s.table[s.id.value] else K.Fresh(|s.threads|)
  }

  /** A futex is in the table from its making on, the winner for good. */
  ghost predicate TableRight(s: RawFutex) {
    && (s.id.Some? ==> s.id.value in s.table)
    && (forall i {:trigger i in s.table} :: i in s.table ==> i < s.nextId && |s.table[i].phase| == |s.threads|)
    && (forall i {:trigger s.table[i]} :: i in s.table && s.id != Some(i) ==> s.table[i] == K.Fresh(|s.threads|))
    && K.Inv(Main(s))
  }

  /** The futex a thread has made for itself, if it has not become everybody's. */
  predicate Owns(p: Phase, mine: nat) {
    LooksUp(p) && ((p.look.Made? && p.look.mine == mine) || (p.look.Lost? && p.look.mine == mine))
  }

  /** Whatever id a thread has got hold of is the id of the winner; its own futex is still there. */
  predicate LookupRight(s: RawFutex, p: Phase) {
    && (LooksUp(p) && p.look.Made? ==> p.look.mine in s.table && s.id != Some(p.look.mine))
    && (LooksUp(p) && p.look.Lost? ==> p.look.mine in s.table && s.id != Some(p.look.mine) && s.id == Some(p.look.id))
    && (LooksUp(p) && p.look.Got? ==> s.id == Some(p.look.id))
    && (p.InBlock? ==> s.id == Some(p.id))
    && (p.InUnblock? ==> s.id == Some(p.id))
  }

  /** Whether a phase in the kernel is one of `block`, or one of `unblock`. */
  predicate Blocking(p: K.Phase) {
    K.Weight(K.Lockers, p) == 1
  }

  predicate PhaseRight(p: Phase, k: K.Phase) {
    && (p.InBlock? <==> Blocking(k))
    && (p.InUnblock? <==> !Blocking(k) && !k.Out?)
  }

  ghost predicate ThreadsRight(s: RawFutex) {
    && |Main(s).phase| == |s.threads|
    && (forall t {:trigger s.threads[t]} :: 0 <= t < |s.threads| ==>
      LookupRight(s, s.threads[t]) && PhaseRight(s.threads[t], Main(s).phase[t]))
    && (forall t, u, i {:trigger Owns(s.threads[t], i), Owns(s.threads[u], i)} ::
          0 <= t < |s.threads| && 0 <= u < |s.threads| && Owns(s.threads[t], i) && Owns(s.threads[u], i) ==> t == u)
  }

  /**
   The books.  The count is the number of threads that own the futex or want to.  There is one
   permit to own it as long as the count is not zero: an owner has it, or a thread that is about
   to hand it on, or it lies in the kernel futex.
   */
  ghost predicate BooksRight(s: RawFutex) {
    && s.count == Sum(Owners, s.threads) + Sum(ToBlock, s.threads) + K.Sum(K.Lockers, Main(s).phase)
    && Sum(Owners, s.threads) + Sum(ToUnblock, s.threads) + K.Tokens(Main(s)) == (if s.count > 0 then 1 else 0)
  }

  ghost predicate Inv(s: RawFutex) {
    !s.failed && TableRight(s) && ThreadsRight(s) && BooksRight(s)
  }

  // ---------------------------------------------------------------------------------------
  // Steps

  lemma {:induction false} NobodyInFresh(w: What, threads: nat)
    ensures Sum(w, Fresh(threads).threads) == 0
  {
    if threads > 0 {
      assert Fresh(threads).threads[1..] == Fresh(threads - 1).threads;
      NobodyInFresh(w, threads - 1);
    }
  }

  lemma FreshInv(threads: nat)
    ensures Inv(Fresh(threads))
  {
    hide Sum, K.Sum, K.Inv, K.Tokens;
    NobodyInFresh(Owners, threads);
    NobodyInFresh(ToBlock, threads);
    NobodyInFresh(ToUnblock, threads);
    K.FreshInv(threads);
    K.NothingInFresh(K.Lockers, threads);
  }

  /** Steps on the counter. */
  lemma CountStep(s: RawFutex, e: Event)
    requires Inv(s) && Enabled(s, e) && (e.FetchAdd? || e.TryLock? || e.FetchSub?)
    ensures Inv(Next(s, e))
  {
    hide Sum, K.Sum, K.Inv, K.Tokens;
    var s' := Next(s, e);
    Change(s.threads, e.t, s'.threads[e.t]);
    if e.FetchSub? {
      SumAtLeast(Owners, s.threads, e.t);
    }
  }

  lemma LoadStep(s: RawFutex, e: Event)
    requires Inv(s) && Enabled(s, e) && e.LoadId?
    ensures Inv(Next(s, e))
  {
    hide Sum, K.Sum, K.Inv, K.Tokens;
    var s' := Next(s, e);
    Change(s.threads, e.t, s'.threads[e.t]);
  }

  /** The exchange: whoever comes first chooses the id, and finds nobody with another one. */
  lemma ExchangeStep(s: RawFutex, e: Event)
    requires Inv(s) && Enabled(s, e) && e.ExchangeId?
    ensures Inv(Next(s, e))
  {
    hide Sum, K.Sum, K.Inv, K.Tokens;
    var s' := Next(s, e);
    Change(s.threads, e.t, s'.threads[e.t]);
    OwnApart(s, e.t);
    assert LookupRight(s, s.threads[e.t]);
    assert Main(s') == Main(s);
  }

  /** No two threads have made the same futex. */
  lemma OwnApart(s: RawFutex, t: nat)
    requires ThreadsRight(s) && t < |s.threads| && LooksUp(s.threads[t])
      && (s.threads[t].look.Made? || s.threads[t].look.Lost?)
    ensures forall u {:trigger s.threads[u]} :: 0 <= u < |s.threads| && u != t ==>
      !Owns(s.threads[u], s.threads[t].look.mine)
  {
    assert Owns(s.threads[t], s.threads[t].look.mine);
  }

  lemma MakeStep(s: RawFutex, e: Event)
    requires Inv(s) && Enabled(s, e) && e.MakeFutex?
    ensures Inv(Next(s, e))
  {
    hide Sum, K.Sum, K.Inv, K.Tokens;
    var s' := Next(s, e);
    Change(s.threads, e.t, s'.threads[e.t]);
  }

  /** A loser destroys its own futex, which nobody else has ever used. */
  lemma DestroyStep(s: RawFutex, e: Event)
    requires Inv(s) && Enabled(s, e) && e.DestroyOwn?
    ensures Inv(Next(s, e))
  {
    hide Sum, K.Sum, K.Inv, K.Tokens;
    var s' := Next(s, e);
    Change(s.threads, e.t, s'.threads[e.t]);
    assert LookupRight(s, s.threads[e.t]);
    OwnApart(s, e.t);
  }

  /** A step inside the kernel neither brings a thread in nor takes one out. */
  lemma InnerStep(k: K.KFutex, e: K.Event)
    requires K.Inv(k) && K.Enabled(k, e) && Inner(e)
    ensures
      var k' := K.Next(k, e);
      && |k'.phase| == |k.phase| && K.StepKeeps(k, e)
      && forall t {:trigger k'.phase[t]} :: 0 <= t < |k.phase| ==>
           Blocking(k'.phase[t]) == Blocking(k.phase[t]) && k'.phase[t].Out? == k.phase[t].Out?
  {
    hide K.Sum, K.StepKeeps, K.Covered;
    K.StepInv(k, e);
  }

  lemma KernelStep(s: RawFutex, e: Event)
    requires Inv(s) && Enabled(s, e) && e.Kernel?
    ensures Inv(Next(s, e))
  {
    hide Sum, K.Sum, K.Inv, K.Tokens, K.Next, Blocking;
    OnlyMain(s, e);
    InnerStep(s.table[e.id], e.e);
    var s' := Next(s, e);
    assert Main(s') == K.Next(Main(s), e.e);
    assert forall t {:trigger s'.threads[t]} :: 0 <= t < |s.threads| ==>
      LookupRight(s, s.threads[t]) && s'.threads[t] == s.threads[t];
  }

  /** A futex nobody has been told of makes no steps. */
  lemma OnlyMain(s: RawFutex, e: Event)
    requires Inv(s) && Enabled(s, e) && e.Kernel?
    ensures s.id == Some(e.id) && Main(s) == s.table[e.id]
  {
  }

  /** A step into or out of the kernel: only the thread that makes it changes its phase there. */
  lemma BorderStep(s: RawFutex, t: nat, p: Phase, e: K.Event)
    requires Inv(s) && t < |s.threads| && s.id.Some? && K.Enabled(Main(s), e) && !Inner(e) && e.t == t
    requires LookupRight(s, p) && !LooksUp(p) && PhaseRight(p, K.Next(Main(s), e).phase[t])
    requires K.StepKeeps(Main(s), e)
    requires Weight(Owners, p) + Weight(ToUnblock, p) + K.TokenChange(e)
      == Weight(Owners, s.threads[t]) + Weight(ToUnblock, s.threads[t])
    requires Weight(Owners, p) + Weight(ToBlock, p) + K.LockerChange(e)
      == Weight(Owners, s.threads[t]) + Weight(ToBlock, s.threads[t])
    ensures Inv(InKernel(Goes(s, t, p), s.id.value, e))
  {
    hide Sum, Weight, K.Sum, K.Inv, K.Tokens, K.Next, K.Enabled, Blocking, Inner;
    var s' := InKernel(Goes(s, t, p), s.id.value, e);
    BorderPhases(Main(s), e);
    Change(s.threads, t, p);
    assert Main(s') == K.Next(Main(s), e);
    assert forall u {:trigger s'.threads[u]} :: 0 <= u < |s.threads| && u != t ==>
      LookupRight(s, s.threads[u]) && s'.threads[u] == s.threads[u];
  }

  lemma BorderPhases(k: K.KFutex, e: K.Event)
    requires K.Enabled(k, e) && !Inner(e)
    ensures
      var k' := K.Next(k, e);
      |k'.phase| == |k.phase| && forall u {:trigger k'.phase[u]} :: 0 <= u < |k.phase| && u != e.t ==>
        k'.phase[u] == k.phase[u]
  {
  }

  lemma CallStep(s: RawFutex, e: Event)
    requires Inv(s) && Enabled(s, e) && (e.CallBlock? || e.CallUnblock?)
    ensures Inv(Next(s, e))
  {
    hide Sum, K.Sum, K.Inv, K.Tokens, K.StepKeeps;
    var ke := if e.CallBlock? then K.Enter(e.t) else K.Call(e.t, 1);
    assert LookupRight(s, s.threads[e.t]) && PhaseRight(s.threads[e.t], Main(s).phase[e.t]);
    K.StepInv(Main(s), ke);
    BorderStep(s, e.t, if e.CallBlock? then InBlock(s.id.value) else InUnblock(s.id.value), ke);
  }

  lemma ReturnStep(s: RawFutex, e: Event)
    requires Inv(s) && Enabled(s, e) && (e.BlockReturns? || e.UnblockReturns?)
    ensures Inv(Next(s, e))
  {
    hide Sum, K.Sum, K.Inv, K.Tokens, K.StepKeeps;
    var ke := if e.BlockReturns? then K.BlockReturns(e.t) else K.UnblockReturns(e.t);
    assert LookupRight(s, s.threads[e.t]) && PhaseRight(s.threads[e.t], Main(s).phase[e.t]);
    K.StepInv(Main(s), ke);
    BorderStep(s, e.t, if e.BlockReturns? then Owner else Idle, ke);
  }

  /** Every step of every thread keeps the invariant; and the id, once chosen, stays. */
  lemma StepInv(s: RawFutex, e: Event)
    requires Inv(s) && Enabled(s, e)
    ensures Inv(Next(s, e)) && |Next(s, e).threads| == |s.threads|
    ensures s.id.Some? ==> Next(s, e).id == s.id
  {
    hide Inv, K.Enabled, K.Next;
    match e {
      case FetchAdd(_) => CountStep(s, e);
      case TryLock(_) => CountStep(s, e);
      case FetchSub(_) => CountStep(s, e);
      case LoadId(_) => LoadStep(s, e);
      case MakeFutex(_) => MakeStep(s, e);
      case ExchangeId(_) => ExchangeStep(s, e);
      case DestroyOwn(_) => DestroyStep(s, e);
      case CallBlock(_) => CallStep(s, e);
      case CallUnblock(_) => CallStep(s, e);
      case Kernel(_, _) => KernelStep(s, e);
      case BlockReturns(_) => ReturnStep(s, e);
      case UnblockReturns(_) => ReturnStep(s, e);
    }
  }

  // ---------------------------------------------------------------------------------------
  // Runs

  /** The states that some run leads to. */
  ghost predicate Run(threads: nat, events: seq<Event>, s: RawFutex)
    decreases |events|
  {
    if events == [] then s == Fresh(threads)
    else
      var e, before := events[|events| - 1], events[..|events| - 1];
      exists s0 :: Run(threads, before, s0) && Enabled(s0, e) && s == Next(s0, e)
  }

  lemma {:induction false} RunInv(threads: nat, events: seq<Event>, s: RawFutex)
    requires Run(threads, events, s)
    ensures Inv(s)
    decreases |events|
  {
    hide Inv, Enabled, Next;
    if events == [] {
      FreshInv(threads);
    } else {
      var e, before := events[|events| - 1], events[..|events| - 1];
      var s0 :| Run(threads, before, s0) && Enabled(s0, e) && s == Next(s0, e);
      RunInv(threads, before, s0);
      StepInv(s0, e);
    }
  }

  /** A thread that has the futex to itself, or is about to be told so. */
  predicate Has(s: RawFutex, t: nat)
    requires t < |s.threads| == |Main(s).phase|
  {
    s.threads[t].Owner? || Main(s).phase[t].Released?
  }

  /** In every state of every run, whatever the interleaving, at most one thread owns the futex. */
  lemma MutualExclusion(threads: nat, events: seq<Event>, s: RawFutex)
    requires Run(threads, events, s)
    ensures |s.threads| == |Main(s).phase|
    ensures forall t, u :: 0 <= t < |s.threads| && 0 <= u < |s.threads| && Has(s, t) && Has(s, u) ==> t == u
  {
    RunInv(threads, events, s);
    hide Sum, K.Sum, Run, LookupRight;
    forall t, u | 0 <= t < u < |s.threads| && Has(s, t) && Has(s, u) ensures false {
      TwoHave(s, t, u);
    }
  }

  lemma TwoHave(s: RawFutex, t: nat, u: nat)
    requires Inv(s) && t < u < |s.threads|
    ensures !(Has(s, t) && Has(s, u))
  {
    hide Sum, K.Sum, LookupRight;
    if Has(s, t) && Has(s, u) {
      assert PhaseRight(s.threads[t], Main(s).phase[t]) && PhaseRight(s.threads[u], Main(s).phase[u]);
      SumAtLeastTwo(Owners, s.threads, t, u);
      K.SumAtLeastTwo(K.Tickets, Main(s).phase, t, u);
      SumAtLeast(Owners, s.threads, t);
      SumAtLeast(Owners, s.threads, u);
      K.SumAtLeast(K.Tickets, Main(s).phase, t);
      K.SumAtLeast(K.Tickets, Main(s).phase, u);
    }
  }

  /**
   In every state of every run the count is that of the owner and those who want to be, the permit
   is in one place exactly as long as the count is not zero, no lookup of a kernel futex has
   failed, and everybody who has got an id has got the same.
   */
  lemma AlwaysRight(threads: nat, events: seq<Event>, s: RawFutex)
    requires Run(threads, events, s)
    ensures !s.failed
    ensures s.count == Sum(Owners, s.threads) + Sum(ToBlock, s.threads) + K.Sum(K.Lockers, Main(s).phase)
    ensures
      Sum(Owners, s.threads) + Sum(ToUnblock, s.threads) + K.Sum(K.Tickets, Main(s).phase)
        + (Main(s).issued - Main(s).released)
      == if s.count > 0 then 1 else 0
    ensures Main(s).released <= Main(s).issued
    ensures forall t {:trigger s.threads[t]} :: 0 <= t < |s.threads| ==>
      && (s.threads[t].InBlock? || s.threads[t].InUnblock? ==> s.id == Some(s.threads[t].id))
      && (LooksUp(s.threads[t]) && s.threads[t].look.Got? ==> s.id == Some(s.threads[t].look.id))
  {
    RunInv(threads, events, s);
    hide Sum, K.Sum, Run;
    assert forall t {:trigger s.threads[t]} :: 0 <= t < |s.threads| ==> LookupRight(s, s.threads[t]);
  }

  // ---------------------------------------------------------------------------------------
  // What the count decides

  /** Whether a thread owns the futex, or is going to. */
  predicate Claims(p: Phase) {
    p.Owner? || p.Locking? || p.InBlock?
  }

  predicate Unclaimed(s: RawFutex) {
    forall t {:trigger s.threads[t]} :: 0 <= t < |s.threads| ==> !Claims(s.threads[t])
  }

  lemma {:induction false} SumNone(w: What, s: seq<Phase>)
    requires forall u :: 0 <= u < |s| ==> Weight(w, s[u]) == 0
    ensures Sum(w, s) == 0
  {
    if s != [] {
      SumNone(w, s[1..]);
    }
  }

  /** The count is zero exactly if nobody owns the futex or is going to. */
  lemma CountZero(s: RawFutex)
    requires Inv(s)
    ensures s.count >= 0 && (s.count == 0 <==> Unclaimed(s))
  {
    hide Sum, K.Sum, K.Inv, K.Tokens, LookupRight;
    var main := Main(s);
    forall t | 0 <= t < |s.threads| && Claims(s.threads[t]) ensures s.count > 0 {
      SumAtLeast(Owners, s.threads, t);
      SumAtLeast(ToBlock, s.threads, t);
      K.SumAtLeast(K.Lockers, main.phase, t);
      assert PhaseRight(s.threads[t], main.phase[t]);
    }
    if Unclaimed(s) {
      SumNone(Owners, s.threads);
      SumNone(ToBlock, s.threads);
      assert forall t {:trigger main.phase[t]} :: 0 <= t < |s.threads| ==> PhaseRight(s.threads[t], main.phase[t]);
      K.SumNone(K.Lockers, main.phase);
    }
  }

  /** `try_lock` takes a futex that nobody owns or waits for, and leaves any other as it is. */
  lemma TryLockTakes(threads: nat, events: seq<Event>, s: RawFutex, t: nat)
    requires Run(threads, events, s) && t < |s.threads| && s.threads[t].Idle?
    ensures Enabled(s, TryLock(t))
    ensures Next(s, TryLock(t))
      == if Unclaimed(s) then s.(count := 1, threads := s.threads[t := Owner]) else s
  {
    hide Inv, Run, Unclaimed;
    RunInv(threads, events, s);
    CountZero(s);
  }

  /** `lock` takes such a futex at once; for any other it is on the way to `block`. */
  lemma LockTakes(threads: nat, events: seq<Event>, s: RawFutex, t: nat)
    requires Run(threads, events, s) && t < |s.threads| && s.threads[t].Idle?
    ensures Enabled(s, FetchAdd(t))
    ensures Next(s, FetchAdd(t))
      == if Unclaimed(s) then s.(count := 1, threads := s.threads[t := Owner])
         else s.(count := s.count + 1, threads := s.threads[t := Locking(Wants)])
  {
    hide Inv, Run, Unclaimed;
    RunInv(threads, events, s);
    CountZero(s);
  }

  /** `unlock` is over at once if nobody else wants the futex; otherwise it is on the way to `unblock`. */
  lemma UnlockGives(threads: nat, events: seq<Event>, s: RawFutex, t: nat)
    requires Run(threads, events, s) && t < |s.threads| && s.threads[t].Owner?
    ensures Enabled(s, FetchSub(t))
    ensures
      var others := exists u :: 0 <= u < |s.threads| && u != t && Claims(s.threads[u]);
      Next(s, FetchSub(t))
      == s.(count := s.count - 1, threads := s.threads[t := if others then Unlocking(Wants) else Idle])
    ensures Next(s, FetchSub(t)).count == 0 <==> Unclaimed(Next(s, FetchSub(t)))
  {
    hide Inv, Run;
    RunInv(threads, events, s);
    var s' := Next(s, FetchSub(t));
    StepInv(s, FetchSub(t));
    CountZero(s');
    assert forall u {:trigger s'.threads[u]} :: 0 <= u < |s.threads| && u != t ==> s'.threads[u] == s.threads[u];
    if u :| 0 <= u < |s.threads| && u != t && Claims(s.threads[u]) {
      assert Claims(s'.threads[u]);
    }
  }

  /** A thread that cannot have the futex at once waits until the kernel has let it go, and then owns it. */
  lemma WaitsForTurn(threads: nat, events: seq<Event>, s: RawFutex, e: Event, t: nat)
    requires Run(threads, events, s) && Enabled(s, e) && t < |s.threads|
    requires s.threads[t].Locking? || s.threads[t].InBlock?
    ensures
      var p := Next(s, e).threads[t];
      if e == BlockReturns(t) then p.Owner? && t < |Main(s).phase| && Main(s).phase[t].Released?
      else p.Locking? || p.InBlock?
  {
    hide Run, K.Next, K.Inv, Sum, K.Sum;
    RunInv(threads, events, s);
    assert LookupRight(s, s.threads[t]);
  }

  // ---------------------------------------------------------------------------------------
  // Making and destroying kernel futexes

  /** Every kernel futex is the one everybody uses, or belongs to a thread that is going to offer or destroy it. */
  ghost predicate NoneLeft(s: RawFutex) {
    forall i {:trigger i in s.table} :: i in s.table ==> s.id == Some(i) || Owned(s, i)
  }

  ghost predicate Owned(s: RawFutex, i: nat) {
    exists t :: 0 <= t < |s.threads| && Owns(s.threads[t], i)
  }

  lemma NoneLeftStep(s: RawFutex, e: Event)
    requires Inv(s) && NoneLeft(s) && Enabled(s, e)
    ensures NoneLeft(Next(s, e))
  {
    hide Sum, K.Sum, K.Inv, K.Tokens, K.Next, K.Enabled, Owns;
    var s' := Next(s, e);
    forall i | i in s'.table && s'.id != Some(i) ensures Owned(s', i) {
      if e.MakeFutex? && i == s.nextId {
        MakerOwns(s, e);
      } else {
        StillOwned(s, e, i);
      }
    }
  }

  lemma MakerOwns(s: RawFutex, e: Event)
    requires Enabled(s, e) && e.MakeFutex?
    ensures Owned(Next(s, e), s.nextId)
  {
    assert Owns(Next(s, e).threads[e.t], s.nextId);
  }

  /** Only the exchange and the destruction take a futex from the thread that made it. */
  lemma StillOwned(s: RawFutex, e: Event, i: nat)
    requires NoneLeft(s) && Enabled(s, e)
    requires i in s.table && i in Next(s, e).table && Next(s, e).id != Some(i)
    ensures Owned(Next(s, e), i)
  {
    hide K.Next, K.Enabled;
    var s' := Next(s, e);
    var t :| 0 <= t < |s.threads| && Owns(s.threads[t], i);
    assert Owns(s'.threads[t], i);
  }

  /** In no run is a kernel futex left behind that nobody will ever use or destroy. */
  lemma {:induction false} NothingLeaks(threads: nat, events: seq<Event>, s: RawFutex)
    requires Run(threads, events, s)
    ensures NoneLeft(s)
    decreases |events|
  {
    hide Inv, Enabled, Next;
    if events != [] {
      var e, before := events[|events| - 1], events[..|events| - 1];
      var s0 :| Run(threads, before, s0) && Enabled(s0, e) && s == Next(s0, e);
      NothingLeaks(threads, before, s0);
      RunInv(threads, before, s0);
      NoneLeftStep(s0, e);
    }
  }

  /** There is an id, and nobody is on the way to another one. */
  predicate Settled(s: RawFutex) {
    s.id.Some? && forall t {:trigger s.threads[t]} :: 0 <= t < |s.threads| && LooksUp(s.threads[t]) ==>
      s.threads[t].look.Wants? || s.threads[t].look.Got?
  }

  /** From then on there is just the one futex, and no other is ever made. */
  lemma SettledForGood(threads: nat, events: seq<Event>, s: RawFutex, e: Event)
    requires Run(threads, events, s) && Settled(s) && Enabled(s, e)
    ensures s.table.Keys == {s.id.value} && Settled(Next(s, e)) && Next(s, e).table.Keys == s.table.Keys
  {
    hide Run, Sum, K.Sum, K.Inv, K.Tokens, K.Next;
    RunInv(threads, events, s);
    NothingLeaks(threads, events, s);
    OnlyOne(s);
  }

  lemma OnlyOne(s: RawFutex)
    requires NoneLeft(s) && Settled(s) && s.id.value in s.table
    ensures s.table.Keys == {s.id.value}
  {
  }

  // ---------------------------------------------------------------------------------------
  // Progress

  /** All the steps that are left, in the glue and in the kernel. */
  function AllLeft(s: RawFutex): nat {
    Sum(StepsLeft, s.threads) + K.Sum(K.StepsLeft, Main(s).phase)
  }

  /** Whether an event is the atomic operation with which a call begins. */
  predicate Starts(e: Event) {
    e.FetchAdd? || e.TryLock? || e.FetchSub?
  }

  /** How many more steps a call that begins is good for. */
  function Begins(e: Event): nat {
    if e.FetchAdd? then 12 else if e.FetchSub? then 14 else 0
  }

  /** Every other step brings the calls nearer to their ends. */
  lemma Nearer(s: RawFutex, e: Event)
    requires Inv(s) && Enabled(s, e)
    ensures AllLeft(Next(s, e)) <= AllLeft(s) + Begins(e) - (if Starts(e) then 0 else 1)
  {
    hide Inv, Sum, K.Sum, K.Enabled, K.Next;
    match e {
      case Kernel(_, _) => NearerInside(s, e);
      case CallBlock(_) => NearerCall(s, e);
      case CallUnblock(_) => NearerCall(s, e);
      case BlockReturns(_) => NearerReturn(s, e);
      case UnblockReturns(_) => NearerReturn(s, e);
      case _ => NearerGlue(s, e);
    }
  }

  lemma NearerGlue(s: RawFutex, e: Event)
    requires Inv(s) && Enabled(s, e)
    requires Starts(e) || e.LoadId? || e.MakeFutex? || e.ExchangeId? || e.DestroyOwn?
    ensures AllLeft(Next(s, e)) <= AllLeft(s) + Begins(e) - (if Starts(e) then 0 else 1)
  {
    hide Sum, K.Sum, K.Inv, K.Tokens;
    var s' := Next(s, e);
    Change(s.threads, e.t, s'.threads[e.t]);
    assert LookupRight(s, s.threads[e.t]);
    assert Main(s') == Main(s);
  }

  lemma NearerInside(s: RawFutex, e: Event)
    requires Inv(s) && Enabled(s, e) && e.Kernel?
    ensures AllLeft(Next(s, e)) < AllLeft(s)
  {
    hide Sum, K.Sum, K.Inv, K.Tokens, K.Next, Blocking;
    OnlyMain(s, e);
    K.Nearer(Main(s), e.e);
  }

  lemma NearerCall(s: RawFutex, e: Event)
    requires Inv(s) && Enabled(s, e) && (e.CallBlock? || e.CallUnblock?)
    ensures AllLeft(Next(s, e)) < AllLeft(s)
  {
    hide Sum, K.Sum, K.Inv, K.Tokens, K.Next;
    var ke := if e.CallBlock? then K.Enter(e.t) else K.Call(e.t, 1);
    assert LookupRight(s, s.threads[e.t]) && PhaseRight(s.threads[e.t], Main(s).phase[e.t]);
    K.Nearer(Main(s), ke);
    Change(s.threads, e.t, Next(s, e).threads[e.t]);
  }

  lemma NearerReturn(s: RawFutex, e: Event)
    requires Inv(s) && Enabled(s, e) && (e.BlockReturns? || e.UnblockReturns?)
    ensures AllLeft(Next(s, e)) < AllLeft(s)
  {
    hide Sum, K.Sum, K.Inv, K.Tokens, K.Next;
    var ke := if e.BlockReturns? then K.BlockReturns(e.t) else K.UnblockReturns(e.t);
    assert LookupRight(s, s.threads[e.t]);
    K.Nearer(Main(s), ke);
    Change(s.threads, e.t, Next(s, e).threads[e.t]);
  }

  /** How many events are not the beginning of a call ... */
  function StepsIn(events: seq<Event>): nat {
    if events == [] then 0
    else StepsIn(events[..|events| - 1]) + (if Starts(events[|events| - 1]) then 0 else 1)
  }

  /** ... and for how many those that are are good. */
  function BegunIn(events: seq<Event>): nat {
    if events == [] then 0 else BegunIn(events[..|events| - 1]) + Begins(events[|events| - 1])
  }

  /** In every run a call of `lock` accounts for twelve further steps at most, and one of `unlock` for fourteen. */
  lemma {:induction false} StepsBounded(threads: nat, events: seq<Event>, s: RawFutex)
    requires Run(threads, events, s)
    ensures StepsIn(events) + AllLeft(s) <= BegunIn(events)
    decreases |events|
  {
    hide Inv, Enabled, Next, AllLeft, Begins, Starts;
    if events == [] {
      FreshLeft(threads);
    } else {
      var e, before := events[|events| - 1], events[..|events| - 1];
      var s0 :| Run(threads, before, s0) && Enabled(s0, e) && s == Next(s0, e);
      StepsBounded(threads, before, s0);
      RunInv(threads, before, s0);
      Nearer(s0, e);
    }
  }

  lemma FreshLeft(threads: nat)
    ensures AllLeft(Fresh(threads)) == 0
  {
    NobodyInFresh(StepsLeft, threads);
    K.NothingInFresh(K.StepsLeft, threads);
  }

  /** Whoever is in a call, and not in the list of the kernel futex, or owns the futex, leaves a step to be made. */
  lemma SomeStep(s: RawFutex, t: nat) returns (e: Event)
    requires Inv(s) && t < |s.threads| && !s.threads[t].Idle?
    requires !(s.threads[t].InBlock? && Main(s).phase[t].Listed?)
    ensures Enabled(s, e) && !e.FetchAdd? && !e.TryLock?
  {
    hide Sum, K.Sum, K.Inv, K.Tokens, K.Enabled;
    var p := s.threads[t];
    if p.InBlock? || p.InUnblock? {
      e := KernelStepThere(s, t);
    } else if p.Owner? {
      e := FetchSub(t);
    } else {
      match p.look {
        case Wants => e := LoadId(t);
        case MustMake => e := MakeFutex(t);
        case Made(_) => e := ExchangeId(t);
        case Lost(_, _) => e := DestroyOwn(t);
        case Got(_) => e := if p.Locking? then CallBlock(t) else CallUnblock(t);
      }
    }
  }

  lemma KernelStepThere(s: RawFutex, t: nat) returns (e: Event)
    requires Inv(s) && t < |s.threads| && (s.threads[t].InBlock? || s.threads[t].InUnblock?)
    requires !(s.threads[t].InBlock? && Main(s).phase[t].Listed?)
    ensures Enabled(s, e) && !e.FetchAdd? && !e.TryLock?
  {
    hide Sum, K.Sum, K.Inv, K.Tokens;
    assert LookupRight(s, s.threads[t]) && PhaseRight(s.threads[t], Main(s).phase[t]);
    var id := s.id.value;
    var ke := K.NeverStuck(Main(s), t);
    assert LookupRight(s, s.threads[ke.t]) && PhaseRight(s.threads[ke.t], Main(s).phase[ke.t]);
    e := match ke
      case BlockReturns(u) => BlockReturns(u)
      case UnblockReturns(u) => UnblockReturns(u)
      case _ => Kernel(id, ke);
  }

  /**
   The only deadlock.  If in a state of a run no thread can go on, but for those that are in no call
   and do not own the futex, and not all threads are such, then all the others are in the list of
   the kernel futex, beside a credit that nobody has taken: a wake-up has been lost.
   */
  lemma StuckIsLost(threads: nat, events: seq<Event>, s: RawFutex)
    requires Run(threads, events, s) && (exists t :: 0 <= t < |s.threads| && !s.threads[t].Idle?)
    requires forall e :: Enabled(s, e) ==> e.FetchAdd? || e.TryLock?
    ensures |Main(s).phase| == |s.threads|
    ensures forall t {:trigger s.threads[t]} :: 0 <= t < |s.threads| && !s.threads[t].Idle? ==>
      s.threads[t].InBlock? && Main(s).phase[t].Listed?
    ensures Main(s).issued == Main(s).released + 1
  {
    hide Run, Sum, K.Sum, K.Inv, K.Enabled, Enabled, LookupRight;
    RunInv(threads, events, s);
    forall t | 0 <= t < |s.threads| && !s.threads[t].Idle?
      ensures s.threads[t].InBlock? && Main(s).phase[t].Listed?
    {
      if !(s.threads[t].InBlock? && Main(s).phase[t].Listed?) {
        var e := SomeStep(s, t);
      }
    }
    CountZero(s);
    SumNone(Owners, s.threads);
    SumNone(ToUnblock, s.threads);
    assert forall t {:trigger Main(s).phase[t]} :: 0 <= t < |s.threads| ==> PhaseRight(s.threads[t], Main(s).phase[t]);
    K.SumNone(K.Tickets, Main(s).phase);
  }

  // ---------------------------------------------------------------------------------------
  // How it comes to a standstill

  /** The futex as two threads see it; the kernel futex, if there is one, has number 0. */
  function Two(chosen: bool, count: int, k: Option<K.KFutex>, p0: Phase, p1: Phase): RawFutex {
    RawFutex(if chosen then Some(0) else None, count, if k.Some? then 1 else 0,
             if k.Some? then map[0 := k.value] else map[], [p0, p1], false)
  }

  lemma Then(events: seq<Event>, s: RawFutex, e: Event, s': RawFutex) returns (more: seq<Event>)
    requires Run(2, events, s) && Enabled(s, e) && s' == Next(s, e)
    ensures Run(2, more, s')
  {
    hide Enabled, Next;
    more := events + [e];
    assert more[|more| - 1] == e && more[..|more| - 1] == events;
  }

  /** A step in the kernel: the threads see no change. */
  lemma ThenInside(events: seq<Event>, k: K.KFutex, p0: Phase, p1: Phase, e: K.Event, k': K.KFutex)
    returns (more: seq<Event>)
    requires Run(2, events, Two(true, 1, Some(k), p0, p1)) && Inner(e) && K.Enabled(k, e) && k' == K.Next(k, e)
    ensures Run(2, more, Two(true, 1, Some(k'), p0, p1))
  {
    hide Run, K.Next, K.Enabled;
    more := Then(events, Two(true, 1, Some(k), p0, p1), Kernel(0, e), Two(true, 1, Some(k'), p0, p1));
  }

  /** Thread 1 calls `block`. */
  lemma ThenBlock(events: seq<Event>, k: K.KFutex, p0: Phase, k': K.KFutex) returns (more: seq<Event>)
    requires Run(2, events, Two(true, 2, Some(k), p0, Locking(Got(0))))
    requires K.Enabled(k, K.Enter(1)) && k' == K.Next(k, K.Enter(1))
    ensures Run(2, more, Two(true, 2, Some(k'), p0, InBlock(0)))
  {
    hide Run, K.Next, K.Enabled;
    more := Then(events, Two(true, 2, Some(k), p0, Locking(Got(0))), CallBlock(1),
      Two(true, 2, Some(k'), p0, InBlock(0)));
  }

  /** Thread 0 calls `unblock`. */
  lemma ThenCall(events: seq<Event>, k: K.KFutex, p1: Phase, k': K.KFutex) returns (more: seq<Event>)
    requires Run(2, events, Two(true, 1, Some(k), Unlocking(Got(0)), p1))
    requires K.Enabled(k, K.Call(0, 1)) && k' == K.Next(k, K.Call(0, 1))
    ensures Run(2, more, Two(true, 1, Some(k'), InUnblock(0), p1))
  {
    hide Run, K.Next, K.Enabled;
    more := Then(events, Two(true, 1, Some(k), Unlocking(Got(0)), p1), CallUnblock(0),
      Two(true, 1, Some(k'), InUnblock(0), p1));
  }

  /** The call returns. */
  lemma ThenReturn(events: seq<Event>, k: K.KFutex, p1: Phase, k': K.KFutex) returns (more: seq<Event>)
    requires Run(2, events, Two(true, 1, Some(k), InUnblock(0), p1))
    requires K.Enabled(k, K.UnblockReturns(0)) && k' == K.Next(k, K.UnblockReturns(0))
    ensures Run(2, more, Two(true, 1, Some(k'), Idle, p1))
  {
    hide Run, K.Next, K.Enabled;
    more := Then(events, Two(true, 1, Some(k), InUnblock(0), p1), UnblockReturns(0), Two(true, 1, Some(k'), Idle, p1));
  }

  lemma Counted() returns (events: seq<Event>)
    ensures Run(2, events, Two(false, 2, None, Owner, Locking(MustMake)))
  {
    events := [];
    assert Fresh(2) == Two(false, 0, None, Idle, Idle);
    hide Run, Fresh;
    events := Then(events, Two(false, 0, None, Idle, Idle), FetchAdd(0), Two(false, 1, None, Owner, Idle));
    events := Then(events, Two(false, 1, None, Owner, Idle), FetchAdd(1), Two(false, 2, None, Owner, Locking(Wants)));
    events := Then(events, Two(false, 2, None, Owner, Locking(Wants)), LoadId(1),
      Two(false, 2, None, Owner, Locking(MustMake)));
  }

  lemma Blocked() returns (events: seq<Event>)
    ensures Run(2, events, Two(true, 2, Some(K.Two(1, false, false, [], K.Out, K.Spinning, 0)), Owner, InBlock(0)))
  {
    hide Run;
    events := Counted();
    var k, k' := K.Two(0, false, false, [], K.Out, K.Out, 0), K.Two(1, false, false, [], K.Out, K.Spinning, 0);
    assert K.Fresh(2) == k;
    events := Then(events, Two(false, 2, None, Owner, Locking(MustMake)), MakeFutex(1),
      Two(false, 2, Some(k), Owner, Locking(Made(0))));
    events := Then(events, Two(false, 2, Some(k), Owner, Locking(Made(0))), ExchangeId(1),
      Two(true, 2, Some(k), Owner, Locking(Got(0))));
    events := ThenBlock(events, k, Owner, k');
  }

  lemma Unlocked() returns (events: seq<Event>)
    ensures Run(2, events,
      Two(true, 1, Some(K.Two(1, false, false, [], K.Calling(1), K.Spinning, 0)), InUnblock(0), InBlock(0)))
  {
    hide Run;
    events := Blocked();
    var k := K.Two(1, false, false, [], K.Out, K.Spinning, 0);
    var k' := K.Two(1, false, false, [], K.Calling(1), K.Spinning, 0);
    events := Then(events, Two(true, 2, Some(k), Owner, InBlock(0)), FetchSub(0),
      Two(true, 1, Some(k), Unlocking(Wants), InBlock(0)));
    events := Then(events, Two(true, 1, Some(k), Unlocking(Wants), InBlock(0)), LoadId(0),
      Two(true, 1, Some(k), Unlocking(Got(0)), InBlock(0)));
    events := ThenCall(events, k, InBlock(0), k');
  }

  lemma CreditIssued() returns (events: seq<Event>)
    ensures Run(2, events,
      Two(true, 1, Some(K.Two(0, true, true, [], K.Moved, K.Spinning, 1)), InUnblock(0), InBlock(0)))
  {
    hide Run;
    events := Unlocked();
    var k := K.Two(1, false, false, [], K.Calling(1), K.Spinning, 0);
    var k1 := K.Two(1, true, false, [], K.Inside(1), K.Spinning, 0);
    var k2 := K.Two(1, true, true, [], K.Locked(1), K.Spinning, 0);
    var k3 := K.Two(0, true, true, [], K.Moving(1), K.Spinning, 1);
    events := ThenInside(events, k, InUnblock(0), InBlock(0), K.TakeBlockLock(0), k1);
    events := ThenInside(events, k1, InUnblock(0), InBlock(0), K.TakeTlist(0), k2);
    events := ThenInside(events, k2, InUnblock(0), InBlock(0), K.Sub(0), k3);
    events := ThenInside(events, k3, InUnblock(0), InBlock(0), K.EndMove(0),
      K.Two(0, true, true, [], K.Moved, K.Spinning, 1));
  }

  lemma UnlockOver() returns (events: seq<Event>)
    ensures Run(2, events, Two(true, 1, Some(K.Two(0, false, false, [], K.Out, K.Spinning, 1)), Idle, InBlock(0)))
  {
    hide Run;
    events := CreditIssued();
    var k, k1 := K.Two(0, true, true, [], K.Moved, K.Spinning, 1), K.Two(0, true, false, [], K.Leaving, K.Spinning, 1);
    var k2 := K.Two(0, false, false, [], K.Done, K.Spinning, 1);
    events := ThenInside(events, k, InUnblock(0), InBlock(0), K.DropTlist(0), k1);
    events := ThenInside(events, k1, InUnblock(0), InBlock(0), K.DropBlockLock(0), k2);
    events := ThenReturn(events, k2, InBlock(0), K.Two(0, false, false, [], K.Out, K.Spinning, 1));
  }

  lemma LockerFiled() returns (events: seq<Event>)
    ensures Run(2, events, Two(true, 1, Some(K.Two(0, false, false, [1], K.Out, K.Listed, 1)), Idle, InBlock(0)))
  {
    hide Run;
    events := UnlockOver();
    var k, k1 := K.Two(0, false, false, [], K.Out, K.Spinning, 1), K.Two(0, true, false, [], K.Out, K.Holding, 1);
    var k2, k3 := K.Two(0, true, false, [], K.Out, K.Parked, 1), K.Two(0, false, true, [], K.Out, K.Filing, 1);
    events := ThenInside(events, k, Idle, InBlock(0), K.TakeLock(1), k1);
    events := ThenInside(events, k1, Idle, InBlock(0), K.SetState(1), k2);
    events := ThenInside(events, k2, Idle, InBlock(0), K.ForceUnlock(1), k3);
    events := ThenInside(events, k3, Idle, InBlock(0), K.Insert(1), K.Two(0, false, false, [1], K.Out, K.Listed, 1));
  }

  /**
   Such a run, of one `lock` and `unlock` and another `lock`.  The count is 1, but the thread that
   wants the futex is in the list for good, beside the credit that was issued for it, and nobody owns it.
   */
  lemma Standstill()
    ensures exists events, s ::
      && Run(2, events, s) && s.threads == [Idle, InBlock(0)] && s.count == 1
      && Main(s).phase == [K.Out, K.Listed] && Main(s).issued == 1 && Main(s).released == 0
      && forall e :: Enabled(s, e) ==> e.FetchAdd? || e.TryLock?
  {
    hide Run;
    var events := LockerFiled();
    var s := Two(true, 1, Some(K.Two(0, false, false, [1], K.Out, K.Listed, 1)), Idle, InBlock(0));
    assert s.threads == [Idle, InBlock(0)];
  }
}
