/**
 The thread lists of the scheduler: kernel/src/sched/mod.rs and kernel/src/sched/thread.rs.

 Threads are numbers.  The lists are sequences (that the links do what is done to the sequences
 is shown for the intrusive list by itself), and all is done under the lock of the lists.
 */
module Schedulers {
  import opened Wrappers
  import opened Arith

  /** `ThreadState`; what a thread waits for is a number. */
  datatype ThreadState =
    | Running
    | Ready
    | Idle
    | Destroy
    | Waiting(tuid: nat)
    | Sleep(nsec: nat)
    | Join(tuid: nat)
    | FutexBlock(futex: nat)
    | Listening(ipcid: nat)

  /** The lists of a `ThreadList`; those made on demand are found by the state. */
  datatype Place =
    | OnCpu(prid: nat)
    | ReadyList
    | IdleList(prid: nat)
    | DestroyList
    | SleepList
    | Keyed(state: ThreadState)

  /** `get`: the list for a state, seen from a processor. */
  function PlaceOf(s: ThreadState, prid: nat): Place {
    match s
    case Running => OnCpu(prid)
    case Ready => ReadyList
    case Idle => IdleList(prid)
    case Destroy => DestroyList
    case Sleep(_) => SleepList
    case _ => Keyed(s)
  }

  /** Threads in different states are in different lists, but for those that sleep. */
  lemma PlacesDiffer(s: ThreadState, s': ThreadState, p: nat, q: nat)
    ensures PlaceOf(s, p) == PlaceOf(s', q)
      <==> (s.Sleep? && s'.Sleep?) || (s == s' && (s.Running? || s.Idle? ==> p == q))
  {
  }

  type Lists = map<Place, seq<nat>>
  type States = map<nat, ThreadState>
  /** Where every thread is that is in a list. */
  type Homes = map<nat, Place>

  /** Off the processors, a thread is in the list of its own state. */
  predicate Fits(a: Place, s: ThreadState) {
    match a
    case OnCpu(_) => true
    case IdleList(_) => s.Idle?
    case _ => a == PlaceOf(s, 0)
  }

  /** Every thread that has a home is in that list, once, and in no other. */
  ghost predicate Right(l: Lists, s: States, h: Homes) {
    && (forall t {:trigger h[t]} :: t in h ==> h[t] in l && t in l[h[t]] && t in s && Fits(h[t], s[t]))
    && (forall a, i {:trigger l[a][i]} :: a in l && 0 <= i < |l[a]| ==> l[a][i] in h && h[l[a][i]] == a)
    && (forall a, i, j {:trigger l[a][i], l[a][j]} :: a in l && 0 <= i < j < |l[a]| ==> l[a][i] != l[a][j])
  }

  function Without(s: seq<nat>, i: nat): seq<nat>
    requires i < |s|
  {
    s[..i] + s[i + 1..]
  }

  /** A thread is taken out of its list. */
  lemma TakeRight(l: Lists, s: States, h: Homes, a: Place, i: nat)
    requires Right(l, s, h) && a in l && i < |l[a]|
    ensures l[a][i] in h && h[l[a][i]] == a && l[a][i] in s
    ensures Right(l[a := Without(l[a], i)], s, h - {l[a][i]})
  {
    var t := l[a][i];
    var w := Without(l[a], i);
    var l', h' := l[a := w], h - {t};
    assert forall k {:trigger w[k]} :: 0 <= k < |w| ==> w[k] == l[a][if k < i then k else k + 1];
    forall u | u in h' ensures h'[u] in l' && u in l'[h'[u]] {
      if h[u] == a {
        var k :| 0 <= k < |l[a]| && l[a][k] == u;
        assert w[if k < i then k else k - 1] == u;
      }
    }
  }

  /** A thread without a home is put at the end of a list that fits its state. */
  lemma PutRight(l: Lists, s: States, h: Homes, a: Place, t: nat, state: ThreadState)
    requires Right(l, s, h) && a in l && t !in h && Fits(a, state)
    ensures Right(l[a := l[a] + [t]], s[t := state], h[t := a])
  {
    var l', s', h' := l[a := l[a] + [t]], s[t := state], h[t := a];
    assert l'[a][|l[a]|] == t;
    forall u | u in h' ensures h'[u] in l' && u in l'[h'[u]] && u in s' && Fits(h'[u], s'[u]) {
      if u != t {
        assert h[u] in l;
      }
    }
  }

  // ---------------------------------------------------------------------------------------
  // Processors

  /** Every processor runs one thread, and keeps its own idle thread; idle threads never block. */
  ghost predicate Cpus(l: Lists, s: States, h: Homes, idles: seq<nat>) {
    && ReadyList in l && DestroyList in l && SleepList in l
    && (forall p {:trigger idles[p]} :: 0 <= p < |idles| ==> CpuRight(l, s, h, p, idles[p]))
    && (forall a {:trigger a in l} :: a in l && (a.OnCpu? || a.IdleList?) ==> a.prid < |idles|)
    && (forall p, q :: 0 <= p < q < |idles| ==> idles[p] != idles[q])
  }

  ghost predicate CpuRight(l: Lists, s: States, h: Homes, p: nat, idle: nat) {
    && OnCpu(p) in l && |l[OnCpu(p)]| == 1 && IdleList(p) in l
    && var t := l[OnCpu(p)][0];
    && t in s && !s[t].Idle? && PlaceOf(s[t], p) in l
    && idle in h && (h[idle] == IdleList(p) || (h[idle] == OnCpu(p) && idle in s && s[idle] == Running))
    && (l[IdleList(p)] == [] || l[IdleList(p)] == [idle])
  }

  /** The number of threads at the head of a list whose process is gone. */
  function DeadPrefix(r: seq<nat>, alive: set<nat>): (k: nat)
    ensures k <= |r|
  {
    if r == [] || r[0] in alive then 0 else 1 + DeadPrefix(r[1..], alive)
  }

  lemma {:induction false} DeadPrefixIs(r: seq<nat>, alive: set<nat>)
    ensures
      var k := DeadPrefix(r, alive);
      (forall i :: 0 <= i < k ==> r[i] !in alive) && (k < |r| ==> r[k] in alive)
  {
    if r != [] && r[0] !in alive {
      DeadPrefixIs(r[1..], alive);
      assert forall i :: 0 < i < |r| ==> r[i] == r[1..][i - 1];
    }
  }

  function Elems(r: seq<nat>): set<nat> {
    set t | t in r
  }

  /** The first `k` ready threads are dead and go to the list of threads to be destroyed. */
  function PurgedLists(l: Lists, k: nat): Lists {
    var r := ListAt(l, ReadyList);
    if k <= |r| then l[ReadyList := r[k..]][DestroyList := ListAt(l, DestroyList) + r[..k]] else l
  }

  function ListAt(l: Lists, a: Place): seq<nat> {
    if a in l then l[a] else []
  }

  /** The thread that a processor runs. */
  function Current(l: Lists, prid: nat): nat {
    var w := ListAt(l, OnCpu(prid));
    if w == [] then 0 else w[0]
  }

  /** The time since the last switch goes to the account of a thread, if the clock has not gone back. */
  function Charged(rt: map<nat, nat>, t: nat, last: nat, now: nat): map<nat, nat> {
    if t in rt && now >= last then rt[t := rt[t] + (now - last)] else rt
  }

  /** The state in which a thread leaves its processor: `default_state`, if it did not ask to block. */
  function OffState(s: States, t: nat, idles: seq<nat>): ThreadState {
    if t in s && !s[t].Running? then s[t] else if t in idles then Idle else Ready
  }

  /** `next` comes to run, from the head of the ready list or as the idle thread; `t` leaves for the list `back`. */
  function SwitchedLists(l: Lists, prid: nat, next: nat, idle: bool, t: nat, back: Place): Lists {
    var r := ListAt(l, ReadyList);
    var l1 := if idle then l[IdleList(prid) := []] else l[ReadyList := if r == [] then [] else r[1..]];
    l1[back := ListAt(l1, back) + [t]][OnCpu(prid) := [next]]
  }

  function PurgedStates(s: States, dead: set<nat>): States {
    map t | t in s :: if t in dead then Destroy else s[t]
  }

  function PurgedHomes(h: Homes, dead: set<nat>): Homes {
    map t | t in h :: if t in dead then DestroyList else h[t]
  }

  /** One more dead thread. */
  lemma PurgeOne(l: Lists, s: States, h: Homes, k: nat)
    requires ReadyList in l && DestroyList in l && k < |l[ReadyList]| && Right(l, s, h)
    ensures
      var r, l1 := l[ReadyList], PurgedLists(l, k);
      && r[k] in h && r[k] in s && l1[ReadyList] != [] && l1[ReadyList][0] == r[k]
      && PurgedLists(l, k + 1) == l1[ReadyList := l1[ReadyList][1..]][DestroyList := l1[DestroyList] + [r[k]]]
      && PurgedStates(s, Elems(r[..k + 1])) == PurgedStates(s, Elems(r[..k]))[r[k] := Destroy]
      && PurgedHomes(h, Elems(r[..k + 1])) == (PurgedHomes(h, Elems(r[..k])) - {r[k]})[r[k] := DestroyList]
  {
    hide Right, PurgedLists, PurgedStates, PurgedHomes;
    TakeRight(l, s, h, ReadyList, k);
    var r := l[ReadyList];
    assert Elems(r[..k + 1]) == Elems(r[..k]) + {r[k]} by {
      assert r[..k + 1] == r[..k] + [r[k]];
    }
    PurgeList(l, k);
    OneMoreDead(s, h, Elems(r[..k]), r[k]);
  }

  lemma PurgeList(l: Lists, k: nat)
    requires ReadyList in l && DestroyList in l && k < |l[ReadyList]|
    ensures
      var r, l1 := l[ReadyList], PurgedLists(l, k);
      && l1[ReadyList] != [] && l1[ReadyList][0] == r[k]
      && PurgedLists(l, k + 1) == l1[ReadyList := l1[ReadyList][1..]][DestroyList := l1[DestroyList] + [r[k]]]
  {
    var r, d := l[ReadyList], l[DestroyList];
    assert r[k..][1..] == r[k + 1..];
    assert d + r[..k + 1] == (d + r[..k]) + [r[k]];
  }

  lemma OneMoreDead(s: States, h: Homes, d: set<nat>, t: nat)
    requires t in s && t in h
    ensures PurgedStates(s, d + {t}) == PurgedStates(s, d)[t := Destroy]
    ensures PurgedHomes(h, d + {t}) == (PurgedHomes(h, d) - {t})[t := DestroyList]
  {
  }

  lemma NoneDead(l: Lists, s: States, h: Homes)
    requires ReadyList in l && DestroyList in l
    ensures PurgedLists(l, 0) == l && PurgedStates(s, Elems([])) == s && PurgedHomes(h, Elems([])) == h
  {
    assert l[ReadyList][0..] == l[ReadyList] && l[DestroyList] + l[ReadyList][..0] == l[DestroyList];
  }

  lemma {:induction false} PrefixIs(r: seq<nat>, alive: set<nat>, k: nat)
    requires k <= |r| && (forall i :: 0 <= i < k ==> r[i] !in alive) && (k < |r| ==> r[k] in alive)
    ensures k == DeadPrefix(r, alive)
  {
    if k > 0 {
      assert forall i :: 0 <= i < k - 1 ==> r[1..][i] == r[i + 1];
      PrefixIs(r[1..], alive, k - 1);
    }
  }

  /**
   What `schedule` does to lists and states.  Dead threads at the head of the ready list go to the
   list of threads to be destroyed.  The next thread is the first live one that is ready, or else
   the idle thread of the processor.  The thread that ran so far goes to the end of the list of its
   own state.  There is no switch exactly if the idle thread is running and no live thread is ready.
   */
  ghost predicate Scheduled(l: Lists, s: States, l': Lists, s': States, prid: nat, out: bool, alive: set<nat>,
                            idles: seq<nat>)
    requires prid < |idles|
  {
    var r := ListAt(l, ReadyList);
    var k := DeadPrefix(r, alive);
    var l1, s1 := PurgedLists(l, k), PurgedStates(s, Elems(r[..k]));
    var t := Current(l, prid);
    && (!out <==> k == |r| && t == idles[prid])
    && (!out ==> l' == l1 && s' == s1)
    && (out ==>
         var next := if k < |r| then r[k] else idles[prid];
         var off := OffState(s, t, idles);
         && l' == SwitchedLists(l1, prid, next, k == |r|, t, PlaceOf(off, prid))
         && s' == s1[t := off][next := Running])
  }

  predicate EndsIn(l: Lists, a: Place, t: nat) {
    a in l && l[a] != [] && l[a][|l[a]| - 1] == t
  }

  /**
   What a switch makes of the thread that ran.  If it is still running, it becomes the last ready
   one, or the idle one of its processor; if it asked to block, it keeps its state, and is the last
   in the list for that.
   */
  predicate Relieved(l: Lists, s: States, l': Lists, s': States, prid: nat, idles: seq<nat>) {
    && OnCpu(prid) in l && |l[OnCpu(prid)]| == 1
    && var t := l[OnCpu(prid)][0];
    && t in s && t in s'
    && if !s[t].Running? then s'[t] == s[t] && EndsIn(l', PlaceOf(s[t], prid), t)
       else if t in idles then s'[t] == Idle && IdleList(prid) in l' && l'[IdleList(prid)] == [t]
       else s'[t] == Ready && EndsIn(l', ReadyList, t)
  }

  /** Who runs after a switch: the first ready thread that is alive, or the idle one if there is none. */
  ghost predicate TakenOver(l: Lists, l': Lists, s': States, prid: nat, alive: set<nat>, idles: seq<nat>)
    requires prid < |idles|
  {
    && ReadyList in l && OnCpu(prid) in l' && |l'[OnCpu(prid)]| == 1
    && var r, next := l[ReadyList], l'[OnCpu(prid)][0];
    && next in s' && s'[next] == Running
    && if exists i :: 0 <= i < |r| && r[i] in alive
       then exists i :: 0 <= i < |r| && r[i] == next && next in alive && forall j :: 0 <= j < i ==> r[j] !in alive
       else next == idles[prid]
  }

  /** A switch, seen from the two threads that take part in it. */
  lemma SwitchSays(l: Lists, s: States, h: Homes, p: nat, next: nat, idle: bool, idles: seq<nat>)
    requires Right(l, s, h) && Cpus(l, s, h, idles) && p < |idles| && Chosen(l, p, next, idle)
    ensures
      var t := Current(l, p);
      var off := OffState(s, t, idles);
      var l' := SwitchedLists(l, p, next, idle, t, PlaceOf(off, p));
      Relieved(l, s, l', s[t := off][next := Running], p, idles) && OnCpu(p) in l' && l'[OnCpu(p)] == [next]
  {
    hide Right, Cpus;
    SwitchFacts(l, s, h, p, next, idle, idles);
    AtCpu(l, s, h, p, idles);
  }

  function StartLists(idles: seq<nat>): Lists {
    if idles == [] then map[ReadyList := [], DestroyList := [], SleepList := []]
    else
      var p := |idles| - 1;
      StartLists(idles[..p])[OnCpu(p) := [idles[p]]][IdleList(p) := []]
  }

  function StartHomes(idles: seq<nat>): Homes {
    if idles == [] then map[]
    else
      var p := |idles| - 1;
      StartHomes(idles[..p])[idles[p] := OnCpu(p)]
  }

  ghost predicate StartShape(l: Lists, h: Homes, idles: seq<nat>) {
    && ReadyList in l && DestroyList in l && SleepList in l
    && (forall p {:trigger idles[p]} :: 0 <= p < |idles| ==>
      OnCpu(p) in l && l[OnCpu(p)] == [idles[p]] && IdleList(p) in l && idles[p] in h && h[idles[p]] == OnCpu(p))
    && (forall a {:trigger a in l} :: a in l && (a.OnCpu? || a.IdleList?) ==> a.prid < |idles|)
    && (forall a {:trigger l[a]} :: a in l && !a.OnCpu? ==> l[a] == [])
    && (forall t {:trigger t in h} :: t in h <==> t in idles)
  }

  lemma {:induction false} StartIs(idles: seq<nat>)
    requires forall p, q :: 0 <= p < q < |idles| ==> idles[p] != idles[q]
    ensures StartShape(StartLists(idles), StartHomes(idles), idles)
  {
    hide StartShape;
    if idles == [] {
      NoCpus();
    } else {
      var p := |idles| - 1;
      StartIs(idles[..p]);
      OneCpuMore(StartLists(idles[..p]), StartHomes(idles[..p]), idles[..p], idles[p]);
      assert idles == idles[..p] + [idles[p]];
    }
  }

  lemma NoCpus()
    ensures StartShape(StartLists([]), StartHomes([]), [])
  {
  }

  lemma OneCpuMore(l: Lists, h: Homes, idles: seq<nat>, t: nat)
    requires StartShape(l, h, idles) && t !in idles
    ensures StartShape(l[OnCpu(|idles|) := [t]][IdleList(|idles|) := []], h[t := OnCpu(|idles|)], idles + [t])
  {
    var all := idles + [t];
    assert all[|idles|] == t && forall q {:trigger all[q]} :: 0 <= q < |idles| ==> all[q] == idles[q];
    assert forall u :: u in all <==> u in idles || u == t;
    var l', h' := l[OnCpu(|idles|) := [t]][IdleList(|idles|) := []], h[t := OnCpu(|idles|)];
    forall p | 0 <= p < |all|
      ensures OnCpu(p) in l' && l'[OnCpu(p)] == [all[p]] && IdleList(p) in l' && all[p] in h' && h'[all[p]] == OnCpu(p)
    {
      assert p < |idles| ==> all[p] == idles[p] && OnCpu(p) in l && idles[p] in idles;
    }
  }

  lemma StartRight(l: Lists, s: States, h: Homes, idles: seq<nat>)
    requires forall p, q :: 0 <= p < q < |idles| ==> idles[p] != idles[q]
    requires StartShape(l, h, idles) && s.Keys == h.Keys && forall t :: t in s ==> s[t] == Running
    ensures Right(l, s, h) && Cpus(l, s, h, idles)
  {
    forall t | t in h ensures h[t] in l && t in l[h[t]] {
      var p :| 0 <= p < |idles| && idles[p] == t;
      assert h[idles[p]] == OnCpu(p);
    }
    forall p | 0 <= p < |idles| ensures CpuRight(l, s, h, p, idles[p]) {
      assert h[idles[p]] == OnCpu(p);
    }
    forall a, i | a in l && 0 <= i < |l[a]| ensures l[a][i] in h && h[l[a][i]] == a {
      assert a.OnCpu?;
      assert h[idles[a.prid]] == OnCpu(a.prid);
    }
  }

  class Scheduler {
    /** The idle threads, by processor. */
    const idles: seq<nat>
    var lists: Lists
    var states: States
    /** The threads whose process still exists. */
    var alive: set<nat>
    var runTime: map<nat, nat>
    ghost var homes: Homes

    ghost predicate Valid()
      reads this
    {
      && Right(lists, states, homes) && homes.Keys == states.Keys && runTime.Keys == states.Keys
      && Cpus(lists, states, homes, idles)
    }

    /** At the start every processor runs its idle thread, and there is no other. */
    constructor (idles: seq<nat>)
      requires forall p, q :: 0 <= p < q < |idles| ==> idles[p] != idles[q]
      ensures Valid() && this.idles == idles && states.Keys == (set t | t in idles)
      ensures forall p {:trigger idles[p]} :: 0 <= p < |idles| ==>
        OnCpu(p) in lists && lists[OnCpu(p)] == [idles[p]]
      ensures alive == {} && forall t :: t in states ==> states[t] == Running
      ensures forall a {:trigger lists[a]} :: a in lists && !a.OnCpu? ==> lists[a] == []
    {
      hide Right, Cpus, StartLists, StartHomes;
      this.idles := idles;
      lists := StartLists(idles);
      states := map t | t in idles :: Running;
      runTime := map t | t in idles :: 0;
      alive := {};
      homes := StartHomes(idles);
      new;
      StartIs(idles);
      assert homes.Keys == states.Keys;
      forall p | 0 <= p < |idles| ensures OnCpu(p) in lists && lists[OnCpu(p)] == [idles[p]] {
        assert homes[idles[p]] == OnCpu(p);
      }
      StartRight(lists, states, homes, idles);
    }

    /** `new_thread_regs`: a thread whose number is not taken becomes the last ready one. */
    method NewThread(t: nat, processAlive: bool) returns (ok: bool)
      requires Valid()
      modifies this
      ensures Valid() && (ok <==> t !in old(states))
      ensures !ok ==> lists == old(lists) && states == old(states) && alive == old(alive) && runTime == old(runTime)
      ensures ok ==>
        && ReadyList in old(lists) && lists == old(lists)[ReadyList := old(lists)[ReadyList] + [t]]
        && states == old(states)[t := Ready] && runTime == old(runTime)[t := 0]
        && alive == (if processAlive then old(alive) + {t} else old(alive) - {t})
    {
      hide Right, CpuRight;
      if t in states {
        return false;
      }
      ghost var l, s, h := lists, states, homes;
      SetAndInsert(t, Ready, 0);
      NewCpus(l, s, h, t, lists, idles);
      alive := if processAlive then alive + {t} else alive - {t};
      runTime := runTime[t := 0];
      ok := true;
    }

    /** The end of a process, as far as the lists are concerned: its threads are not alive any more. */
    method Terminate(threads: set<nat>)
      requires Valid()
      modifies this`alive
      ensures Valid() && alive == old(alive) - threads
    {
      alive := alive - threads;
    }

    /** `pop_front` */
    method PopFront(a: Place) returns (t: nat)
      requires Right(lists, states, homes) && a in lists && lists[a] != []
      modifies this`lists, this`homes
      ensures t == old(lists)[a][0] && t in states && old(homes)[t] == a
      ensures lists == old(lists)[a := old(lists)[a][1..]] && homes == old(homes) - {t}
      ensures Right(lists, states, homes)
    {
      hide Right;
      TakeRight(lists, states, homes, a, 0);
      t := lists[a][0];
      assert Without(lists[a], 0) == lists[a][1..];
      lists := lists[a := lists[a][1..]];
      homes := homes - {t};
    }

    /** `pop` */
    method Pop(a: Place) returns (t: nat)
      requires Right(lists, states, homes) && a in lists && lists[a] != []
      modifies this`lists, this`homes
      ensures t == old(lists)[a][|old(lists)[a]| - 1] && t in states && old(homes)[t] == a
      ensures lists == old(lists)[a := old(lists)[a][..|old(lists)[a]| - 1]] && homes == old(homes) - {t}
      ensures Right(lists, states, homes)
    {
      hide Right;
      var k := |lists[a]| - 1;
      TakeRight(lists, states, homes, a, k);
      t := lists[a][k];
      assert Without(lists[a], k) == lists[a][..k];
      lists := lists[a := lists[a][..k]];
      homes := homes - {t};
    }

    /** `set_state` and `insert_into`, of a thread that is in no list. */
    method SetAndInsert(t: nat, state: ThreadState, prid: nat)
      requires Right(lists, states, homes) && t !in homes && PlaceOf(state, prid) in lists
      modifies this`lists, this`states, this`homes
      ensures
        var a := PlaceOf(state, prid);
        lists == old(lists)[a := old(lists)[a] + [t]] && states == old(states)[t := state]
          && homes == old(homes)[t := a]
      ensures Right(lists, states, homes)
    {
      hide Right;
      var a := PlaceOf(state, prid);
      PutRight(lists, states, homes, a, t, state);
      states := states[t := state];
      lists := lists[a := lists[a] + [t]];
      homes := homes[t := a];
    }

    /** The loop of `schedule` that looks for the next thread; `k` threads before it were dead. */
    method NextThread(prid: nat) returns (next: Option<nat>, ghost k: nat)
      requires Valid() && prid < |idles|
      modifies this`lists, this`states, this`homes
      ensures Right(lists, states, homes) && k == DeadPrefix(old(lists)[ReadyList], alive)
        && IdleList(prid) in old(lists)
      ensures
        var r := old(lists)[ReadyList];
        var l, s, h := PurgedLists(old(lists), k), PurgedStates(old(states), Elems(r[..k])),
          PurgedHomes(old(homes), Elems(r[..k]));
        var i := IdleList(prid);
        && Right(l, s, h) && states == s
        && (if k < |r| then next == Some(r[k]) && lists == l[ReadyList := r[k + 1..]] && homes == h - {r[k]}
            else if old(lists)[i] != [] then next == Some(idles[prid]) && lists == l[i := []]
              && homes == h - {idles[prid]}
            else next.None? && lists == l && homes == h)
    {
      hide Right, PurgedStates, PurgedHomes, DeadPrefix, Elems;
      k := 0;
      next := None;
      ghost var l, s, h, r := lists, states, homes, lists[ReadyList];
      NoneDead(l, s, h);
      OnlyIdle(l, s, h, prid, idles);
      assert r[..0] == [];
      while true
        invariant k <= |r| && Right(lists, states, homes) && next.None?
        invariant lists == PurgedLists(l, k)
        invariant states == PurgedStates(s, Elems(r[..k])) && homes == PurgedHomes(h, Elems(r[..k]))
        invariant forall i :: 0 <= i < k ==> r[i] !in alive
        decreases |r| - k
      {
        if lists[ReadyList] != [] {
          PurgeOne(l, s, h, k);
          var t := PopFront(ReadyList);
          if t in alive {
            next := Some(t);
            PrefixIs(r, alive, k);
            return;
          }
          SetAndInsert(t, Destroy, prid);
          k := k + 1;
        } else {
          PrefixIs(r, alive, k);
          if lists[IdleList(prid)] != [] {
            var t := Pop(IdleList(prid));
            next := Some(t);
          }
          return;
        }
      }
    }

    /** `schedule`; `last` and `now` are the times of the last switch and of this one. */
    method Schedule(prid: nat, last: nat, now: nat) returns (out: bool)
      requires Valid() && prid < |idles|
      modifies this`lists, this`states, this`homes, this`runTime
      ensures Valid()
      ensures Scheduled(old(lists), old(states), lists, states, prid, out, alive, idles)
      ensures out ==>
        && Relieved(old(lists), old(states), lists, states, prid, idles)
        && TakenOver(old(lists), lists, states, prid, alive, idles)
      ensures
        var t := Current(old(lists), prid);
        && t in old(runTime)
        && runTime == if out then Charged(old(runTime), t, last, now) else old(runTime)
    {
      hide Right, Cpus, PurgedLists, PurgedStates, PurgedHomes, DeadPrefix, Elems;
      ghost var l, s, h, rt := lists, states, homes, runTime;
      IdleRuns(l, s, h, prid, idles);
      OnlyIdle(l, s, h, prid, idles);
      var next, k := NextThread(prid);
      ghost var d := Elems(l[ReadyList][..k]);
      ghost var lp, sp, hp := PurgedLists(l, k), PurgedStates(s, d), PurgedHomes(h, d);
      PurgeCpus(l, s, h, k, prid, idles);
      if next.None? {
        return false;
      }
      assert k < |l[ReadyList]| ==> l[ReadyList][k..][1..] == l[ReadyList][k + 1..];
      SwitchSays(lp, sp, hp, prid, next.value, k == |l[ReadyList]|, idles);
      DeadPrefixIs(l[ReadyList], alive);
      Dispatch(prid, next.value, k == |l[ReadyList]|, last, now, lp, hp);
      out := true;
    }

    /** The second half of `schedule`: the running thread leaves its processor, and the next one takes it. */
    method Dispatch(prid: nat, next: nat, ghost idle: bool, last: nat, now: nat, ghost l: Lists, ghost h: Homes)
      requires Right(lists, states, homes) && Right(l, states, h) && Cpus(l, states, h, idles) && prid < |idles|
      requires Chosen(l, prid, next, idle)
      requires lists == if idle then l[IdleList(prid) := []] else l[ReadyList := l[ReadyList][1..]]
      requires homes == h - {next} && h.Keys == states.Keys == runTime.Keys
      modifies this`lists, this`states, this`homes, this`runTime
      ensures Valid()
      ensures
        var t := Current(l, prid);
        var off := OffState(old(states), t, idles);
        && t in old(runTime)
        && lists == SwitchedLists(l, prid, next, idle, t, PlaceOf(off, prid))
          && states == old(states)[t := off][next := Running]
        && runTime == Charged(old(runTime), t, last, now)
    {
      hide Right, Cpus, PlaceOf, SwitchedLists, Current, OffState;
      ghost var s, t := states, Current(l, prid);
      ghost var off := OffState(s, t, idles);
      ghost var back := PlaceOf(off, prid);
      SwitchFacts(l, s, h, prid, next, idle, idles);
      SwitchCpus(l, s, h, prid, next, idle, idles);
      CpuPlace(prid);
      FinalLists(l, prid, next, idle, t, back);
      FinalHomes(h, next, t, back, prid);
      var oldThread := Pop(OnCpu(prid));
      assert oldThread == t;
      if now >= last {
        runTime := runTime[oldThread := runTime[oldThread] + (now - last)];
      }
      var oldState := OffState(states, oldThread, idles);
      SetAndInsert(oldThread, oldState, prid);
      SetAndInsert(next, Running, prid);
    }

    /** `move_to`, of a thread that is in a list of no processor; `i` is where it is there. */
    method MoveTo(t: nat, state: ThreadState, prid: nat, ghost i: nat)
      requires Valid() && t in states && Shared(PlaceOf(states[t], prid)) && PlaceOf(states[t], prid) in lists
      requires i < |lists[PlaceOf(states[t], prid)]| && lists[PlaceOf(states[t], prid)][i] == t
      requires Shared(PlaceOf(state, prid)) && PlaceOf(state, prid) in lists
      modifies this`lists, this`states, this`homes
      ensures Valid()
      ensures
        var a, b := PlaceOf(old(states)[t], prid), PlaceOf(state, prid);
        var l := old(lists)[a := Without(old(lists)[a], i)];
        lists == l[b := l[b] + [t]] && states == old(states)[t := state]
    {
      hide Right, Cpus, PlaceOf;
      ghost var l, s, h, a := lists, states, homes, PlaceOf(states[t], prid);
      TakeRight(lists, states, homes, a, i);
      RemoveFromCurrent(t, prid, i);
      SetAndInsert(t, state, prid);
      MoveCpus(l, s, h, t, lists, state, PlaceOf(state, prid), idles);
      assert homes == h[t := PlaceOf(state, prid)];
    }

    /** `remove_from_current` */
    method RemoveFromCurrent(t: nat, prid: nat, ghost i: nat)
      requires Right(lists, states, homes) && t in states && PlaceOf(states[t], prid) in lists
      requires i < |lists[PlaceOf(states[t], prid)]| && lists[PlaceOf(states[t], prid)][i] == t
      modifies this`lists, this`homes
      ensures
        var a := PlaceOf(states[t], prid);
        lists == old(lists)[a := Without(old(lists)[a], i)] && homes == old(homes) - {t}
      ensures Right(lists, states, homes)
    {
      hide Right, PlaceOf;
      var a := PlaceOf(states[t], prid);
      TakeRight(lists, states, homes, a, i);
      FirstAt(lists, states, homes, a, i);
      var k := IndexOf(lists[a], t);
      lists := lists[a := Without(lists[a], k)];
      homes := homes - {t};
    }

    /** `inner_state_move`: up to `count` threads go from the list of one state to that of another. */
    method InnerStateMove(oldState: ThreadState, newState: ThreadState, count: nat, prid: nat) returns (moved: nat)
      requires Valid() && prid < |idles|
      requires Shared(PlaceOf(oldState, prid)) && Shared(PlaceOf(newState, prid))
      modifies this`lists, this`states, this`homes
      ensures Valid()
      ensures
        var a, b := PlaceOf(oldState, prid), PlaceOf(newState, prid);
        if a !in old(lists) || b !in old(lists) then moved == 0 && lists == old(lists) && states == old(states)
        else if a == b then
          // one list is turned: its head goes to its end each time
          var w := old(lists)[a];
          && moved == (if w == [] then 0 else count)
          && lists == old(lists)[a := Turned(w, moved)]
          && states == MovedStates(old(states), Elems(w[..Min(moved, |w|)]), newState)
        else
          var w := old(lists)[a];
          && moved == (if count <= |w| then count else |w|)
          && moved <= |w| && lists == MovedLists(old(lists), a, b, moved)
          && states == MovedStates(old(states), Elems(w[..moved]), newState)
    {
      hide Right, Cpus, PlaceOf, MovedStates, Elems, Turned;
      moved := 0;
      var a, b := PlaceOf(oldState, prid), PlaceOf(newState, prid);
      if a !in lists || b !in lists {
        return 0;
      }
      ghost var l0, s0, w := lists, states, lists[a];
      NoneMoved(l0, s0, a, b, newState);
      while moved < count
        invariant Valid() && a in lists && b in lists && moved <= count
        invariant a == b ==>
          && (w == [] ==> moved == 0) && lists == l0[a := Turned(w, moved)]
          && states == MovedStates(s0, Elems(w[..Min(moved, |w|)]), newState)
        invariant a != b ==>
          moved <= |w| && MovedLists(l0, a, b, moved) == lists && states == MovedStates(s0, Elems(w[..moved]), newState)
      {
        if lists[a] == [] {
          return;
        }
        if a != b {
          MoveOne(l0, s0, a, b, moved, newState);
        } else {
          TurnOne(s0, w, moved, newState);
        }
        MoveHead(a, newState, prid);
        moved := moved + 1;
      }
    }

    /** One round of that loop. */
    method MoveHead(a: Place, newState: ThreadState, prid: nat)
      requires Valid() && prid < |idles| && Shared(a) && Shared(PlaceOf(newState, prid))
      requires a in lists && lists[a] != [] && PlaceOf(newState, prid) in lists
      modifies this`lists, this`states, this`homes
      ensures Valid()
      ensures
        var t, l := old(lists)[a][0], old(lists)[a := old(lists)[a][1..]];
        var b := PlaceOf(newState, prid);
        t in old(states) && lists == l[b := l[b] + [t]] && states == old(states)[t := newState]
    {
      hide Right, Cpus, PlaceOf;
      ghost var l, s, h := lists, states, homes;
      TakeRight(lists, states, homes, a, 0);
      var t := PopFront(a);
      SetAndInsert(t, newState, prid);
      MoveCpus(l, s, h, t, lists, newState, PlaceOf(newState, prid), idles);
      assert homes == h[t := PlaceOf(newState, prid)];
    }

    /** `ensure`: makes the list for a state if it is one that is made on demand. */
    method Ensure(state: ThreadState, prid: nat)
      requires Valid() && prid < |idles|
      modifies this`lists
      ensures Valid() && PlaceOf(state, prid) in lists
      ensures lists == if PlaceOf(state, prid) in old(lists) then old(lists) else old(lists)[PlaceOf(state, prid) := []]
    {
      IdleRuns(lists, states, homes, prid, idles);
      SleepIn(lists, states, homes, idles);
      hide Right, Cpus;
      var a := PlaceOf(state, prid);
      if a !in lists {
        NewListCpus(lists, states, homes, a, idles);
        lists := lists[a := []];
      }
    }

    /**
     `block`, up to the call of the scheduler.  Idle threads do not block, and no thread makes
     itself an idle thread.
     */
    method Block(state: ThreadState, prid: nat)
      requires Valid() && prid < |idles| && !state.Idle?
      requires !state.Running? ==> Current(lists, prid) != idles[prid]
      modifies this`lists, this`states
      ensures Valid()
      ensures state.Running? ==> lists == old(lists) && states == old(states)
      ensures !state.Running? ==>
        PlaceOf(state, prid) in lists && states == old(states)[Current(old(lists), prid) := state]
      ensures forall a :: a in lists ==> ListAt(lists, a) == ListAt(old(lists), a)
    {
      hide Right, Cpus, Current, PlaceOf;
      if state.Running? {
        return;
      }
      ghost var l := lists;
      Ensure(state, prid);
      assert Current(lists, prid) == Current(l, prid) by {
        IdleRuns(l, old(states), homes, prid, idles);
        SameCurrent(l, lists, prid);
      }
      BlockCpus(lists, states, homes, prid, state, idles);
      var t := Current(lists, prid);
      states := states[t := state];
    }

    /** The loop of `time_handler`: wakes the sleepers whose time has come, and no others. */
    method WakeSleepers(nsec: nat)
      requires Valid()
      modifies this`lists, this`states, this`homes
      ensures Valid()
      ensures
        var w := ListAt(old(lists), SleepList);
        && var ready := ListAt(old(lists), ReadyList) + Expired(w, old(states), nsec);
        lists == old(lists)[SleepList := Asleep(w, old(states), nsec)][ReadyList := ready]
        && states == MovedStates(old(states), Elems(Expired(w, old(states), nsec)), Ready)
    {
      hide Right, Cpus, Asleep, Expired, MovedStates, Elems;
      SleepIn(lists, states, homes, idles);
      ghost var l, s := lists, states;
      var w := lists[SleepList];
      NobodyYet(l, s, w, nsec);
      var i := 0;
      while i < |w|
        invariant i <= |w| && Valid()
        invariant lists == WokenLists(l, s, w, i, nsec)
          && states == MovedStates(s, Elems(Expired(w[..i], s, nsec)), Ready)
      {
        var t := w[i];
        ghost var k := |Asleep(w[..i], s, nsec)|;
        Sleeper(lists, states, homes, l, s, w, i, nsec);
        NextSleeper(l, s, w, i, nsec);
        if nsec >= states[t].nsec {
          MoveTo(t, Ready, 0, k);
        }
        i := i + 1;
      }
      assert w[..i] == w;
      AllLooked(l, s, w, nsec);
    }

    /** The time since the last switch, on a clock of 64 bits. */
    function Elapsed(last: nat, now: nat): (d: nat)
      ensures last < 0x1_0000_0000_0000_0000 && now < 0x1_0000_0000_0000_0000 ==>
        d < 0x1_0000_0000_0000_0000 && (last + d) % 0x1_0000_0000_0000_0000 == now
    {
      if now >= last then now - last else if now + 0x1_0000_0000_0000_0000 >= last
        then now + 0x1_0000_0000_0000_0000 - last else 0
    }

    /**
     `time_handler`: processor 0 wakes the sleepers; each processor switches when its time slice is
     over.  `l` and `s` are the lists and states in between.
     */
    method TimeHandler(prid: nat, last: nat, now: nat, slice: nat)
      returns (out: bool, newLast: nat, ghost l: Lists, ghost s: States)
      requires Valid() && prid < |idles|
      modifies this`lists, this`states, this`homes, this`runTime
      ensures Valid()
      ensures prid != 0 ==> l == old(lists) && s == old(states)
      ensures prid == 0 ==>
        var w := ListAt(old(lists), SleepList);
        && l == old(lists)
             [SleepList := Asleep(w, old(states), now)]
             [ReadyList := ListAt(old(lists), ReadyList) + Expired(w, old(states), now)]
        && s == MovedStates(old(states), Elems(Expired(w, old(states), now)), Ready)
      ensures if Elapsed(last, now) > slice then newLast == now
        && Scheduled(l, s, lists, states, prid, out, alive, idles)
              else newLast == last && !out && lists == l && states == s
      ensures out ==> Relieved(l, s, lists, states, prid, idles) && TakenOver(l, lists, states, prid, alive, idles)
      ensures runTime == if out then Charged(old(runTime), Current(l, prid), last, now) else old(runTime)
    {
      hide Right, Cpus, Asleep, Expired, MovedStates, Elems, PurgedStates, SwitchedLists, Scheduled, Relieved,
        TakenOver;
      if prid == 0 {
        WakeSleepers(now);
      }
      l, s := lists, states;
      out, newLast := false, last;
      if Elapsed(last, now) > slice {
        out := Schedule(prid, last, now);
        newLast := now;
      }
    }

    /** The loop of `int_handler`: whoever waits for the running thread is made ready. */
    method WakeWaiting(prid: nat)
      requires Valid() && prid < |idles|
      modifies this`lists, this`states, this`homes
      ensures Valid()
      ensures
        var a := Keyed(Waiting(Current(old(lists), prid)));
        if a !in old(lists) then lists == old(lists) && states == old(states)
        else
          var w := old(lists)[a];
          && ReadyList in old(lists) && lists == MovedLists(old(lists), a, ReadyList, |w|)
          && states == MovedStates(old(states), Elems(w[..|w|]), Ready)
    {
      hide Right, Cpus, MovedStates, Elems;
      var a := Keyed(Waiting(Current(lists, prid)));
      SleepIn(lists, states, homes, idles);
      if a !in lists {
        return;
      }
      ghost var l0, s0 := lists, states;
      var w := lists[a];
      NoneMoved(l0, s0, a, ReadyList, Ready);
      var i := 0;
      while i < |w|
        invariant i <= |w| && Valid() && a in lists && ReadyList in lists
        invariant lists == MovedLists(l0, a, ReadyList, i) && states == MovedStates(s0, Elems(w[..i]), Ready)
      {
        MoveOne(l0, s0, a, ReadyList, i, Ready);
        InItsList(lists, states, homes, a, 0);
        assert Without(lists[a], 0) == lists[a][1..];
        MovedIn(s0, Elems(w[..i]), Ready, w[i]);
        MoveTo(w[i], Ready, prid, 0);
        i := i + 1;
      }
    }

    /**
     `int_handler`: the threads that wait for the running one are made ready, and the processor
     switches.  `l` and `s` are the lists and states in between.
     */
    method IntHandler(prid: nat, last: nat, now: nat) returns (out: bool, ghost l: Lists, ghost s: States)
      requires Valid() && prid < |idles|
      modifies this`lists, this`states, this`homes, this`runTime
      ensures Valid()
      ensures
        var a := Keyed(Waiting(Current(old(lists), prid)));
        if a !in old(lists) then l == old(lists) && s == old(states)
        else
          var w := old(lists)[a];
          && ReadyList in old(lists) && l == MovedLists(old(lists), a, ReadyList, |w|)
            && s == MovedStates(old(states), Elems(w[..|w|]), Ready)
      ensures Scheduled(l, s, lists, states, prid, out, alive, idles)
      ensures out ==> Relieved(l, s, lists, states, prid, idles) && TakenOver(l, lists, states, prid, alive, idles)
      ensures runTime == if out then Charged(old(runTime), Current(l, prid), last, now) else old(runTime)
    {
      hide Right, Cpus, MovedStates, Elems, MovedLists, Scheduled, Relieved, TakenOver;
      WakeWaiting(prid);
      l, s := lists, states;
      out := Schedule(prid, last, now);
    }
  }

  lemma InItsList(l: Lists, s: States, h: Homes, a: Place, i: nat)
    requires Right(l, s, h) && a in l && i < |l[a]| && Shared(a)
    ensures l[a][i] in s && forall p :: PlaceOf(s[l[a][i]], p) == a
  {
    assert h[l[a][i]] == a;
    assert Fits(a, s[l[a][i]]);
  }

  lemma MovedIn(s: States, d: set<nat>, state: ThreadState, t: nat)
    ensures t in MovedStates(s, d, state) <==> t in s
  {
  }

  /** Every thread is in one list, at one place in it; and off the processors that is the list of its state. */
  lemma EveryThreadOnce(l: Lists, s: States, h: Homes, t: nat)
    requires Right(l, s, h) && h.Keys == s.Keys && t in s
    ensures exists a, i :: a in l && 0 <= i < |l[a]| && l[a][i] == t && Fits(a, s[t])
    ensures forall a, b, i, j ::
      a in l && b in l && 0 <= i < |l[a]| && 0 <= j < |l[b]| && l[a][i] == t && l[b][j] == t ==> a == b && i == j
  {
    var a := h[t];
    assert t in l[a];
    var i :| 0 <= i < |l[a]| && l[a][i] == t;
    assert a in l && Fits(a, s[t]);
  }

  /** The sleepers that are woken are just those whose time has come. */
  lemma {:induction false} WokenExactly(w: seq<nat>, s: States, nsec: nat, t: nat)
    ensures t in Expired(w, s, nsec) <==> t in w && Over(s, t, nsec)
    ensures t in Asleep(w, s, nsec) <==> t in w && !Over(s, t, nsec)
  {
    if w != [] {
      WokenExactly(w[..|w| - 1], s, nsec, t);
      assert w == w[..|w| - 1] + [w[|w| - 1]];
    }
  }

  /** The lists when the first `i` sleepers have been looked at. */
  function WokenLists(l: Lists, s: States, w: seq<nat>, i: nat, nsec: nat): Lists
    requires i <= |w|
  {
    l[SleepList := Asleep(w[..i], s, nsec) + w[i..]][ReadyList := ListAt(l, ReadyList) + Expired(w[..i], s, nsec)]
  }

  lemma NobodyYet(l: Lists, s: States, w: seq<nat>, nsec: nat)
    requires SleepList in l && ReadyList in l && w == l[SleepList]
    ensures WokenLists(l, s, w, 0, nsec) == l && MovedStates(s, Elems(Expired(w[..0], s, nsec)), Ready) == s
  {
    assert w[..0] == [] && Asleep(w[..0], s, nsec) + w[0..] == w
      && l[ReadyList] + Expired(w[..0], s, nsec) == l[ReadyList];
  }

  lemma AllLooked(l: Lists, s: States, w: seq<nat>, nsec: nat)
    ensures WokenLists(l, s, w, |w|, nsec) ==
      l[SleepList := Asleep(w, s, nsec)][ReadyList := ListAt(l, ReadyList) + Expired(w, s, nsec)]
  {
    assert w[..|w|] == w && Asleep(w, s, nsec) + w[|w|..] == Asleep(w, s, nsec);
  }

  /** What the loop does with the next sleeper. */
  lemma NextSleeper(l: Lists, s: States, w: seq<nat>, i: nat, nsec: nat)
    requires i < |w| && w[i] in s && s[w[i]].Sleep?
    ensures
      var l1, t, k := WokenLists(l, s, w, i, nsec), w[i], |Asleep(w[..i], s, nsec)|;
      var over := nsec >= s[t].nsec;
      && k < |l1[SleepList]| && l1[SleepList][k] == t
      && (!over ==> WokenLists(l, s, w, i + 1, nsec) == l1 && Expired(w[..i + 1], s, nsec) == Expired(w[..i], s, nsec))
      && (over ==>
           && WokenLists(l, s, w, i + 1, nsec) ==
                l1[SleepList := Without(l1[SleepList], k)][ReadyList := l1[ReadyList] + [t]]
           && MovedStates(s, Elems(Expired(w[..i + 1], s, nsec)), Ready) ==
                MovedStates(s, Elems(Expired(w[..i], s, nsec)), Ready)[t := Ready])
  {
    hide Asleep, Expired, MovedStates;
    OneMore(w, i, s, nsec);
    var z, e, t := Asleep(w[..i], s, nsec), Expired(w[..i], s, nsec), w[i];
    var l1 := WokenLists(l, s, w, i, nsec);
    assert l1[SleepList] == z + w[i..] && l1[ReadyList] == ListAt(l, ReadyList) + e;
    if nsec >= s[t].nsec {
      assert Without(z + w[i..], |z|) == z + w[i + 1..];
      assert ListAt(l, ReadyList) + (e + [t]) == (ListAt(l, ReadyList) + e) + [t];
      assert Elems(e + [t]) == Elems(e) + {t};
      OneMoved(s, Elems(e), t);
      TwoLists(l, z + w[i..], ListAt(l, ReadyList) + e, z + w[i + 1..], ListAt(l, ReadyList) + (e + [t]));
    } else {
      assert (z + [t]) + w[i + 1..] == z + w[i..];
    }
  }

  lemma TwoLists(l: Lists, x: seq<nat>, y: seq<nat>, x': seq<nat>, y': seq<nat>)
    ensures l[SleepList := x][ReadyList := y][SleepList := x'][ReadyList := y'] == l[SleepList := x'][ReadyList := y']
  {
  }

  lemma OneMoved(s: States, d: set<nat>, t: nat)
    requires t in s
    ensures MovedStates(s, d + {t}, Ready) == MovedStates(s, d, Ready)[t := Ready]
  {
  }

  lemma OneMore(w: seq<nat>, i: nat, s: States, nsec: nat)
    requires i < |w| && w[i] in s && s[w[i]].Sleep?
    ensures
      var z, e := Asleep(w[..i], s, nsec), Expired(w[..i], s, nsec);
      && Asleep(w[..i + 1], s, nsec) == (if nsec >= s[w[i]].nsec then z else z + [w[i]])
      && Expired(w[..i + 1], s, nsec) == (if nsec >= s[w[i]].nsec then e + [w[i]] else e)
  {
    assert w[..i + 1][..i] == w[..i];
    assert w[..i + 1][i] == w[i];
  }

  /** The next sleeper still sleeps: threads in the list of sleepers do, and it has not been woken. */
  lemma Sleeper(l1: Lists, s1: States, h: Homes, l: Lists, s: States, w: seq<nat>, i: nat, nsec: nat)
    requires Right(l1, s1, h) && i < |w| && l1 == WokenLists(l, s, w, i, nsec)
    requires s1 == MovedStates(s, Elems(Expired(w[..i], s, nsec)), Ready)
    ensures w[i] in s && w[i] in s1 && s[w[i]].Sleep? && s1[w[i]] == s[w[i]]
    ensures PlaceOf(s1[w[i]], 0) == SleepList
  {
    hide Asleep, Expired;
    var k := |Asleep(w[..i], s, nsec)|;
    assert l1[SleepList][k] == w[i];
    assert h[l1[SleepList][k]] == SleepList;
    assert Fits(SleepList, s1[w[i]]);
  }

  /** The sleepers whose time has not come, and those whose time has. */
  function Asleep(w: seq<nat>, s: States, nsec: nat): seq<nat> {
    if w == [] then [] else Asleep(w[..|w| - 1], s, nsec) + (if Over(s, w[|w| - 1], nsec) then [] else [w[|w| - 1]])
  }

  function Expired(w: seq<nat>, s: States, nsec: nat): seq<nat> {
    if w == [] then [] else Expired(w[..|w| - 1], s, nsec) + (if Over(s, w[|w| - 1], nsec) then [w[|w| - 1]] else [])
  }

  /** Whether a thread sleeps until a time that is not after `nsec`. */
  predicate Over(s: States, t: nat, nsec: nat) {
    t in s && s[t].Sleep? && nsec >= s[t].nsec
  }

  lemma SleepIn(l: Lists, s: States, h: Homes, idles: seq<nat>)
    requires Cpus(l, s, h, idles)
    ensures SleepList in l && ReadyList in l && DestroyList in l
  {
  }

  lemma SameCurrent(l: Lists, l': Lists, p: nat)
    requires OnCpu(p) in l && OnCpu(p) in l' && l'[OnCpu(p)] == l[OnCpu(p)]
    ensures Current(l', p) == Current(l, p)
  {
  }

  /** The first `n` threads of one list go to the end of another. */
  function MovedLists(l: Lists, a: Place, b: Place, n: nat): Lists
    requires a in l && b in l && n <= |l[a]|
  {
    l[a := l[a][n..]][b := l[b] + l[a][..n]]
  }

  function MovedStates(s: States, d: set<nat>, state: ThreadState): States {
    map t | t in s :: if t in d then state else s[t]
  }

  lemma NoneMoved(l: Lists, s: States, a: Place, b: Place, state: ThreadState)
    requires a in l && b in l
    ensures a != b ==> MovedLists(l, a, b, 0) == l
    ensures MovedStates(s, Elems(l[a][..0]), state) == s && l[a := Turned(l[a], 0)] == l
  {
    var w := l[a];
    if w != [] {
      ModUnique(0, |w|, 0, 0);
      assert w[0..] + w[..0] == w;
    }
    assert l[a][0..] == l[a] && l[b] + l[a][..0] == l[b] && l[a][..0] == [];
  }

  /** A list whose head has been moved to its end this many times. */
  function Turned(w: seq<nat>, n: nat): (r: seq<nat>)
    ensures |r| == |w|
  {
    if w == [] then [] else TurnedAt(w, n % |w|)
  }

  function TurnedAt(w: seq<nat>, k: nat): (r: seq<nat>)
    requires k <= |w|
    ensures |r| == |w|
  {
    w[k..] + w[..k]
  }

  lemma TurnOne(s: States, w: seq<nat>, n: nat, state: ThreadState)
    requires w != []
    ensures
      var t := Turned(w, n)[0];
      && Turned(w, n + 1) == Turned(w, n)[1..] + [t]
      && (t in s ==>
            MovedStates(s, Elems(w[..Min(n + 1, |w|)]), state) ==
              MovedStates(s, Elems(w[..Min(n, |w|)]), state)[t := state])
  {
    hide MovedStates, Elems;
    var k := TurnList(w, n);
    var t := w[k];
    if n < |w| {
      ModUnique(n, |w|, 0, n);
      assert w[..n + 1] == w[..n] + [t];
      OneMoreMoved(s, w[..n], t, state);
    } else {
      assert t in w[..|w|];
      OneMoreMoved(s, w[..|w|], t, state);
      SameElems(w[..|w|], t);
    }
  }

  lemma TurnList(w: seq<nat>, n: nat) returns (k: nat)
    requires w != []
    ensures k == n % |w| && k < |w| && Turned(w, n)[0] == w[k]
    ensures Turned(w, n + 1) == Turned(w, n)[1..] + [w[k]]
  {
    hide TurnedAt;
    k := n % |w|;
    ModNext(n, |w|);
    TurnAt(w, k);
  }

  lemma TurnAt(w: seq<nat>, k: nat)
    requires k < |w|
    ensures TurnedAt(w, k)[0] == w[k]
    ensures TurnedAt(w, k)[1..] + [w[k]] == TurnedAt(w, k + 1)
    ensures TurnedAt(w, |w|) == TurnedAt(w, 0)
  {
    assert TurnedAt(w, k)[1..] == w[k + 1..] + w[..k];
    assert w[..k + 1] == w[..k] + [w[k]];
  }

  lemma OneMoreMoved(s: States, w: seq<nat>, t: nat, state: ThreadState)
    ensures t in s ==> MovedStates(s, Elems(w + [t]), state) == MovedStates(s, Elems(w), state)[t := state]
  {
    assert Elems(w + [t]) == Elems(w) + {t};
  }

  lemma SameElems(w: seq<nat>, t: nat)
    requires t in w
    ensures Elems(w + [t]) == Elems(w)
  {
  }

  lemma MoveOne(l: Lists, s: States, a: Place, b: Place, n: nat, state: ThreadState)
    requires a in l && b in l && a != b && n <= |l[a]| && MovedLists(l, a, b, n)[a] != []
    ensures
      var l1, t := MovedLists(l, a, b, n), MovedLists(l, a, b, n)[a][0];
      && n < |l[a]| && l[a][n] == t
      && MovedLists(l, a, b, n + 1) == l1[a := l1[a][1..]][b := l1[b] + [t]]
      && (t in s ==> MovedStates(s, Elems(l[a][..n + 1]), state) == MovedStates(s, Elems(l[a][..n]), state)[t := state])
  {
    var w := l[a];
    assert w[n..][1..] == w[n + 1..] && w[..n + 1] == w[..n] + [w[n]];
    assert l[b] + w[..n + 1] == (l[b] + w[..n]) + [w[n]];
    assert Elems(w[..n + 1]) == Elems(w[..n]) + {w[n]};
  }

  /** The first index of a thread that is in a list. */
  function IndexOf(w: seq<nat>, t: nat): (k: nat)
    requires t in w
    ensures k < |w| && w[k] == t && t !in w[..k]
  {
    if w[0] == t then 0
    else
      assert w == [w[0]] + w[1..];
      1 + IndexOf(w[1..], t)
  }

  lemma FirstAt(l: Lists, s: States, h: Homes, a: Place, i: nat)
    requires Right(l, s, h) && a in l && i < |l[a]|
    ensures l[a][i] in l[a] && IndexOf(l[a], l[a][i]) == i
  {
    var k := IndexOf(l[a], l[a][i]);
    assert l[a][k] == l[a][i];
  }

  /** Lists that belong to no processor. */
  predicate Shared(a: Place) {
    !a.OnCpu? && !a.IdleList?
  }

  /** Moving a thread from one shared list to another concerns no processor. */
  lemma MoveCpus(l: Lists, s: States, h: Homes, t: nat, l': Lists, state: ThreadState, b: Place, idles: seq<nat>)
    requires Right(l, s, h) && Cpus(l, s, h, idles) && t in h && Shared(h[t]) && Shared(b)
    requires l'.Keys == l.Keys && forall a {:trigger l'[a]} :: a in l && !Shared(a) ==> l'[a] == l[a]
    ensures Cpus(l', s[t := state], h[t := b], idles)
  {
    forall q | 0 <= q < |idles| ensures CpuRight(l', s[t := state], h[t := b], q, idles[q]) {
      assert CpuRight(l, s, h, q, idles[q]);
      assert h[l[OnCpu(q)][0]] == OnCpu(q);
    }
  }

  /** A thread more in a shared list concerns no processor. */
  lemma NewCpus(l: Lists, s: States, h: Homes, t: nat, l': Lists, idles: seq<nat>)
    requires Right(l, s, h) && Cpus(l, s, h, idles) && t !in h
    requires l' == l[ReadyList := l[ReadyList] + [t]]
    ensures Cpus(l', s[t := Ready], h[t := ReadyList], idles)
  {
    forall q | 0 <= q < |idles| ensures CpuRight(l', s[t := Ready], h[t := ReadyList], q, idles[q]) {
      assert CpuRight(l, s, h, q, idles[q]);
      assert h[l[OnCpu(q)][0]] == OnCpu(q);
    }
  }

  lemma NewListCpus(l: Lists, s: States, h: Homes, a: Place, idles: seq<nat>)
    requires Right(l, s, h) && Cpus(l, s, h, idles) && a !in l && Shared(a)
    ensures Right(l[a := []], s, h) && Cpus(l[a := []], s, h, idles)
  {
    forall q | 0 <= q < |idles| ensures CpuRight(l[a := []], s, h, q, idles[q]) {
      assert CpuRight(l, s, h, q, idles[q]);
    }
  }

  /** A running thread that is not an idle one sets its state, which has a list. */
  lemma BlockCpus(l: Lists, s: States, h: Homes, p: nat, state: ThreadState, idles: seq<nat>)
    requires Right(l, s, h) && Cpus(l, s, h, idles) && p < |idles| && Current(l, p) != idles[p]
    requires !state.Idle? && PlaceOf(state, p) in l
    ensures Right(l, s[Current(l, p) := state], h) && Cpus(l, s[Current(l, p) := state], h, idles) && Current(l, p) in s
  {
    var t := Current(l, p);
    assert CpuRight(l, s, h, p, idles[p]);
    assert h[l[OnCpu(p)][0]] == OnCpu(p);
    forall q | 0 <= q < |idles| ensures CpuRight(l, s[t := state], h, q, idles[q]) {
      assert CpuRight(l, s, h, q, idles[q]);
      assert h[l[OnCpu(q)][0]] == OnCpu(q);
    }
  }

  /** The lists after the three moves of a switch. */
  lemma FinalLists(l: Lists, p: nat, next: nat, idle: bool, t: nat, back: Place)
    requires OnCpu(p) in l && l[OnCpu(p)] == [t] && back in l && back != OnCpu(p) && IdleList(p) in l && ReadyList in l
    requires !idle ==> l[ReadyList] != []
    ensures
      var l0 := if idle then l[IdleList(p) := []] else l[ReadyList := l[ReadyList][1..]];
      var l1 := l0[OnCpu(p) := l0[OnCpu(p)][..0]];
      var l2 := l1[back := l1[back] + [t]];
      OnCpu(p) in l2 && l2[OnCpu(p) := l2[OnCpu(p)] + [next]] == SwitchedLists(l, p, next, idle, t, back)
  {
    var l0 := if idle then l[IdleList(p) := []] else l[ReadyList := l[ReadyList][1..]];
    var l1 := l0[OnCpu(p) := l0[OnCpu(p)][..0]];
    var l2 := l1[back := l1[back] + [t]];
    assert l2[OnCpu(p)] + [next] == [next];
    assert l2[OnCpu(p) := [next]] == l0[back := l0[back] + [t]][OnCpu(p) := [next]];
  }

  lemma FinalHomes(h: Homes, next: nat, t: nat, back: Place, p: nat)
    ensures (h - {next} - {t})[t := back][next := OnCpu(p)] == h[t := back][next := OnCpu(p)]
  {
  }

  lemma CpuPlace(p: nat)
    ensures PlaceOf(Running, p) == OnCpu(p)
  {
  }

  /** The list of idle threads of a processor is empty exactly if its idle thread is running. */
  lemma IdleRuns(l: Lists, s: States, h: Homes, p: nat, idles: seq<nat>)
    requires Right(l, s, h) && Cpus(l, s, h, idles) && p < |idles|
    ensures OnCpu(p) in l && IdleList(p) in l && |l[OnCpu(p)]| == 1 && l[OnCpu(p)][0] in s && ReadyList in l
      && DestroyList in l
    ensures l[IdleList(p)] == [] <==> l[OnCpu(p)][0] == idles[p]
  {
    assert CpuRight(l, s, h, p, idles[p]);
    assert h[l[OnCpu(p)][0]] == OnCpu(p);
    if l[IdleList(p)] != [] {
      assert h[l[IdleList(p)][0]] == IdleList(p);
    }
  }

  /** Moving dead threads out of the ready list concerns no processor. */
  lemma PurgeCpus(l: Lists, s: States, h: Homes, k: nat, p: nat, idles: seq<nat>)
    requires Right(l, s, h) && Cpus(l, s, h, idles) && k <= |ListAt(l, ReadyList)| && p < |idles|
    ensures
      var d := Elems(l[ReadyList][..k]);
      var l', s', h' := PurgedLists(l, k), PurgedStates(s, d), PurgedHomes(h, d);
      && Cpus(l', s', h', idles) && h'.Keys == h.Keys && s'.Keys == s.Keys
      && l' == l[ReadyList := l[ReadyList][k..]][DestroyList := l[DestroyList] + l[ReadyList][..k]]
      && Current(l', p) == Current(l, p) && Current(l, p) in s && s'[Current(l, p)] == s[Current(l, p)]
  {
    var r := l[ReadyList];
    var d := Elems(r[..k]);
    forall t | t in d ensures t in h && h[t] == ReadyList {
      var i :| 0 <= i < k && r[i] == t;
      assert l[ReadyList][i] == t;
    }
    forall q | 0 <= q < |idles|
      ensures OnCpu(q) in l && |l[OnCpu(q)]| == 1 && l[OnCpu(q)][0] in s && l[OnCpu(q)][0] !in d && idles[q] !in d
    {
      assert CpuRight(l, s, h, q, idles[q]);
      assert h[l[OnCpu(q)][0]] == OnCpu(q);
    }
    var l', s', h' := PurgedLists(l, k), PurgedStates(s, d), PurgedHomes(h, d);
    forall q | 0 <= q < |idles| ensures CpuRight(l', s', h', q, idles[q]) {
      assert CpuRight(l, s, h, q, idles[q]);
    }
  }

  /** The next thread is the idle thread of the processor, or the first one that is ready. */
  predicate Chosen(l: Lists, p: nat, next: nat, idle: bool) {
    if idle then ListAt(l, IdleList(p)) == [next] else ListAt(l, ReadyList) != [] && ListAt(l, ReadyList)[0] == next
  }

  lemma AtCpu(l: Lists, s: States, h: Homes, p: nat, idles: seq<nat>)
    requires Right(l, s, h) && Cpus(l, s, h, idles) && p < |idles|
    ensures CpuRight(l, s, h, p, idles[p]) && OnCpu(p) in l && |l[OnCpu(p)]| == 1
    ensures l[OnCpu(p)][0] in h && h[l[OnCpu(p)][0]] == OnCpu(p)
  {
    assert CpuRight(l, s, h, p, idles[p]);
    assert h[l[OnCpu(p)][0]] == OnCpu(p);
  }

  /** The threads and the lists that take part in a switch. */
  lemma SwitchFacts(l: Lists, s: States, h: Homes, p: nat, next: nat, idle: bool, idles: seq<nat>)
    requires Right(l, s, h) && Cpus(l, s, h, idles) && p < |idles|
    requires Chosen(l, p, next, idle)
    ensures
      var t := Current(l, p);
      var off := OffState(s, t, idles);
      var back := PlaceOf(off, p);
      && t != next && back in l && back != OnCpu(p) && t in s && next in s && ListAt(l, OnCpu(p)) == [t]
      && t in h && h[t] == OnCpu(p) && next in h && h[next] == (if idle then IdleList(p) else ReadyList)
      && ReadyList in l && IdleList(p) in l && (back.IdleList? ==> t == idles[p] && l[IdleList(p)] == [])
        && !back.OnCpu?
  {
    assert CpuRight(l, s, h, p, idles[p]);
    var t := Current(l, p);
    assert h[l[OnCpu(p)][0]] == OnCpu(p);
    assert idle ==> h[l[IdleList(p)][0]] == IdleList(p);
    assert !idle ==> h[l[ReadyList][0]] == ReadyList;
    if t in idles {
      var q :| 0 <= q < |idles| && idles[q] == t;
      assert CpuRight(l, s, h, q, idles[q]);
    }
    if l[IdleList(p)] != [] {
      assert h[l[IdleList(p)][0]] == IdleList(p);
    }
  }

  /** A switch keeps every processor busy with one thread, and every idle thread at home. */
  lemma SwitchCpus(l: Lists, s: States, h: Homes, p: nat, next: nat, idle: bool, idles: seq<nat>)
    requires Right(l, s, h) && Cpus(l, s, h, idles) && p < |idles|
    requires Chosen(l, p, next, idle)
    ensures
      var t := Current(l, p);
      var off := OffState(s, t, idles);
      var back := PlaceOf(off, p);
      && t != next && back in l && back != OnCpu(p) && t in s && next in s && ListAt(l, OnCpu(p)) == [t]
      && Cpus(SwitchedLists(l, p, next, idle, t, back), s[t := off][next := Running], h[t := back][next := OnCpu(p)],
        idles)
  {
    hide Right, CpuRight, Current, OffState, PlaceOf, SwitchedLists;
    SwitchFacts(l, s, h, p, next, idle, idles);
    var t := Current(l, p);
    var off := OffState(s, t, idles);
    var back := PlaceOf(off, p);
    var l', s', h' := SwitchedLists(l, p, next, idle, t, back), s[t := off][next := Running],
      h[t := back][next := OnCpu(p)];
    SwitchKeys(l, p, next, idle, t, back);
    forall q | 0 <= q < |idles| ensures CpuRight(l', s', h', q, idles[q]) {
      if q == p {
        SwitchHere(l, s, h, p, next, idle, idles);
      } else {
        SwitchThere(l, s, h, p, next, idle, idles, q);
      }
    }
  }

  lemma SwitchKeys(l: Lists, p: nat, next: nat, idle: bool, t: nat, back: Place)
    requires OnCpu(p) in l && IdleList(p) in l && ReadyList in l && back in l
    ensures SwitchedLists(l, p, next, idle, t, back).Keys == l.Keys
  {
  }

  lemma SwitchThere(l: Lists, s: States, h: Homes, p: nat, next: nat, idle: bool, idles: seq<nat>, q: nat)
    requires Right(l, s, h) && Cpus(l, s, h, idles) && p < |idles| && q < |idles| && q != p
    requires Chosen(l, p, next, idle)
    ensures
      var t := Current(l, p);
      var off := OffState(s, t, idles);
      var back := PlaceOf(off, p);
      CpuRight(SwitchedLists(l, p, next, idle, t, back), s[t := off][next := Running], h[t := back][next := OnCpu(p)],
        q, idles[q])
  {
    hide OffState, Current, Right, Cpus;
    SwitchFacts(l, s, h, p, next, idle, idles);
    AtCpu(l, s, h, q, idles);
  }

  lemma SwitchHere(l: Lists, s: States, h: Homes, p: nat, next: nat, idle: bool, idles: seq<nat>)
    requires Right(l, s, h) && Cpus(l, s, h, idles) && p < |idles|
    requires Chosen(l, p, next, idle)
    ensures
      var t := Current(l, p);
      var off := OffState(s, t, idles);
      var back := PlaceOf(off, p);
      CpuRight(SwitchedLists(l, p, next, idle, t, back), s[t := off][next := Running], h[t := back][next := OnCpu(p)],
        p, idles[p])
  {
    hide Right, Cpus;
    SwitchFacts(l, s, h, p, next, idle, idles);
    AtCpu(l, s, h, p, idles);
  }

  /** The only thread in the list of idle threads of a processor. */
  lemma OnlyIdle(l: Lists, s: States, h: Homes, p: nat, idles: seq<nat>)
    requires Right(l, s, h) && Cpus(l, s, h, idles) && p < |idles|
    ensures OnCpu(p) in l && IdleList(p) in l && (l[IdleList(p)] == [] || l[IdleList(p)] == [idles[p]])
  {
    assert CpuRight(l, s, h, p, idles[p]);
  }
}
