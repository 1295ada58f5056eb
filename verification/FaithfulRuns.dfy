/**
 For which runs of actions the source frees the page tables that the model frees, although it
 goes by packed counts: kernel/src/mem/virt_alloc.rs.
 */
module FaithfulRuns {
  import opened PageTables
  import opened PageMapping
  import opened MappedLeaves

  function EventOf(a: Action): Event {
    match a
    case Map(f, paddr, flags) => SetFrame(PosOf(f), Pte(paddr, flags))
    case Unmap(f) => ClearFrame(PosOf(f))
  }

  ghost function Events(acts: seq<Action>): (es: seq<Event>)
    ensures |es| == |acts|
    ensures forall i :: 0 <= i < |acts| ==> es[i] == EventOf(acts[i])
  {
    seq(|acts|, i requires 0 <= i < |acts| => EventOf(acts[i]))
  }

  lemma EventsAppend(a: seq<Action>, b: seq<Action>)
    ensures Events(a + b) == Events(a) + Events(b)
  {
  }

  lemma EventsFirst(acts: seq<Action>)
    requires acts != []
    ensures Events(acts) == [EventOf(acts[0])] + Events(acts[1..])
  {
  }

  lemma {:induction false} LeavesAfter(events: seq<Event>, acts: seq<Action>)
    ensures After(events + Events(acts)).leaves == Apply(After(events).leaves, acts)
    decreases |acts|
  {
    hide After, FirstFreeSlot, Ahead;
    if acts == [] {
      assert events + Events(acts) == events;
    } else {
      var e := EventOf(acts[0]);
      EventsFirst(acts);
      AfterOne(events, e);
      LeavesAfter(events + [e], acts[1..]);
      assert (events + [e]) + Events(acts[1..]) == events + Events(acts);
    }
  }

  /** How an operation that first unmaps and then maps has gone, by the packed counts from before. */
  ghost predicate GoesWell(r: Outcome, unmaps: seq<Action>) {
    r.faithful && Ahead(r.lags, Apply(r.leaves, unmaps))
  }

  /**
   The source frees the tables that the model frees exactly if it has done so before, and once the
   pages to be unmapped are gone every table keeps more entries than its packed count is behind.
   */
  lemma UnmapsThenMaps(events: seq<Event>, unmaps: seq<Action>, maps: seq<Action>)
    requires After(events).faithful ==> Ahead(After(events).lags, After(events).leaves)
    requires AllUnmap(unmaps) && AllMap(maps)
    ensures After(events + Events(unmaps + maps)).faithful <==> GoesWell(After(events), unmaps)
    ensures maps == [] ==> After(events + Events(unmaps + maps)).lags == After(events).lags
  {
    hide After, Ahead, Apply;
    var clears, sets := Events(unmaps), Events(maps);
    forall e | e in clears ensures e.ClearFrame? {
      var i :| 0 <= i < |clears| && clears[i] == e;
      assert unmaps[i] in unmaps;
    }
    forall e | e in sets ensures e.SetFrame? {
      var i :| 0 <= i < |sets| && sets[i] == e;
      assert maps[i] in maps;
    }
    EventsAppend(unmaps, maps);
    assert events + (clears + sets) == (events + clears) + sets;
    AfterClears(events, clears);
    AfterSets(events + clears, sets);
    LeavesAfter(events, unmaps);
    if unmaps == [] {
      assert Apply(After(events).leaves, unmaps) == After(events).leaves by {
        assert events + Events(unmaps) == events;
      }
    }
    if maps == [] {
      assert events + Events(unmaps + maps) == events + clears;
    }
  }

  /** As long as the source has freed the same tables, none looks empty. */
  lemma HistorySays(space: AddressSpace)
    requires space.Valid()
    ensures space.leaves == After(space.history).leaves && space.faithful == After(space.history).faithful
    ensures space.faithful ==> Ahead(space.Lags(), space.leaves)
  {
    hide Inv, NoneEarly, LagsRight, RootMarked, After, Ahead;
    if space.faithful {
      AheadIs(space.tables, space.root, space.at, space.leaves, space.Lags());
    }
  }
}
