/**
 The four-level page tables of kernel/src/mem/virt_alloc.rs.

 Tables live in an arena that maps a frame to its 512 entries.  The number of entries in
 use is a field of its own here.  The source packs it into spare bits of entry 0, where
 storing entry 0 overwrites it (see module `PackedCount`).  What that packed count would be is
 kept beside the true one, to say exactly when the two agree and in which runs the source
 frees the same tables.

 Positions.  The slot that translates address `a` at level `k` (1 for a page table, 4 for
 the PML4) has the position `Pos(k, a / Span(k))`.  A table has the position of the slot
 that links to it, so the slot at `p` lies in the table at `Parent(p)`; the root lies at
 `ROOT_POS`, above all slots.
 */
module PageTables {
  import opened Wrappers
  import opened Arith
  import PackedCount

  type FrameId = nat

  datatype PageFlags = PageFlags(writable: bool, user: bool, noExec: bool)

  /** What a present leaf entry says: where the page is and what may be done with it. */
  datatype Pte = Pte(paddr: nat, flags: PageFlags)

  /** An entry of a table; `KernelZone` is the shared link to the kernel's half of memory. */
  datatype Entry = Absent | Leaf(pte: Pte) | Table(frame: FrameId) | KernelZone

  /** `count` is the number of entries in use, and one more for the root; `packed` is what the source has for it. */
  datatype PageTable = PageTable(entries: seq<Entry>, count: int, packed: PackedCount.Bits11)

  datatype Pos = Pos(level: nat, index: nat)

  const ROOT_POS: Pos := Pos(5, 0)
  const KERNEL_INDEX: nat := 511

  /** How many bytes one entry of a table at this level translates. */
  function Span(level: nat): (n: nat)
    requires 1 <= level <= 5
    ensures n > 0
  {
    match level
    case 1 => 0x1000
    case 2 => 0x20_0000
    case 3 => 0x4000_0000
    case 4 => 0x80_0000_0000
    case _ => 0x1_0000_0000_0000
  }

  function Start(p: Pos): nat
    requires 1 <= p.level <= 5
  {
    p.index * Span(p.level)
  }

  function End(p: Pos): nat
    requires 1 <= p.level <= 5
  {
    (p.index + 1) * Span(p.level)
  }

  /** The position, at a level, of the slot that translates an address. */
  function At(level: nat, addr: nat): (p: Pos)
    requires 1 <= level <= 5
    ensures p.level == level
  {
    if level == 1 then Pos(1, addr / 0x1000) else Parent(At(level - 1, addr))
  }

  function Parent(p: Pos): Pos {
    Pos(p.level + 1, p.index / 512)
  }

  /** `get_bits(addr, ..)`: the nine address bits that index the table at this level. */
  function Index(level: nat, addr: nat): (i: nat)
    requires 1 <= level <= 4
    ensures i < 512
  {
    (addr / Span(level)) % 512
  }

  function CountPresent(es: seq<Entry>): (n: nat)
    ensures n <= |es|
  {
    if es == [] then 0
    else (if es[0] == Absent then 0 else 1) + CountPresent(es[1..])
  }

  lemma {:induction false} CountUpdate(es: seq<Entry>, i: nat, e: Entry)
    requires i < |es|
    ensures CountPresent(es[i := e]) ==
      CountPresent(es) - (if es[i] == Absent then 0 else 1) + (if e == Absent then 0 else 1)
  {
    if i == 0 {
      assert es[i := e][1..] == es[1..];
    } else {
      CountUpdate(es[1..], i - 1, e);
      assert es[i := e][1..] == es[1..][i - 1 := e];
    }
  }

  lemma {:induction false} CountZero(es: seq<Entry>)
    ensures CountPresent(es) == 0 <==> forall i :: 0 <= i < |es| ==> es[i] == Absent
  {
    if es != [] {
      CountZero(es[1..]);
      assert forall i :: 1 <= i < |es| ==> es[i] == es[1..][i - 1];
      assert forall i :: 0 <= i < |es[1..]| ==> es[1..][i] == es[i + 1];
    }
  }

  // ---------------------------------------------------------------------------------------
  // The shape of the tree

  type Arena = map<FrameId, PageTable>

  /** The entry in the slot at a position; a slot of a table that does not exist is absent. */
  ghost function EntryAt(tables: Arena, at: map<Pos, FrameId>, p: Pos): Entry {
    var t := Parent(p);
    if t in at && at[t] in tables && |tables[at[t]].entries| == 512
    then tables[at[t]].entries[p.index % 512] else Absent
  }

  /** Positions and frames name each other, and the root is where it should be. */
  ghost predicate Named(tables: Arena, root: FrameId, at: map<Pos, FrameId>) {
    && ROOT_POS in at && at[ROOT_POS] == root
    && (forall t :: t in at ==> at[t] in tables && 2 <= t.level <= 5 && (t.level == 5 ==> t == ROOT_POS))
    && (forall t, u :: t in at && u in at && at[t] == at[u] ==> t == u)
    && (forall f :: f in tables ==> f in at.Values)
  }

  /** Every table counts its entries in use; the root counts one more, so it is never dropped. */
  ghost predicate Counted(tables: Arena, root: FrameId) {
    forall f :: f in tables ==>
      && |tables[f].entries| == 512
      && tables[f].count == CountPresent(tables[f].entries) + (if f == root then 1 else 0)
  }

  /** Links lead to the table of their own position, and every table is linked from its slot. */
  ghost predicate Linked(tables: Arena, at: map<Pos, FrameId>, dangling: Option<Pos>) {
    && (forall p {:trigger EntryAt(tables, at, p)} :: EntryAt(tables, at, p).Table? && Some(p) != dangling ==>
          p in at && at[p] == EntryAt(tables, at, p).frame)
    && (forall t {:trigger EntryAt(tables, at, t)} :: t in at && t.level <= 4 ==>
          EntryAt(tables, at, t) == Table(at[t]))
  }

  /** The leaf entries are exactly the given leaves. */
  ghost predicate HasLeaves(tables: Arena, at: map<Pos, FrameId>, leaves: map<Pos, Pte>) {
    && (forall p :: p in leaves ==> 1 <= p.level <= 3)
    && (forall p {:trigger EntryAt(tables, at, p)} :: EntryAt(tables, at, p).Leaf? <==> p in leaves)
    && (forall p {:trigger EntryAt(tables, at, p)} :: p in leaves ==> EntryAt(tables, at, p) == Leaf(leaves[p]))
  }

  ghost predicate KernelMapped(tables: Arena, at: map<Pos, FrameId>) {
    forall p :: EntryAt(tables, at, p) == KernelZone <==> p == Pos(4, KERNEL_INDEX)
  }

  /** No table but the root and the one under construction is empty. */
  ghost predicate NoneEmpty(tables: Arena, at: map<Pos, FrameId>, hot: Option<Pos>) {
    forall t :: t in at && t.level <= 4 && Some(t) != hot && at[t] in tables ==>
      CountPresent(tables[at[t]].entries) > 0
  }

  /**
   The invariant of the tree.  While a walk is under way, `hot` may be empty and the link at
   `dangling` may lead to a table that has just been freed.
   */
  ghost predicate Inv(tables: Arena, root: FrameId, at: map<Pos, FrameId>, leaves: map<Pos, Pte>,
                      hot: Option<Pos>, dangling: Option<Pos>)
  {
    && Named(tables, root, at)
    && Counted(tables, root)
    && Linked(tables, at, dangling)
    && HasLeaves(tables, at, leaves)
    && KernelMapped(tables, at)
    && NoneEmpty(tables, at, hot)
  }

  // ---------------------------------------------------------------------------------------
  // One entry changes

  /** What `set` and `remove` do to a table: one entry and the counts. */
  function WithEntry(t: PageTable, i: nat, e: Entry): PageTable
    requires i < |t.entries|
  {
    PageTable(t.entries[i := e],
              t.count + (if e == Absent then 0 else 1) - (if t.entries[i] == Absent then 0 else 1),
              if e == Absent then PackedCount.CountAfterRemove(t.packed) else PackedCount.CountAfterSet(t.packed, i))
  }

  lemma WithEntryCounted(tables: Arena, root: FrameId, f: FrameId, i: nat, e: Entry)
    requires Counted(tables, root) && f in tables && i < 512
    ensures Counted(tables[f := WithEntry(tables[f], i, e)], root)
  {
    CountUpdate(tables[f].entries, i, e);
  }

  /** Changing a slot's entry in its table changes the entry at that position only. */
  lemma WithEntryAt(tables: Arena, root: FrameId, at: map<Pos, FrameId>, p: Pos, e: Entry, q: Pos)
    requires Named(tables, root, at) && Counted(tables, root) && Parent(p) in at
    ensures var f := at[Parent(p)];
      EntryAt(tables[f := WithEntry(tables[f], p.index % 512, e)], at, q)
        == if q == p then e else EntryAt(tables, at, q)
  {
    if Parent(q) == Parent(p) && q.index % 512 == p.index % 512 {
      assert q.index == 512 * (q.index / 512) + q.index % 512;
      assert p.index == 512 * (p.index / 512) + p.index % 512;
      assert q == p;
    }
  }

  /** Two arenas agree on the entries at all positions but one. */
  ghost predicate EntriesBut(tables: Arena, at: map<Pos, FrameId>, tables': Arena, at': map<Pos, FrameId>,
                             p: Pos, e: Entry)
  {
    forall q :: EntryAt(tables', at', q) == if q == p then e else EntryAt(tables, at, q)
  }

  lemma WithEntryBut(tables: Arena, root: FrameId, at: map<Pos, FrameId>, p: Pos, e: Entry)
    requires Named(tables, root, at) && Counted(tables, root) && Parent(p) in at
    ensures var f := at[Parent(p)];
      EntriesBut(tables, at, tables[f := WithEntry(tables[f], p.index % 512, e)], at, p, e)
  {
    forall q {
      WithEntryAt(tables, root, at, p, e, q);
    }
  }

  lemma NoneEmptyKept(tables: Arena, root: FrameId, at: map<Pos, FrameId>, hot: Option<Pos>, p: Pos, e: Entry)
    requires Named(tables, root, at) && Counted(tables, root) && NoneEmpty(tables, at, hot)
    requires Parent(p) in at && (hot == None || hot == Some(Parent(p)))
    ensures var f := at[Parent(p)];
      var tables' := tables[f := WithEntry(tables[f], p.index % 512, e)];
      NoneEmpty(tables', at, if e == Absent then Some(Parent(p)) else None)
  {
    var f := at[Parent(p)];
    var es := tables[f].entries[p.index % 512 := e];
    CountZero(es);
    assert es[p.index % 512] == e;
  }

  /** Neither leaves nor kernel links change when the entry at `p` is neither before nor after. */
  lemma LeavesKept(tables: Arena, at: map<Pos, FrameId>, tables': Arena, at': map<Pos, FrameId>,
                   leaves: map<Pos, Pte>, p: Pos, e: Entry)
    requires HasLeaves(tables, at, leaves) && KernelMapped(tables, at)
    requires EntriesBut(tables, at, tables', at', p, e)
    requires !e.Leaf? && e != KernelZone && !EntryAt(tables, at, p).Leaf? && p != Pos(4, KERNEL_INDEX)
    ensures HasLeaves(tables', at', leaves) && KernelMapped(tables', at')
  {
  }

  /** A walk finds no table at `p` and links a new, empty one. */
  lemma LinkNewTable(tables: Arena, root: FrameId, at: map<Pos, FrameId>, leaves: map<Pos, Pte>,
                     hot: Option<Pos>, p: Pos, f: FrameId)
    requires Inv(tables, root, at, leaves, hot, None)
    requires 2 <= p.level <= 4 && p != Pos(4, KERNEL_INDEX) && Parent(p) in at
    requires hot == None || hot == Some(Parent(p))
    requires EntryAt(tables, at, p) == Absent && f !in tables
    ensures
      var g := at[Parent(p)];
      var tables' := tables[g := WithEntry(tables[g], p.index % 512, Table(f))][f := EmptyTable()];
      && Inv(tables', root, at[p := f], leaves, Some(p), None)
      && EntriesBut(tables, at, tables', at[p := f], p, Table(f))
  {
    var g := at[Parent(p)];
    var tables1 := tables[g := WithEntry(tables[g], p.index % 512, Table(f))];
    var tables2 := tables1[f := EmptyTable()];
    WithEntryCounted(tables, root, g, p.index % 512, Table(f));
    WithEntryBut(tables, root, at, p, Table(f));
    NoneEmptyKept(tables, root, at, hot, p, Table(f));
    assert p !in at;
    NewTable(tables, root, at, leaves, tables1, p, f);
  }

  lemma NewTable(tables: Arena, root: FrameId, at: map<Pos, FrameId>, leaves: map<Pos, Pte>,
                 tables1: Arena, p: Pos, f: FrameId)
    requires Named(tables1, root, at) && Counted(tables1, root) && NoneEmpty(tables1, at, None)
    requires Linked(tables, at, None) && HasLeaves(tables, at, leaves) && KernelMapped(tables, at)
    requires EntriesBut(tables, at, tables1, at, p, Table(f)) && EntryAt(tables, at, p) == Absent
    requires 2 <= p.level <= 4 && p != Pos(4, KERNEL_INDEX) && p !in at && f !in tables1
    ensures
      var tables2, at2 := tables1[f := EmptyTable()], at[p := f];
      Inv(tables2, root, at2, leaves, Some(p), None) && EntriesBut(tables, at, tables2, at2, p, Table(f))
  {
    var tables2, at2 := tables1[f := EmptyTable()], at[p := f];
    assert Named(tables2, root, at2) by { NewTableNamed(tables1, root, at, p, f); }
    assert Counted(tables2, root) && NoneEmpty(tables2, at2, Some(p)) by {
      NewTableCounted(tables1, root, at, p, f);
    }
    assert EntriesBut(tables, at, tables2, at2, p, Table(f)) by {
      NewTableEntries(tables, tables1, at, p, f);
    }
    assert HasLeaves(tables2, at2, leaves) && KernelMapped(tables2, at2) by {
      LeavesKept(tables, at, tables2, at2, leaves, p, Table(f));
    }
    NewTableLinked(tables, at, tables2, p, f);
  }

  lemma NewTableCounted(tables: Arena, root: FrameId, at: map<Pos, FrameId>, p: Pos, f: FrameId)
    requires Named(tables, root, at) && Counted(tables, root) && NoneEmpty(tables, at, None) && f !in tables
    ensures var tables2 := tables[f := EmptyTable()];
      Counted(tables2, root) && NoneEmpty(tables2, at[p := f], Some(p))
  {
    CountZero(EmptyTable().entries);
  }

  lemma NewTableLinked(tables: Arena, at: map<Pos, FrameId>, tables2: Arena, p: Pos, f: FrameId)
    requires Linked(tables, at, None) && EntriesBut(tables, at, tables2, at[p := f], p, Table(f)) && p !in at
    ensures Linked(tables2, at[p := f], None)
  {
  }

  function EmptyTable(): PageTable {
    PageTable(seq(512, _ => Absent), 0, 0)
  }

  lemma NewTableNamed(tables: Arena, root: FrameId, at: map<Pos, FrameId>, p: Pos, f: FrameId)
    requires Named(tables, root, at) && f !in tables && p !in at && 2 <= p.level <= 4
    ensures Named(tables[f := EmptyTable()], root, at[p := f])
  {
    var at2 := at[p := f];
    forall g | g in tables[f := EmptyTable()] ensures g in at2.Values {
      if g == f {
        assert at2[p] == f;
      } else {
        assert g in at.Values;
        var t :| t in at && at[t] == g;
        assert at2[t] == g;
      }
    }
  }

  lemma NewTableEntries(tables: Arena, tables1: Arena, at: map<Pos, FrameId>, p: Pos, f: FrameId)
    requires f !in tables1 && p !in at && (forall t :: t in at ==> at[t] in tables1)
    requires EntriesBut(tables, at, tables1, at, p, Table(f))
    ensures EntriesBut(tables, at, tables1[f := EmptyTable()], at[p := f], p, Table(f))
  {
    var tables2, at2 := tables1[f := EmptyTable()], at[p := f];
    forall q ensures EntryAt(tables2, at2, q) == EntryAt(tables1, at, q) {
    }
  }

  /** The end of a walk writes a leaf. */
  lemma SetLeaf(tables: Arena, root: FrameId, at: map<Pos, FrameId>, leaves: map<Pos, Pte>,
                hot: Option<Pos>, p: Pos, pte: Pte)
    requires Inv(tables, root, at, leaves, hot, None)
    requires 1 <= p.level <= 3 && Parent(p) in at && EntryAt(tables, at, p) == Absent
    requires hot == None || hot == Some(Parent(p))
    ensures
      var g := at[Parent(p)];
      Inv(tables[g := WithEntry(tables[g], p.index % 512, Leaf(pte))], root, at, leaves[p := pte], None, None)
  {
    var g := at[Parent(p)];
    var tables' := tables[g := WithEntry(tables[g], p.index % 512, Leaf(pte))];
    WithEntryCounted(tables, root, g, p.index % 512, Leaf(pte));
    WithEntryNamed(tables, root, at, g, p.index % 512, Leaf(pte));
    WithEntryBut(tables, root, at, p, Leaf(pte));
    NoneEmptyKept(tables, root, at, hot, p, Leaf(pte));
    assert Linked(tables', at, None);
    assert HasLeaves(tables', at, leaves[p := pte]) by { LeafSet(tables, at, tables', leaves, p, pte); }
  }

  lemma LeafSet(tables: Arena, at: map<Pos, FrameId>, tables': Arena, leaves: map<Pos, Pte>, p: Pos, pte: Pte)
    requires HasLeaves(tables, at, leaves) && EntriesBut(tables, at, tables', at, p, Leaf(pte)) && 1 <= p.level <= 3
    ensures HasLeaves(tables', at, leaves[p := pte])
  {
  }

  lemma WithEntryNamed(tables: Arena, root: FrameId, at: map<Pos, FrameId>, g: FrameId, i: nat, e: Entry)
    requires Named(tables, root, at) && g in tables && i < |tables[g].entries|
    ensures Named(tables[g := WithEntry(tables[g], i, e)], root, at)
  {
  }

  /** `remove` clears a leaf, or the link to a table that has just been freed. */
  lemma ClearEntry(tables: Arena, root: FrameId, at: map<Pos, FrameId>, leaves: map<Pos, Pte>,
                   p: Pos, dangling: Option<Pos>)
    requires Inv(tables, root, at, leaves, None, dangling)
    requires Parent(p) in at && p != Pos(4, KERNEL_INDEX) && p !in at
    requires if p in leaves then dangling == None else dangling == Some(p) && EntryAt(tables, at, p).Table?
    ensures
      var g := at[Parent(p)];
      Inv(tables[g := WithEntry(tables[g], p.index % 512, Absent)], root, at, leaves - {p}, Some(Parent(p)), None)
  {
    var g := at[Parent(p)];
    var tables' := tables[g := WithEntry(tables[g], p.index % 512, Absent)];
    WithEntryCounted(tables, root, g, p.index % 512, Absent);
    WithEntryNamed(tables, root, at, g, p.index % 512, Absent);
    WithEntryBut(tables, root, at, p, Absent);
    NoneEmptyKept(tables, root, at, None, p, Absent);
    assert Linked(tables', at, None);
    assert HasLeaves(tables', at, leaves - {p}) by { LeafCleared(tables, at, tables', leaves, p); }
  }

  lemma LeafCleared(tables: Arena, at: map<Pos, FrameId>, tables': Arena, leaves: map<Pos, Pte>, p: Pos)
    requires HasLeaves(tables, at, leaves) && EntriesBut(tables, at, tables', at, p, Absent)
    ensures HasLeaves(tables', at, leaves - {p})
  {
  }

  /** `free_if_empty` frees the table at `t`; its link dangles until `remove` clears it too. */
  lemma FreeTable(tables: Arena, root: FrameId, at: map<Pos, FrameId>, leaves: map<Pos, Pte>, t: Pos)
    requires Inv(tables, root, at, leaves, Some(t), None)
    requires t in at && tables[at[t]].count == 0
    ensures Parent(t) in at - {t} && t.level <= 4
    ensures EntryAt(tables - {at[t]}, at - {t}, t).Table?
    ensures Inv(tables - {at[t]}, root, at - {t}, leaves, None, Some(t))
  {
    var f := at[t];
    var tables', at' := tables - {f}, at - {t};
    assert f != root;
    assert EntryAt(tables, at, t) == Table(f);
    CountZero(tables[f].entries);
    assert Named(tables', root, at') by { FreeNamed(tables, root, at, t); }
    assert forall q :: EntryAt(tables', at', q) == EntryAt(tables, at, q) by { FreeEntries(tables, root, at, t); }
    assert Linked(tables', at', Some(t));
    assert HasLeaves(tables', at', leaves) && KernelMapped(tables', at');
  }

  lemma FreeNamed(tables: Arena, root: FrameId, at: map<Pos, FrameId>, t: Pos)
    requires Named(tables, root, at) && t in at && at[t] != root
    ensures Named(tables - {at[t]}, root, at - {t})
  {
    var at' := at - {t};
    forall g | g in tables - {at[t]} ensures g in at'.Values {
      assert g in at.Values;
      var u :| u in at && at[u] == g;
      assert at'[u] == g;
    }
  }

  lemma FreeEntries(tables: Arena, root: FrameId, at: map<Pos, FrameId>, t: Pos)
    requires Named(tables, root, at) && Counted(tables, root) && t in at
    requires forall i :: 0 <= i < 512 ==> tables[at[t]].entries[i] == Absent
    ensures forall q :: EntryAt(tables - {at[t]}, at - {t}, q) == EntryAt(tables, at, q)
  {
  }

  lemma NotEmpty(tables: Arena, root: FrameId, at: map<Pos, FrameId>, leaves: map<Pos, Pte>,
                 hot: Option<Pos>, t: Pos, i: nat)
    requires Inv(tables, root, at, leaves, hot, None) && (hot == None || hot == Some(t))
    requires t in at && i < 512 && tables[at[t]].entries[i] != Absent
    ensures Inv(tables, root, at, leaves, None, None)
  {
    CountZero(tables[at[t]].entries);
  }

  /** What a walk may find in a slot that is no leaf: a link to the table below, or nothing. */
  lemma SlotEntry(tables: Arena, root: FrameId, at: map<Pos, FrameId>, leaves: map<Pos, Pte>, hot: Option<Pos>, p: Pos)
    requires Inv(tables, root, at, leaves, hot, None)
    requires Parent(p) in at && 1 <= p.level <= 4 && p != Pos(4, KERNEL_INDEX) && p !in leaves
    ensures at[Parent(p)] in tables && |tables[at[Parent(p)]].entries| == 512
    ensures EntryAt(tables, at, p) == tables[at[Parent(p)]].entries[p.index % 512]
      == if p in at then Table(at[p]) else Absent
  {
  }

  /** A finished walk leaves nothing empty. */
  lemma Settled(tables: Arena, root: FrameId, at: map<Pos, FrameId>, leaves: map<Pos, Pte>, t: Pos)
    requires Inv(tables, root, at, leaves, Some(t), None)
    requires t in at && tables[at[t]].count != 0
    ensures Inv(tables, root, at, leaves, None, None)
  {
  }

  // ---------------------------------------------------------------------------------------
  // Positions and addresses

  const MAX_USER_ADDR: nat := 0x8000_0000_0000

  /** A slot's index counts the blocks of its span below the address. */
  lemma {:induction false} AtIsQuotient(level: nat, addr: nat)
    requires 1 <= level <= 5
    ensures At(level, addr).index == addr / Span(level)
  {
    if level > 1 {
      AtIsQuotient(level - 1, addr);
      DivDiv(addr, Span(level - 1), 512);
    }
  }

  lemma AtIndex(level: nat, addr: nat)
    requires 1 <= level <= 4
    ensures Parent(At(level, addr)) == At(level + 1, addr)
    ensures At(level, addr).index % 512 == Index(level, addr)
  {
    AtIsQuotient(level, addr);
  }

  lemma AtCovers(level: nat, addr: nat)
    requires 1 <= level <= 5
    ensures Start(At(level, addr)) <= addr < End(At(level, addr))
  {
    AtIsQuotient(level, addr);
    DivBlock(addr, Span(level));
  }

  lemma AtUnique(p: Pos, addr: nat)
    requires 1 <= p.level <= 5 && Start(p) <= addr < End(p)
    ensures At(p.level, addr) == p
  {
    AtIsQuotient(p.level, addr);
    BlockDiv(addr, p.index, Span(p.level));
  }

  lemma AtStart(p: Pos)
    requires 1 <= p.level <= 5
    ensures Start(p) < End(p) && At(p.level, Start(p)) == p
  {
    assert End(p) == Start(p) + Span(p.level);
    AtUnique(p, Start(p));
  }

  /** A slot's range lies within the range of the slot above it. */
  lemma WithinParent(p: Pos)
    requires 1 <= p.level <= 4
    ensures Start(Parent(p)) <= Start(p) && End(p) <= End(Parent(p))
  {
    var q, r := p.index / 512, p.index % 512;
    var m := Span(p.level);
    assert Span(p.level + 1) == 512 * m;
    assert p.index == 512 * q + r;
    assert Start(Parent(p)) == q * (512 * m) == (512 * q) * m;
    assert End(Parent(p)) == (q + 1) * (512 * m) == (512 * q + 512) * m;
    MulMono(512 * q, p.index, m);
    MulMono(p.index + 1, 512 * q + 512, m);
  }

  /** User addresses never reach the kernel's slot, and all belong to the root. */
  lemma UserPositions(level: nat, addr: nat)
    requires 1 <= level <= 5 && addr < MAX_USER_ADDR
    ensures At(level, addr) != Pos(4, KERNEL_INDEX)
    ensures At(5, addr) == ROOT_POS
  {
    AtIsQuotient(4, addr);
    AtIsQuotient(5, addr);
  }

  predicate Apart(p: Pos, q: Pos)
    requires 1 <= p.level <= 5 && 1 <= q.level <= 5
  {
    End(p) <= Start(q) || End(q) <= Start(p)
  }

  // ---------------------------------------------------------------------------------------
  // What the invariant says about the whole tree

  /** The table a slot in use lies in exists, and so do all the tables above it. */
  lemma {:induction false} TablesAbove(tables: Arena, at: map<Pos, FrameId>, level: nat, addr: nat, k: nat)
    requires Linked(tables, at, None)
    requires 1 <= level <= k <= 4 && EntryAt(tables, at, At(level, addr)) != Absent
    ensures At(k + 1, addr) in at
    decreases k
  {
    if k > level {
      TablesAbove(tables, at, level, addr, k - 1);
      assert EntryAt(tables, at, At(k, addr)) != Absent;
    }
  }

  /** Below every table but the root there is a leaf, within the range of the table. */
  lemma {:induction false} LeafBelow(tables: Arena, root: FrameId, at: map<Pos, FrameId>, leaves: map<Pos, Pte>, t: Pos)
    returns (l: Pos)
    requires Inv(tables, root, at, leaves, None, None)
    requires t in at && t.level <= 4
    ensures l in leaves && l.level < t.level && Start(t) <= Start(l) && End(l) <= End(t)
    decreases t.level
  {
    var es := tables[at[t]].entries;
    CountZero(es);
    var i :| 0 <= i < 512 && es[i] != Absent;
    l := Pos(t.level - 1, t.index * 512 + i);
    assert Parent(l) == t && l.index % 512 == i;
    assert EntryAt(tables, at, l) == es[i];
    WithinParent(l);
    if es[i].Table? {
      l := LeafBelow(tables, root, at, leaves, l);
    }
  }

  /** A range no leaf overlaps has a free slot, reached through tables or free slots only. */
  lemma SlotFree(tables: Arena, root: FrameId, at: map<Pos, FrameId>, leaves: map<Pos, Pte>, p: Pos)
    requires Inv(tables, root, at, leaves, None, None)
    requires 1 <= p.level <= 3 && End(p) <= MAX_USER_ADDR
    requires forall l :: l in leaves ==> Apart(l, p)
    ensures EntryAt(tables, at, p) == Absent
    ensures forall k :: p.level <= k <= 4 ==> At(k, Start(p)) !in leaves
  {
    AtStart(p);
    forall k | p.level <= k <= 4 ensures At(k, Start(p)) !in leaves {
      AtCovers(k, Start(p));
    }
    UserPositions(p.level, Start(p));
    if EntryAt(tables, at, p).Table? {
      var l := LeafBelow(tables, root, at, leaves, p);
      AtStart(l);
    }
  }

  /** Leaves never overlap. */
  lemma LeavesApart(tables: Arena, at: map<Pos, FrameId>, leaves: map<Pos, Pte>, p: Pos, q: Pos)
    requires Linked(tables, at, None) && HasLeaves(tables, at, leaves)
    requires p in leaves && q in leaves && p != q && p.level <= q.level
    ensures Apart(p, q)
  {
    if !Apart(p, q) {
      assert EntryAt(tables, at, p).Leaf? && EntryAt(tables, at, q).Leaf?;
      var addr := if Start(p) >= Start(q) then Start(p) else Start(q);
      AtStart(p);
      AtStart(q);
      AtUnique(p, addr);
      AtUnique(q, addr);
      if p.level < q.level {
        TablesAbove(tables, at, p.level, addr, q.level - 1);
      }
    }
  }

  /** A table exists exactly where it is needed: at the root and above leaves. */
  ghost predicate Needed(leaves: map<Pos, Pte>, t: Pos) {
    t == ROOT_POS ||
    exists l :: l in leaves && 1 <= l.level < t.level <= 4 && t == At(t.level, Start(l))
  }

  lemma TablesAreNeeded(tables: Arena, root: FrameId, at: map<Pos, FrameId>, leaves: map<Pos, Pte>, t: Pos)
    requires Inv(tables, root, at, leaves, None, None)
    ensures t in at <==> Needed(leaves, t)
  {
    if t in at && t != ROOT_POS {
      var l := LeafBelow(tables, root, at, leaves, t);
      AtStart(l);
      AtUnique(t, Start(l));
    } else if Needed(leaves, t) && t != ROOT_POS {
      NeededExists(tables, at, leaves, t);
    }
  }

  lemma NeededExists(tables: Arena, at: map<Pos, FrameId>, leaves: map<Pos, Pte>, t: Pos)
    requires Linked(tables, at, None) && HasLeaves(tables, at, leaves)
    requires t != ROOT_POS && Needed(leaves, t)
    ensures t in at
  {
    var l :| l in leaves && 1 <= l.level < t.level <= 4 && t == At(t.level, Start(l));
    AtStart(l);
    TablesAbove(tables, at, l.level, Start(l), t.level - 1);
  }

  /**
   Two trees with the same leaves have tables at the same positions, whatever they went
   through: no table is ever leaked and none is freed too early.
   */
  lemma LeavesDetermineTables(tables: Arena, root: FrameId, at: map<Pos, FrameId>,
                              tables': Arena, root': FrameId, at': map<Pos, FrameId>, leaves: map<Pos, Pte>)
    requires Inv(tables, root, at, leaves, None, None) && Inv(tables', root', at', leaves, None, None)
    ensures at.Keys == at'.Keys
  {
    forall t ensures t in at <==> t in at' {
      TablesAreNeeded(tables, root, at, leaves, t);
      TablesAreNeeded(tables', root', at', leaves, t);
    }
  }

  // ---------------------------------------------------------------------------------------
  // Translation

  /** A leaf entry found by a walk, with the level of the table it was found in. */
  datatype Found = Found(level: nat, pte: Pte)

  /** The hardware's walk, from the table `f` at this level. */
  function Walk(tables: Arena, f: FrameId, level: nat, addr: nat): (r: Option<Found>)
    requires 1 <= level <= 4
    ensures r.Some? ==> 1 <= r.value.level <= level
    decreases level
  {
    if f !in tables || |tables[f].entries| != 512 then None
    else
      match tables[f].entries[Index(level, addr)]
      case Absent => None
      case KernelZone => None
      case Leaf(pte) => Some(Found(level, pte))
      case Table(g) => if level == 1 then None else Walk(tables, g, level - 1, addr)
  }

  /** The leaf of a set that covers an address, looked for at this level and below. */
  ghost function LeafOver(leaves: map<Pos, Pte>, level: nat, addr: nat): (r: Option<Found>)
    requires level <= 4
    ensures r.Some? ==> 1 <= r.value.level <= level
    decreases level
  {
    if level == 0 then None
    else if At(level, addr) in leaves then Some(Found(level, leaves[At(level, addr)]))
    else LeafOver(leaves, level - 1, addr)
  }

  /** The physical address and the permissions the leaf gives an address. */
  function Translated(r: Option<Found>, addr: nat): Option<Pte>
    requires r.Some? ==> 1 <= r.value.level <= 4
  {
    match r
    case None => None
    case Some(Found(level, pte)) => Some(Pte(pte.paddr + addr % Span(level), pte.flags))
  }

  /** The four-level walk finds exactly the leaf that covers the address. */
  lemma {:induction false} WalkFindsLeaf(tables: Arena, root: FrameId, at: map<Pos, FrameId>, leaves: map<Pos, Pte>,
                      level: nat, addr: nat)
    requires Named(tables, root, at) && Counted(tables, root)
    requires Linked(tables, at, None) && HasLeaves(tables, at, leaves)
    requires 1 <= level <= 4 && At(level + 1, addr) in at
    ensures Walk(tables, at[At(level + 1, addr)], level, addr) == LeafOver(leaves, level, addr)
    decreases level
  {
    var p := At(level, addr);
    AtIndex(level, addr);
    var e := tables[at[At(level + 1, addr)]].entries[Index(level, addr)];
    assert e == EntryAt(tables, at, p);
    match e {
      case Leaf(_) =>
      case Table(g) =>
        assert p in at && at[p] == g && level > 1;
        WalkFindsLeaf(tables, root, at, leaves, level - 1, addr);
      case Absent => NoLeafBelow(tables, at, leaves, level, addr, level - 1);
      case KernelZone => NoLeafBelow(tables, at, leaves, level, addr, level - 1);
    }
  }

  lemma {:induction false} NoLeafBelow(tables: Arena, at: map<Pos, FrameId>, leaves: map<Pos, Pte>,
                      level: nat, addr: nat, k: nat)
    requires Linked(tables, at, None) && HasLeaves(tables, at, leaves)
    requires k < level <= 4 && At(level, addr) !in at
    ensures LeafOver(leaves, k, addr) == None
    decreases k
  {
    if k > 0 {
      NoLeafBelow(tables, at, leaves, level, addr, k - 1);
      assert EntryAt(tables, at, At(k, addr)).Leaf? <==> At(k, addr) in leaves;
      if At(k, addr) in leaves {
        TablesAbove(tables, at, k, addr, level - 1);
      }
    }
  }

  // ---------------------------------------------------------------------------------------
  // The packed count

  /** How many entries the packed count is behind the true one, within its width. */
  function Lag(t: PageTable): (n: nat)
    ensures n < 2048
  {
    (t.count - t.packed) % 2048
  }

  /** The table at a position. */
  ghost function TableAt(tables: Arena, at: map<Pos, FrameId>, t: Pos): PageTable {
    if t in at && at[t] in tables then tables[at[t]] else EmptyTable()
  }

  /** All packed counts are right. */
  ghost predicate CountsAgree(tables: Arena, at: map<Pos, FrameId>) {
    forall t :: t in at ==> TableAt(tables, at, t).packed == TableAt(tables, at, t).count
  }

  /**
   Every table has more entries in use than its packed count is behind.  The source takes a
   table for empty when both are the same.
   */
  ghost predicate NoneEarly(tables: Arena, at: map<Pos, FrameId>) {
    forall t :: t in at ==>
      Lag(TableAt(tables, at, t)) == 0 || Lag(TableAt(tables, at, t)) < TableAt(tables, at, t).count
  }

  /** The level of the first absent slot on the walk from the root to the slot at level `low`. */
  ghost function FirstFree(at: map<Pos, FrameId>, addr: nat, level: nat, low: nat): (k: nat)
    requires 1 <= low <= level <= 4
    ensures low <= k <= level && (k > low ==> At(k, addr) !in at)
    ensures forall j :: k < j <= level ==> At(j, addr) in at
    decreases level
  {
    if level == low || At(level, addr) !in at then level else FirstFree(at, addr, level - 1, low)
  }

  /**
   What a walk that maps a frame does to the counts, if `q` is the first absent slot on it.  In
   the table of that slot one entry more is in use; if it is entry 0, the packed count falls
   behind by all the others.  The tables made further down have right counts.
   */
  ghost predicate CountsAfterMap(tables: Arena, at: map<Pos, FrameId>, tables': Arena, at': map<Pos, FrameId>, q: Pos) {
    && at.Keys <= at'.Keys
    && (forall t {:trigger TableAt(tables', at', t)} :: t in at ==>
          var x, x' := TableAt(tables, at, t), TableAt(tables', at', t);
          && x'.count == x.count + (if t == Parent(q) then 1 else 0)
          && Lag(x') == if t == Parent(q) && q.index % 512 == 0 then x.count % 2048 else Lag(x))
    && (forall t :: t in at' && t !in at ==> Lag(TableAt(tables', at', t)) == 0)
  }

  lemma WithEntryLag(t: PageTable, i: nat, e: Entry)
    requires i < |t.entries| && (t.entries[i] == Absent <==> e != Absent)
    ensures Lag(WithEntry(t, i, e)) == if e != Absent && i == 0 then t.count % 2048 else Lag(t)
  {
  }

  lemma SetCounts(tables: Arena, root: FrameId, at: map<Pos, FrameId>, p: Pos, e: Entry)
    requires Named(tables, root, at) && Counted(tables, root) && Parent(p) in at
    requires tables[at[Parent(p)]].entries[p.index % 512] == Absent && e != Absent
    ensures var f := at[Parent(p)];
      CountsAfterMap(tables, at, tables[f := WithEntry(tables[f], p.index % 512, e)], at, p)
  {
    WithEntryLag(tables[at[Parent(p)]], p.index % 512, e);
  }

  lemma NewTableCounts(tables: Arena, tables1: Arena, root: FrameId, at: map<Pos, FrameId>, p: Pos, f: FrameId)
    requires Named(tables1, root, at) && CountsAfterMap(tables, at, tables1, at, p) && f !in tables1 && p !in at
    ensures CountsAfterMap(tables, at, tables1[f := EmptyTable()], at[p := f], p)
    ensures TableAt(tables1[f := EmptyTable()], at[p := f], p).count == 0
  {
    var tables2, at2 := tables1[f := EmptyTable()], at[p := f];
    forall t | t in at ensures TableAt(tables2, at2, t) == TableAt(tables1, at, t) {
    }
  }

  lemma LinkCounts(tables: Arena, root: FrameId, at: map<Pos, FrameId>, p: Pos, f: FrameId)
    requires Named(tables, root, at) && Counted(tables, root) && Parent(p) in at && p !in at && f !in tables
    requires tables[at[Parent(p)]].entries[p.index % 512] == Absent
    ensures var g := at[Parent(p)];
      var tables2 := tables[g := WithEntry(tables[g], p.index % 512, Table(f))][f := EmptyTable()];
      CountsAfterMap(tables, at, tables2, at[p := f], p) && TableAt(tables2, at[p := f], p).count == 0
  {
    var g := at[Parent(p)];
    SetCounts(tables, root, at, p, Table(f));
    WithEntryNamed(tables, root, at, g, p.index % 512, Table(f));
    NewTableCounts(tables, tables[g := WithEntry(tables[g], p.index % 512, Table(f))], root, at, p, f);
  }

  /** A walk goes on in a table it has just made. */
  lemma CountsGoOn(tables: Arena, at: map<Pos, FrameId>, tables1: Arena, at1: map<Pos, FrameId>,
                   tables2: Arena, at2: map<Pos, FrameId>, q: Pos, p: Pos)
    requires CountsAfterMap(tables, at, tables1, at1, q) && CountsAfterMap(tables1, at1, tables2, at2, p)
    requires Parent(p) !in at && Parent(p) in at1 && TableAt(tables1, at1, Parent(p)).count == 0
    ensures CountsAfterMap(tables, at, tables2, at2, q)
  {
    hide TableAt, Lag;
    forall t | t in at
      ensures t in at2 && TableAt(tables2, at2, t).count == TableAt(tables1, at1, t).count
      ensures Lag(TableAt(tables2, at2, t)) == Lag(TableAt(tables1, at1, t))
    {
      assert t in at1.Keys && t != Parent(p);
    }
    forall t | t in at2 && t !in at ensures Lag(TableAt(tables2, at2, t)) == 0 {
      if t in at1 {
        assert Lag(TableAt(tables1, at1, t)) == 0;
      }
    }
  }

  /** A table just made has no table below it. */
  lemma NothingBelow(tables: Arena, root: FrameId, at: map<Pos, FrameId>, leaves: map<Pos, Pte>, hot: Option<Pos>,
                     p: Pos)
    requires Inv(tables, root, at, leaves, hot, None) && Parent(p) in at && p.level <= 4
    requires TableAt(tables, at, Parent(p)).count == 0
    ensures p !in at
  {
    CountZero(tables[at[Parent(p)]].entries);
    assert EntryAt(tables, at, p) == Absent;
  }

  /** What a walk has done to the counts on its way down to a level, if the first absent slot is at level `k`. */
  ghost predicate WalkCounts(tables: Arena, at: map<Pos, FrameId>, tables': Arena, at': map<Pos, FrameId>,
                             addr: nat, level: nat, k: nat)
    requires level <= 4 && 1 <= k <= 4
  {
    if level >= k then tables' == tables && at' == at
    else
      && CountsAfterMap(tables, at, tables', at', At(k, addr))
      && At(level + 1, addr) !in at && At(level + 1, addr) in at'
        && TableAt(tables', at', At(level + 1, addr)).count == 0
  }

  lemma StillAbsent(tables: Arena, at: map<Pos, FrameId>, tables': Arena, at': map<Pos, FrameId>, p: Pos, q: Pos,
                    e: Entry)
    requires EntriesBut(tables, at, tables', at', q, e) && EntryAt(tables, at, p) == Absent && p != q
    ensures EntryAt(tables', at', p) == Absent
  {
  }

  lemma WalkBegins(tables: Arena, at: map<Pos, FrameId>, addr: nat, k: nat)
    requires 1 <= k <= 4
    ensures WalkCounts(tables, at, tables, at, addr, 4, k)
  {
  }

  /** Past the first absent slot all slots of the walk are absent. */
  lemma WalkOn(tables: Arena, at: map<Pos, FrameId>, tables1: Arena, root: FrameId, at1: map<Pos, FrameId>,
               leaves: map<Pos, Pte>, hot: Option<Pos>, addr: nat, level: nat, k: nat)
    requires Inv(tables1, root, at1, leaves, hot, None)
    requires 1 <= level <= 4 && 1 <= k <= 4 && WalkCounts(tables, at, tables1, at1, addr, level, k)
    requires k < level ==> At(level, addr) in at
    requires k == level ==> At(level, addr) !in at
    ensures At(level, addr) in at1 <==> k < level
    ensures At(level, addr) in at <==> k < level
  {
    hide Inv, TableAt, Lag;
    if level < k {
      AtIndex(level, addr);
      NothingBelow(tables1, root, at1, leaves, hot, At(level, addr));
      assert at.Keys <= at1.Keys;
    }
  }

  lemma WalkCountsStep(tables: Arena, at: map<Pos, FrameId>, tables1: Arena, at1: map<Pos, FrameId>,
                       tables2: Arena, at2: map<Pos, FrameId>, addr: nat, level: nat, k: nat)
    requires 1 <= level <= 4 && 1 <= k <= 4 && WalkCounts(tables, at, tables1, at1, addr, level, k)
    requires At(level, addr) in at2 && (At(level, addr) in at1 <==> k < level) && (At(level, addr) in at <==> k < level)
    requires k < level ==> tables2 == tables1 && at2 == at1
    requires k >= level ==>
      CountsAfterMap(tables1, at1, tables2, at2, At(level, addr)) && TableAt(tables2, at2, At(level, addr)).count == 0
    ensures WalkCounts(tables, at, tables2, at2, addr, level - 1, k)
  {
    hide TableAt, CountsAfterMap, Lag;
    if level < k {
      AtIndex(level, addr);
      CountsGoOn(tables, at, tables1, at1, tables2, at2, At(k, addr), At(level, addr));
    }
  }

  lemma WalkEnds(tables: Arena, at: map<Pos, FrameId>, tables': Arena, at': map<Pos, FrameId>, addr: nat, p: Pos,
                 k: nat)
    requires 1 <= p.level <= k <= 4 && p == At(p.level, addr) && WalkCounts(tables, at, tables', at', addr, p.level, k)
    ensures
      if k == p.level then tables' == tables && at' == at
      else
        && CountsAfterMap(tables, at, tables', at', At(k, addr))
        && Parent(p) !in at && TableAt(tables', at', Parent(p)).count == 0
  {
    AtIndex(p.level, addr);
  }

  /** Every table has an entry in use and at most 512, as the root counts the one it does not have. */
  lemma CountBounds(tables: Arena, root: FrameId, at: map<Pos, FrameId>, leaves: map<Pos, Pte>, t: Pos)
    requires Inv(tables, root, at, leaves, None, None) && t in at
    ensures 1 <= TableAt(tables, at, t).count <= 513
    ensures t == ROOT_POS ==> TableAt(tables, at, t).count >= 2
  {
    if t == ROOT_POS {
      assert EntryAt(tables, at, Pos(4, KERNEL_INDEX)) == KernelZone;
      CountZero(tables[at[t]].entries);
    }
  }

  /**
   Mapping a frame keeps all packed counts right exactly if the first absent slot on its walk is
   not entry 0 of its table.
   */
  lemma MapKeepsCounts(tables: Arena, root: FrameId, at: map<Pos, FrameId>, leaves: map<Pos, Pte>,
                       tables': Arena, at': map<Pos, FrameId>, q: Pos)
    requires Inv(tables, root, at, leaves, None, None) && Parent(q) in at && CountsAgree(tables, at)
    requires CountsAfterMap(tables, at, tables', at', q)
    requires forall t :: t in at' ==> 0 <= TableAt(tables', at', t).count < 2048
    ensures CountsAgree(tables', at') <==> q.index % 512 != 0
  {
    hide Inv, TableAt, Lag;
    var x, x' := TableAt(tables, at, Parent(q)), TableAt(tables', at', Parent(q));
    CountBounds(tables, root, at, leaves, Parent(q));
    LagOfSmall(x');
    assert Parent(q) in at' && x.count % 2048 == x.count;
    forall t | t in at' && (t != Parent(q) || q.index % 512 != 0)
      ensures TableAt(tables', at', t).packed == TableAt(tables', at', t).count
    {
      if t in at {
        CountBounds(tables, root, at, leaves, t);
        LagOfSmall(TableAt(tables, at, t));
      }
      LagOfSmall(TableAt(tables', at', t));
    }
  }

  lemma LagOfSmall(t: PageTable)
    requires 0 <= t.count < 2048
    ensures Lag(t) == 0 <==> t.packed == t.count
  {
  }

  /** Mapping a frame never makes a table look empty. */
  lemma MapKeepsNoneEarly(tables: Arena, root: FrameId, at: map<Pos, FrameId>, leaves: map<Pos, Pte>,
                          tables': Arena, at': map<Pos, FrameId>, q: Pos)
    requires Inv(tables, root, at, leaves, None, None) && NoneEarly(tables, at)
    requires CountsAfterMap(tables, at, tables', at', q)
    ensures NoneEarly(tables', at')
  {
    hide Inv, TableAt, Lag;
    forall t | t in at' ensures
      Lag(TableAt(tables', at', t)) == 0 || Lag(TableAt(tables', at', t)) < TableAt(tables', at', t).count
    {
      if t in at {
        CountBounds(tables, root, at, leaves, t);
      }
    }
  }

  /** The packed count of the root falls behind for good with the first page below 512 GiB. */
  ghost predicate RootMarked(tables: Arena, at: map<Pos, FrameId>, leaves: map<Pos, Pte>) {
    var r := Lag(TableAt(tables, at, ROOT_POS));
    if r == 0 then forall l :: l in leaves && 1 <= l.level <= 3 ==> Start(l) >= Span(4) else r >= 2
  }

  lemma MapMarksRoot(tables: Arena, root: FrameId, at: map<Pos, FrameId>, leaves: map<Pos, Pte>,
                     tables': Arena, at': map<Pos, FrameId>, p: Pos, pte: Pte)
    requires Inv(tables, root, at, leaves, None, None) && RootMarked(tables, at, leaves)
    requires 1 <= p.level <= 3 && Start(p) < MAX_USER_ADDR
    requires CountsAfterMap(tables, at, tables', at', At(FirstFree(at, Start(p), 4, p.level), Start(p)))
    ensures RootMarked(tables', at', leaves[p := pte])
    ensures Start(p) < Span(4) || Lag(TableAt(tables, at, ROOT_POS)) != 0 ==> Lag(TableAt(tables', at', ROOT_POS)) != 0
  {
    hide CountPresent, Linked, HasLeaves, KernelMapped, NoneEmpty, Counted, TableAt, Lag, At, Start, Needed;
    var addr := Start(p);
    var k := FirstFree(at, addr, 4, p.level);
    CountBounds(tables, root, at, leaves, ROOT_POS);
    AtIsQuotient(4, addr);
    FirstFreeParent(addr, k);
    if Lag(TableAt(tables, at, ROOT_POS)) == 0 && addr < Span(4) {
      LowTableNeedsLowLeaf(tables, root, at, leaves);
      assert At(4, addr) == Pos(4, 0);
      assert k == 4;
    }
  }

  lemma FirstFreeParent(addr: nat, k: nat)
    requires 1 <= k <= 4 && addr < MAX_USER_ADDR
    ensures Parent(At(k, addr)) == ROOT_POS <==> k == 4
  {
    AtIndex(k, addr);
    UserPositions(5, addr);
  }

  lemma LowTableNeedsLowLeaf(tables: Arena, root: FrameId, at: map<Pos, FrameId>, leaves: map<Pos, Pte>)
    requires Inv(tables, root, at, leaves, None, None)
    requires forall l :: l in leaves && 1 <= l.level <= 3 ==> Start(l) >= Span(4)
    ensures Pos(4, 0) !in at
  {
    hide Inv;
    TablesAreNeeded(tables, root, at, leaves, Pos(4, 0));
    if Needed(leaves, Pos(4, 0)) {
      var l :| l in leaves && 1 <= l.level < 4 && Pos(4, 0) == At(4, Start(l));
      AtIsQuotient(4, Start(l));
      assert false;
    }
  }

  lemma FirstFreeHasTable(tables: Arena, root: FrameId, at: map<Pos, FrameId>, leaves: map<Pos, Pte>, addr: nat, k: nat)
    requires Inv(tables, root, at, leaves, None, None) && 1 <= k <= 4 && addr < MAX_USER_ADDR
    requires forall j :: k < j <= 4 ==> At(j, addr) in at
    ensures Parent(At(k, addr)) in at
  {
    hide Linked, HasLeaves, KernelMapped, NoneEmpty, Counted;
    AtIndex(k, addr);
    UserPositions(5, addr);
  }

  lemma SmallCounts(tables: Arena, root: FrameId, at: map<Pos, FrameId>, leaves: map<Pos, Pte>)
    requires Inv(tables, root, at, leaves, None, None)
    ensures forall t :: t in at ==> 0 <= TableAt(tables, at, t).count < 2048
  {
    hide Inv, TableAt;
    forall t | t in at ensures 0 <= TableAt(tables, at, t).count < 2048 {
      CountBounds(tables, root, at, leaves, t);
    }
  }

  /** The tables that are left are as they were. */
  ghost predicate SameTables(tables: Arena, at: map<Pos, FrameId>, tables': Arena, at': map<Pos, FrameId>,
                             but: Option<Pos>)
  {
    forall t {:trigger TableAt(tables', at', t)} {:trigger t in at'} :: t in at' ==>
      t in at && (Some(t) == but || TableAt(tables', at', t) == TableAt(tables, at, t))
  }

  /** One entry less is in use: whether the packed count says of the table what the true one says. */
  predicate TestAgrees(t: PageTable) {
    if t.count == 1 then Lag(t) == 0 else Lag(t) != t.count - 1
  }

  lemma TestAfterClear(t: PageTable, i: nat)
    requires i < |t.entries| && t.entries[i] != Absent && 1 <= t.count <= 513
    ensures
      var x := WithEntry(t, i, Absent);
      && x.count == t.count - 1 && Lag(x) == Lag(t)
      && ((x.packed == 0 <==> x.count == 0) <==> TestAgrees(t))
  {
    WithEntryLag(t, i, Absent);
  }

  /**
   What `remove` does to the table `t` that holds an entry in use: it is freed exactly if that was
   the only one.
   */
  ghost predicate OneCleared(tables: Arena, at: map<Pos, FrameId>, tables': Arena, at': map<Pos, FrameId>, t: Pos) {
    && t in at && SameTables(tables, at, tables', at', Some(t))
    && var x := TableAt(tables, at, t);
    && x.count >= 1
    && if x.count == 1 then at' == at - {t}
       else
         && at' == at && TableAt(tables', at', t).count == x.count - 1
         && Lag(TableAt(tables', at', t)) == Lag(x)
  }

  lemma ClearCounts(tables: Arena, root: FrameId, at: map<Pos, FrameId>, p: Pos)
    requires Named(tables, root, at) && Counted(tables, root) && Parent(p) in at
    requires tables[at[Parent(p)]].entries[p.index % 512] != Absent
    ensures
      var f := at[Parent(p)];
      var x := WithEntry(tables[f], p.index % 512, Absent);
      var tables1 := tables[f := x];
      var tables' := if x.count == 0 then tables1 - {f} else tables1;
      var at' := if x.count == 0 then at - {Parent(p)} else at;
      && OneCleared(tables, at, tables', at', Parent(p))
      && ((x.packed == 0 <==> x.count == 0) <==> TestAgrees(TableAt(tables, at, Parent(p))))
  {
    var f, t := at[Parent(p)], Parent(p);
    var x := WithEntry(tables[f], p.index % 512, Absent);
    var tables1 := tables[f := x];
    var tables', at' := if x.count == 0 then tables1 - {f} else tables1, if x.count == 0 then at - {t} else at;
    CountUpdate(tables[f].entries, p.index % 512, Absent);
    TestAfterClear(tables[f], p.index % 512);
    assert TableAt(tables, at, t) == tables[f];
    forall u | u in at' && u != t ensures TableAt(tables', at', u) == TableAt(tables, at, u) {
    }
    assert t in at' ==> TableAt(tables', at', t) == x;
  }

  /** The tables of a walk below level `k` have been freed, each after its only entry was cleared. */
  ghost predicate FreedBelow(tables: Arena, at: map<Pos, FrameId>, faithful: bool,
                             tables': Arena, at': map<Pos, FrameId>, faithful': bool, addr: nat, low: nat, k: nat)
    requires 1 <= low < k <= 5
  {
    && SameTables(tables, at, tables', at', None)
    && (forall t :: t in at && t !in at' ==> exists j :: low < j < k && t == At(j, addr))
    && (forall j :: low < j < k ==> At(j, addr) in at && TableAt(tables, at, At(j, addr)).count == 1)
    && (faithful' <==> faithful && forall j :: low < j < k ==> Lag(TableAt(tables, at, At(j, addr))) == 0)
  }

  /**
   What the walk that unmaps a frame does to the counts.  The table at level `k` is the lowest on
   it with another entry in use.  Those below are freed.
   */
  ghost predicate CountsAfterUnmap(tables: Arena, at: map<Pos, FrameId>, faithful: bool,
                                   tables': Arena, at': map<Pos, FrameId>, faithful': bool, addr: nat, low: nat, k: nat)
    requires 1 <= low < k <= 5
  {
    var t := At(k, addr);
    && t in at && t in at' && SameTables(tables, at, tables', at', Some(t))
    && TableAt(tables, at, t).count > 1 && TableAt(tables', at', t).count == TableAt(tables, at, t).count - 1
    && Lag(TableAt(tables', at', t)) == Lag(TableAt(tables, at, t))
    && (forall u :: u in at && u !in at' ==> TableAt(tables, at, u).count == 1)
    && (forall j :: low < j < k ==> At(j, addr) in at && TableAt(tables, at, At(j, addr)).count == 1)
    && (faithful' <==>
          && faithful && TestAgrees(TableAt(tables, at, t))
          && forall j :: low < j < k ==> Lag(TableAt(tables, at, At(j, addr))) == 0)
  }

  lemma SameTablesTrans(tables: Arena, at: map<Pos, FrameId>, tables1: Arena, at1: map<Pos, FrameId>,
                        tables2: Arena, at2: map<Pos, FrameId>, but: Option<Pos>)
    requires SameTables(tables, at, tables1, at1, None) && SameTables(tables1, at1, tables2, at2, but)
    ensures SameTables(tables, at, tables2, at2, but)
  {
    hide TableAt;
    forall u | u in at2 ensures u in at && (Some(u) == but || TableAt(tables2, at2, u) == TableAt(tables, at, u)) {
      assert u in at1;
    }
  }

  /** The table at level `k` is freed as well. */
  lemma FreedOneMore(tables: Arena, at: map<Pos, FrameId>, faithful: bool,
                     tables1: Arena, at1: map<Pos, FrameId>, faithful1: bool,
                     tables2: Arena, at2: map<Pos, FrameId>, faithful2: bool, addr: nat, low: nat, k: nat)
    requires 1 <= low < k < 5 && FreedBelow(tables, at, faithful, tables1, at1, faithful1, addr, low, k)
    requires OneCleared(tables1, at1, tables2, at2, At(k, addr)) && At(k, addr) !in at2
    requires faithful2 <==> faithful1 && TestAgrees(TableAt(tables1, at1, At(k, addr)))
    ensures FreedBelow(tables, at, faithful, tables2, at2, faithful2, addr, low, k + 1)
  {
    hide TableAt, Lag, At, SameTables;
    var t := At(k, addr);
    SameTablesTrans(tables, at, tables1, at1, tables2, at2, Some(t));
    AllButGone(tables, at, tables2, at2, t);
    SameTable(tables, at, tables1, at1, t);
    forall u | u in at && u !in at2 ensures exists j :: low < j < k + 1 && u == At(j, addr) {
      if u in at1 {
        assert u == t;
      }
    }
  }

  lemma AllButGone(tables: Arena, at: map<Pos, FrameId>, tables': Arena, at': map<Pos, FrameId>, t: Pos)
    requires SameTables(tables, at, tables', at', Some(t)) && t !in at'
    ensures SameTables(tables, at, tables', at', None)
  {
    hide TableAt;
  }

  lemma SameTable(tables: Arena, at: map<Pos, FrameId>, tables': Arena, at': map<Pos, FrameId>, t: Pos)
    requires SameTables(tables, at, tables', at', None) && t in at'
    ensures t in at && TableAt(tables', at', t) == TableAt(tables, at, t)
  {
    hide TableAt;
  }

  /** The table at level `k` stays. */
  lemma FreedNoMore(tables: Arena, at: map<Pos, FrameId>, faithful: bool,
                    tables1: Arena, at1: map<Pos, FrameId>, faithful1: bool,
                    tables2: Arena, at2: map<Pos, FrameId>, faithful2: bool, addr: nat, low: nat, k: nat)
    requires 1 <= low < k <= 5 && FreedBelow(tables, at, faithful, tables1, at1, faithful1, addr, low, k)
    requires OneCleared(tables1, at1, tables2, at2, At(k, addr)) && At(k, addr) in at2
    requires faithful2 <==> faithful1 && TestAgrees(TableAt(tables1, at1, At(k, addr)))
    ensures CountsAfterUnmap(tables, at, faithful, tables2, at2, faithful2, addr, low, k)
  {
    hide TableAt, Lag, At, SameTables;
    var t := At(k, addr);
    SameTablesTrans(tables, at, tables1, at1, tables2, at2, Some(t));
    SameTable(tables, at, tables1, at1, t);
  }

  lemma FreedUpTo(tables: Arena, at: map<Pos, FrameId>, faithful: bool,
                  tables1: Arena, at1: map<Pos, FrameId>, faithful1: bool,
                  tables2: Arena, at2: map<Pos, FrameId>, faithful2: bool, addr: nat, low: nat, k: nat)
    requires 1 <= low < k <= 5 && FreedBelow(tables, at, faithful, tables1, at1, faithful1, addr, low, k)
    requires OneCleared(tables1, at1, tables2, at2, At(k, addr))
    requires faithful2 <==> faithful1 && TestAgrees(TableAt(tables1, at1, At(k, addr)))
    ensures
      if At(k, addr) in at2 then CountsAfterUnmap(tables, at, faithful, tables2, at2, faithful2, addr, low, k)
      else k < 5 ==> FreedBelow(tables, at, faithful, tables2, at2, faithful2, addr, low, k + 1)
  {
    hide FreedBelow, CountsAfterUnmap, OneCleared, TestAgrees, TableAt, At;
    if At(k, addr) in at2 {
      FreedNoMore(tables, at, faithful, tables1, at1, faithful1, tables2, at2, faithful2, addr, low, k);
    } else if k < 5 {
      FreedOneMore(tables, at, faithful, tables1, at1, faithful1, tables2, at2, faithful2, addr, low, k);
    }
  }

  /** The level of the lowest table on a walk, from level `k` on, that has another entry in use. */
  ghost function LowestKept(tables: Arena, at: map<Pos, FrameId>, addr: nat, k: nat): (r: nat)
    requires 1 <= k <= 5
    ensures k <= r <= 5
    decreases 5 - k
  {
    if k == 5 || TableAt(tables, at, At(k, addr)).count > 1 then k else LowestKept(tables, at, addr, k + 1)
  }

  lemma {:induction false} LowestKeptIs(tables: Arena, at: map<Pos, FrameId>, addr: nat, low: nat, k: nat)
    requires 1 <= low <= k <= 5 && TableAt(tables, at, At(k, addr)).count > 1
    requires forall j :: low <= j < k ==> TableAt(tables, at, At(j, addr)).count == 1
    ensures LowestKept(tables, at, addr, low) == k
    decreases k - low
  {
    if low < k {
      LowestKeptIs(tables, at, addr, low + 1, k);
    }
  }

  /**
   If no table looked empty before, an unmapping frees the same tables by the packed counts exactly
   if the lowest table that stays keeps more entries than its packed count is behind; and no table
   that goes was behind.
   */
  lemma UnmapTests(tables: Arena, at: map<Pos, FrameId>, faithful: bool, tables': Arena, at': map<Pos, FrameId>,
                   faithful': bool, addr: nat, low: nat, k: nat)
    requires 1 <= low < k <= 5 && NoneEarly(tables, at)
    requires CountsAfterUnmap(tables, at, faithful, tables', at', faithful', addr, low, k)
    ensures
      var x := TableAt(tables, at, At(k, addr));
      && (faithful' <==> faithful && (Lag(x) == 0 || Lag(x) < x.count - 1))
      && (NoneEarly(tables', at') <==> Lag(x) == 0 || Lag(x) < x.count - 1)
    ensures forall t :: t in at && t !in at' ==> Lag(TableAt(tables, at, t)) == 0
  {
    hide TableAt, Lag, At;
    var t := At(k, addr);
    var x := TableAt(tables, at, t);
    forall u | u in at' && u != t ensures TableAt(tables', at', u) == TableAt(tables, at, u) && u in at {
    }
    if Lag(x) == 0 || Lag(x) < x.count - 1 {
      assert NoneEarly(tables', at');
    } else {
      assert !(Lag(TableAt(tables', at', t)) == 0 || Lag(TableAt(tables', at', t)) < TableAt(tables', at', t).count);
    }
  }

  /** Tables may go, but those that stay are as far behind as they were. */
  ghost predicate LagsKept(tables: Arena, at: map<Pos, FrameId>, tables': Arena, at': map<Pos, FrameId>) {
    forall t {:trigger TableAt(tables', at', t)} :: t in at' ==>
      t in at && Lag(TableAt(tables', at', t)) == Lag(TableAt(tables, at, t))
  }

  lemma UnmapLags(tables: Arena, at: map<Pos, FrameId>, faithful: bool, tables': Arena, at': map<Pos, FrameId>,
                  faithful': bool, addr: nat, low: nat, k: nat)
    requires 1 <= low < k <= 5 && CountsAfterUnmap(tables, at, faithful, tables', at', faithful', addr, low, k)
    ensures LagsKept(tables, at, tables', at')
  {
    hide TableAt, Lag, At;
  }

  lemma UnmapSurvivor(tables: Arena, at: map<Pos, FrameId>, faithful: bool, tables': Arena, at': map<Pos, FrameId>,
                      faithful': bool, addr: nat, low: nat, k: nat)
    requires 1 <= low < k <= 5 && (faithful ==> NoneEarly(tables, at))
    requires CountsAfterUnmap(tables, at, faithful, tables', at', faithful', addr, low, k)
    ensures
      var x := TableAt(tables, at, At(LowestKept(tables, at, addr, low + 1), addr));
      && (faithful' <==> faithful && (Lag(x) == 0 || Lag(x) < x.count - 1))
      && (faithful ==> (faithful' <==> NoneEarly(tables', at')))
      && (faithful ==> forall t :: t in at && t !in at' ==> Lag(TableAt(tables, at, t)) == 0)
  {
    hide TableAt, Lag, At, NoneEarly;
    LowestKeptIs(tables, at, addr, low + 1, k);
    if faithful {
      UnmapTests(tables, at, faithful, tables', at', faithful', addr, low, k);
    }
  }

  lemma NothingFreed(tables: Arena, at: map<Pos, FrameId>, faithful: bool, addr: nat, low: nat)
    requires 1 <= low < 5
    ensures FreedBelow(tables, at, faithful, tables, at, faithful, addr, low, low + 1)
  {
  }

  lemma RootKept(tables: Arena, at: map<Pos, FrameId>, tables': Arena, at': map<Pos, FrameId>)
    requires LagsKept(tables, at, tables', at') && ROOT_POS in at'
    ensures Lag(TableAt(tables', at', ROOT_POS)) == Lag(TableAt(tables, at, ROOT_POS))
  {
  }

  /** Unmapping keeps right packed counts right. */
  lemma UnmapKeepsCounts(tables: Arena, at: map<Pos, FrameId>, tables': Arena, at': map<Pos, FrameId>)
    requires LagsKept(tables, at, tables', at') && CountsAgree(tables, at)
    requires forall t :: t in at' ==> 0 <= TableAt(tables', at', t).count < 2048
    ensures CountsAgree(tables', at')
  {
    hide TableAt;
    forall t | t in at' ensures TableAt(tables', at', t).packed == TableAt(tables', at', t).count {
      assert Lag(TableAt(tables', at', t)) == Lag(TableAt(tables, at, t)) == 0;
    }
  }

  lemma UnmapMarksRoot(tables: Arena, at: map<Pos, FrameId>, leaves: map<Pos, Pte>,
                       tables': Arena, at': map<Pos, FrameId>, p: Pos)
    requires RootMarked(tables, at, leaves)
    requires Lag(TableAt(tables', at', ROOT_POS)) == Lag(TableAt(tables, at, ROOT_POS))
    ensures RootMarked(tables', at', leaves - {p})
  {
    hide TableAt, Lag;
  }

  lemma RootStays(tables: Arena, root: FrameId, at: map<Pos, FrameId>, leaves: map<Pos, Pte>)
    requires Inv(tables, root, at, leaves, None, None)
    ensures ROOT_POS in at && at[ROOT_POS] == root
  {
  }

  // ---------------------------------------------------------------------------------------
  // What the packed counts are after a run

  type FramePos = p: Pos | 1 <= p.level <= 3 witness Pos(1, 0)

  /** What is done to an address space, one frame at a time. */
  datatype Event = SetFrame(p: FramePos, pte: Pte) | ClearFrame(p: FramePos)

  /** Whether the slot at a position is in use, in a tree with these leaves. */
  ghost predicate Used(leaves: map<Pos, Pte>, p: Pos) {
    p in leaves || p == Pos(4, KERNEL_INDEX) || (1 <= p.level <= 4 && Needed(leaves, p))
  }

  ghost function UsedFrom(leaves: map<Pos, Pte>, t: Pos, i: nat): (n: nat)
    requires t.level >= 1 && i <= 512
    decreases 512 - i
  {
    if i == 512 then 0
    else (if Used(leaves, Pos(t.level - 1, 512 * t.index + i)) then 1 else 0) + UsedFrom(leaves, t, i + 1)
  }

  /** The count of the table at a position, in a tree with these leaves. */
  ghost function InUse(leaves: map<Pos, Pte>, t: Pos): nat
    requires t.level >= 1
  {
    UsedFrom(leaves, t, 0) + (if t == ROOT_POS then 1 else 0)
  }

  lemma SlotUsed(tables: Arena, root: FrameId, at: map<Pos, FrameId>, leaves: map<Pos, Pte>, p: Pos)
    requires Inv(tables, root, at, leaves, None, None) && Parent(p) in at
    ensures EntryAt(tables, at, p) != Absent <==> Used(leaves, p)
  {
    hide CountPresent, Needed;
    TablesAreNeeded(tables, root, at, leaves, p);
    assert EntryAt(tables, at, p) == KernelZone <==> p == Pos(4, KERNEL_INDEX);
    assert EntryAt(tables, at, p).Leaf? <==> p in leaves;
  }

  lemma {:induction false} UsedFromIs(tables: Arena, root: FrameId, at: map<Pos, FrameId>, leaves: map<Pos, Pte>,
                                      t: Pos, i: nat)
    requires Inv(tables, root, at, leaves, None, None) && t in at && i <= 512
    ensures at[t] in tables && |tables[at[t]].entries| == 512 && t.level >= 1
    ensures CountPresent(tables[at[t]].entries[i..]) == UsedFrom(leaves, t, i)
    decreases 512 - i
  {
    hide Inv, Used;
    TableOf(tables, root, at, leaves, t);
    var es := tables[at[t]].entries;
    if i < 512 {
      EntryUsed(tables, root, at, leaves, t, i);
      assert es[i..][1..] == es[i + 1..];
      UsedFromIs(tables, root, at, leaves, t, i + 1);
    }
  }

  lemma TableOf(tables: Arena, root: FrameId, at: map<Pos, FrameId>, leaves: map<Pos, Pte>, t: Pos)
    requires Inv(tables, root, at, leaves, None, None) && t in at
    ensures at[t] in tables && |tables[at[t]].entries| == 512 && t.level >= 1
  {
  }

  lemma EntryUsed(tables: Arena, root: FrameId, at: map<Pos, FrameId>, leaves: map<Pos, Pte>, t: Pos, i: nat)
    requires Inv(tables, root, at, leaves, None, None) && t in at && i < 512
    ensures at[t] in tables && |tables[at[t]].entries| == 512 && t.level >= 1
    ensures tables[at[t]].entries[i] != Absent <==> Used(leaves, Pos(t.level - 1, 512 * t.index + i))
  {
    hide Inv, Used;
    TableOf(tables, root, at, leaves, t);
    var p := Pos(t.level - 1, 512 * t.index + i);
    assert Parent(p) == t && p.index % 512 == i;
    SlotUsed(tables, root, at, leaves, p);
    assert EntryAt(tables, at, p) == tables[at[t]].entries[i];
  }

  /** The true count of every table follows from the leaves. */
  lemma InUseIs(tables: Arena, root: FrameId, at: map<Pos, FrameId>, leaves: map<Pos, Pte>, t: Pos)
    requires Inv(tables, root, at, leaves, None, None) && t in at
    ensures t.level >= 1 && TableAt(tables, at, t).count == InUse(leaves, t)
  {
    hide Linked, HasLeaves, NoneEmpty, KernelMapped, UsedFrom;
    UsedFromIs(tables, root, at, leaves, t, 0);
    assert tables[at[t]].entries[0..] == tables[at[t]].entries;
    assert t == ROOT_POS <==> at[t] == root;
  }

  /** The first absent slot on the walk to a frame. */
  ghost function FirstFreeSlot(leaves: map<Pos, Pte>, p: FramePos): Pos {
    At(FirstFreeLevel(leaves, Start(p), 4, p.level), Start(p))
  }

  ghost function FirstFreeLevel(leaves: map<Pos, Pte>, addr: nat, level: nat, low: nat): (k: nat)
    requires 1 <= low <= level <= 4
    ensures low <= k <= level
    decreases level
  {
    if level == low || !Needed(leaves, At(level, addr)) then level else FirstFreeLevel(leaves, addr, level - 1, low)
  }

  lemma {:induction false} FirstFreeIs(tables: Arena, root: FrameId, at: map<Pos, FrameId>, leaves: map<Pos, Pte>,
                                       addr: nat, level: nat, low: nat)
    requires Inv(tables, root, at, leaves, None, None) && 1 <= low <= level <= 4
    ensures FirstFreeLevel(leaves, addr, level, low) == FirstFree(at, addr, level, low)
    decreases level
  {
    hide Inv, Needed, At;
    if level > low {
      TablesAreNeeded(tables, root, at, leaves, At(level, addr));
      FirstFreeIs(tables, root, at, leaves, addr, level - 1, low);
    }
  }

  /** Every table keeps more entries than its packed count is behind. */
  ghost predicate Ahead(lags: map<Pos, nat>, leaves: map<Pos, Pte>) {
    forall t :: t in lags ==> t.level >= 1 && lags[t] < InUse(leaves, t)
  }

  /**
   What a run of events comes to: the leaves, by how much packed counts are behind, and whether
   the source has freed the same tables.
   */
  datatype Outcome = Outcome(leaves: map<Pos, Pte>, lags: map<Pos, nat>, faithful: bool)

  ghost function Stepped(r: Outcome, e: Event): Outcome {
    match e
    case SetFrame(p, pte) =>
      var q := FirstFreeSlot(r.leaves, p);
      // storing entry 0 forgets all the other entries
      var lags := if q.index % 512 == 0 then r.lags[Parent(q) := InUse(r.leaves, Parent(q))] else r.lags;
      Outcome(r.leaves[p := pte], lags, r.faithful)
    case ClearFrame(p) =>
      Outcome(r.leaves - {p}, r.lags, r.faithful && Ahead(r.lags, r.leaves - {p}))
  }

  ghost function After(events: seq<Event>): Outcome
    decreases |events|
  {
    if events == [] then Outcome(map[], map[], true)
    else Stepped(After(events[..|events| - 1]), events[|events| - 1])
  }

  lemma AfterOne(events: seq<Event>, e: Event)
    ensures After(events + [e]) == Stepped(After(events), e)
  {
    assert (events + [e])[..|events|] == events;
  }

  /** Fewer leaves take up fewer entries. */
  lemma {:induction false} UsedFromMono(leaves: map<Pos, Pte>, leaves': map<Pos, Pte>, t: Pos, i: nat)
    requires leaves'.Keys <= leaves.Keys && t.level >= 1 && i <= 512
    ensures UsedFrom(leaves', t, i) <= UsedFrom(leaves, t, i)
    decreases 512 - i
  {
    if i < 512 {
      UsedFromMono(leaves, leaves', t, i + 1);
    }
  }

  lemma AheadMono(lags: map<Pos, nat>, leaves: map<Pos, Pte>, leaves': map<Pos, Pte>)
    requires leaves'.Keys <= leaves.Keys && Ahead(lags, leaves')
    ensures Ahead(lags, leaves)
  {
    forall t | t in lags ensures t.level >= 1 && lags[t] < InUse(leaves, t) {
      UsedFromMono(leaves, leaves', t, 0);
    }
  }

  /** A run of unmappings goes well exactly if at its end every table keeps more entries than it is behind. */
  lemma {:induction false} AfterClears(events: seq<Event>, clears: seq<Event>)
    requires forall e :: e in clears ==> e.ClearFrame?
    ensures
      var r, r' := After(events), After(events + clears);
      && r'.lags == r.lags && r'.leaves.Keys <= r.leaves.Keys
      && (r'.faithful <==> r.faithful && (clears == [] || Ahead(r.lags, r'.leaves)))
    decreases |clears|
  {
    hide Ahead, After;
    if clears == [] {
      assert events + clears == events;
    } else {
      var n := |clears| - 1;
      assert forall e :: e in clears[..n] ==> e in clears;
      assert clears[n] in clears;
      AfterClears(events, clears[..n]);
      assert events + clears == (events + clears[..n]) + [clears[n]];
      AfterOne(events + clears[..n], clears[n]);
      var r1 := After(events + clears[..n]);
      if Ahead(r1.lags, r1.leaves - {clears[n].p}) {
        AheadMono(r1.lags, r1.leaves, r1.leaves - {clears[n].p});
      }
    }
  }

  /** A run of mappings never makes the source free a table. */
  lemma {:induction false} AfterSets(events: seq<Event>, sets: seq<Event>)
    requires forall e :: e in sets ==> e.SetFrame?
    ensures After(events + sets).faithful == After(events).faithful
    decreases |sets|
  {
    hide After, FirstFreeSlot;
    if sets == [] {
      assert events + sets == events;
    } else {
      var n := |sets| - 1;
      assert forall e :: e in sets[..n] ==> e in sets;
      assert sets[n] in sets;
      AfterSets(events, sets[..n]);
      assert events + sets == (events + sets[..n]) + [sets[n]];
      AfterOne(events + sets[..n], sets[n]);
    }
  }

  /** No mapping of a run meets entry 0 of its table as the first absent slot. */
  ghost predicate NeverStoresOver(events: seq<Event>)
    decreases |events|
  {
    events == [] ||
    var before, e := events[..|events| - 1], events[|events| - 1];
    && NeverStoresOver(before)
    && (e.SetFrame? ==> FirstFreeSlot(After(before).leaves, e.p).index % 512 != 0)
  }

  /** In such runs no packed count is ever behind. */
  lemma {:induction false} NothingBehind(events: seq<Event>)
    requires NeverStoresOver(events)
    ensures After(events).faithful && After(events).lags == map[]
    decreases |events|
  {
    hide FirstFreeSlot;
    if events != [] {
      NothingBehind(events[..|events| - 1]);
    }
  }

  function LagIn(lags: map<Pos, nat>, t: Pos): nat {
    if t in lags then lags[t] else 0
  }

  /** The tables are behind by just so much. */
  ghost predicate LagsRight(tables: Arena, at: map<Pos, FrameId>, lags: map<Pos, nat>) {
    && lags.Keys <= at.Keys && (forall t :: t in lags ==> lags[t] > 0)
    && forall t :: t in at ==> Lag(TableAt(tables, at, t)) == LagIn(lags, t)
  }

  /** No table looks empty exactly if each keeps more entries than the run says it is behind. */
  lemma AheadIs(tables: Arena, root: FrameId, at: map<Pos, FrameId>, leaves: map<Pos, Pte>, lags: map<Pos, nat>)
    requires Inv(tables, root, at, leaves, None, None) && LagsRight(tables, at, lags)
    ensures NoneEarly(tables, at) <==> Ahead(lags, leaves)
  {
    hide Inv, TableAt, Lag, InUse;
    forall t | t in at ensures t.level >= 1 && TableAt(tables, at, t).count == InUse(leaves, t) {
      InUseIs(tables, root, at, leaves, t);
    }
    if NoneEarly(tables, at) {
      forall t | t in lags ensures t.level >= 1 && lags[t] < InUse(leaves, t) {
        assert t in at && Lag(TableAt(tables, at, t)) == lags[t];
      }
    }
    if Ahead(lags, leaves) {
      forall t | t in at
        ensures Lag(TableAt(tables, at, t)) == 0 || Lag(TableAt(tables, at, t)) < TableAt(tables, at, t).count
      {
        assert Lag(TableAt(tables, at, t)) == LagIn(lags, t);
      }
    }
  }

  lemma MapLags(tables: Arena, root: FrameId, at: map<Pos, FrameId>, leaves: map<Pos, Pte>,
                tables': Arena, at': map<Pos, FrameId>, r: Outcome, p: FramePos, pte: Pte)
    requires Inv(tables, root, at, leaves, None, None) && LagsRight(tables, at, r.lags) && r.leaves == leaves
    requires Start(p) < MAX_USER_ADDR
    requires CountsAfterMap(tables, at, tables', at', At(FirstFree(at, Start(p), 4, p.level), Start(p)))
    ensures LagsRight(tables', at', Stepped(r, SetFrame(p, pte)).lags)
  {
    hide Inv, TableAt, Lag, InUse, FirstFree, FirstFreeLevel, At;
    FirstFreeIs(tables, root, at, leaves, Start(p), 4, p.level);
    var k := FirstFree(at, Start(p), 4, p.level);
    var q := At(k, Start(p));
    FirstFreeHasTable(tables, root, at, leaves, Start(p), k);
    CountBounds(tables, root, at, leaves, Parent(q));
    InUseIs(tables, root, at, leaves, Parent(q));
    MoreLags(tables, at, tables', at', q, r.lags, InUse(leaves, Parent(q)));
  }

  lemma MoreLags(tables: Arena, at: map<Pos, FrameId>, tables': Arena, at': map<Pos, FrameId>, q: Pos,
                 lags: map<Pos, nat>, n: nat)
    requires LagsRight(tables, at, lags) && CountsAfterMap(tables, at, tables', at', q) && Parent(q) in at
    requires 1 <= n < 2048 && TableAt(tables, at, Parent(q)).count == n
    ensures LagsRight(tables', at', if q.index % 512 == 0 then lags[Parent(q) := n] else lags)
  {
    hide TableAt, Lag;
    var lags' := if q.index % 512 == 0 then lags[Parent(q) := n] else lags;
    assert n % 2048 == n;
    forall t | t in at' ensures Lag(TableAt(tables', at', t)) == LagIn(lags', t) {
      if t in at {
        assert Lag(TableAt(tables, at, t)) == LagIn(lags, t);
      }
    }
  }

  lemma ClearLags(tables: Arena, at: map<Pos, FrameId>, tables': Arena, at': map<Pos, FrameId>, lags: map<Pos, nat>)
    requires LagsRight(tables, at, lags) && LagsKept(tables, at, tables', at')
    requires forall t :: t in at && t !in at' ==> Lag(TableAt(tables, at, t)) == 0
    ensures LagsRight(tables', at', lags)
  {
    hide TableAt, Lag;
    forall t | t in lags ensures t in at' {
      assert Lag(TableAt(tables, at, t)) == lags[t];
    }
    forall t | t in at' ensures Lag(TableAt(tables', at', t)) == LagIn(lags, t) {
      assert Lag(TableAt(tables', at', t)) == Lag(TableAt(tables, at, t));
    }
  }

  // ---------------------------------------------------------------------------------------
  // The address space

  /** The tables reached from CR3, and the frames the allocator can still hand out. */
  class AddressSpace {
    var tables: Arena
    const root: FrameId

    /** Which frame holds the table of a position. */
    ghost var at: map<Pos, FrameId>
    /** The pages mapped at this moment. */
    ghost var leaves: map<Pos, Pte>
    /** Whether every table was found empty, or not, by its packed count just as by its true one. */
    ghost var faithful: bool
    /** What has been done so far. */
    ghost var history: seq<Event>

    /** The tree is right, by the true counts. */
    ghost predicate Sound()
      reads this
    {
      Inv(tables, root, at, leaves, None, None)
    }

    /** The history says what is mapped, and whether and by what counts the source has freed the same tables. */
    ghost predicate Valid()
      reads this
    {
      && Sound()
      && leaves == After(history).leaves && faithful == After(history).faithful
      && (faithful ==> NoneEarly(tables, at) && LagsRight(tables, at, Lags()))
      && RootMarked(tables, at, leaves)
    }

    /** By how much packed counts are behind, as long as `faithful` holds. */
    ghost function Lags(): map<Pos, nat>
      reads this
    {
      After(history).lags
    }

    /** How many entries the packed count of the root is behind. */
    ghost function RootLag(): nat
      reads this
    {
      Lag(TableAt(tables, at, ROOT_POS))
    }

    /**
     `VirtMapper::new`: the kernel's half of memory is linked into the root, whose count starts
     at 1, so that by its true count it is never dropped.
     */
    constructor ()
      ensures Valid() && leaves == map[] && history == [] && faithful && CountsAgree(tables, at)
    {
      hide Inv, CountPresent, CountsAgree, NoneEarly, LagsRight, RootMarked, TableAt;
      var empty := EmptyTable();
      root := 0;
      tables := map[0 := PageTable(empty.entries[KERNEL_INDEX := KernelZone], 2, 2)];
      at := map[ROOT_POS := 0];
      leaves := map[];
      faithful, history := true, [];
      new;
      CountZero(empty.entries);
      CountUpdate(empty.entries, KERNEL_INDEX, KernelZone);
      RootAlone(tables, root, at);
      RootAloneCounts(tables, root, at);
    }

    /** `alloc_frame`: some frame that holds no table yet. */
    method AllocFrame() returns (f: FrameId)
      ensures f !in tables
    {
      FreshFrame(tables.Keys);
      f :| f !in tables;
    }

    /** `PageTable::set` */
    method Set(f: FrameId, i: nat, e: Entry)
      requires f in tables && i < |tables[f].entries| && e != Absent
      requires tables[f].entries[i] == Absent
      modifies this`tables
      ensures tables == old(tables)[f := WithEntry(old(tables[f]), i, e)]
    {
      var t := tables[f];
      tables := tables[f := PageTable(t.entries[i := e], t.count + 1, PackedCount.CountAfterSet(t.packed, i))];
    }

    /** `PageTable::get_or_alloc`, at position `p` of the walk. */
    method GetOrAlloc(f: FrameId, i: nat, ghost p: Pos, ghost hot: Option<Pos>) returns (child: FrameId)
      requires Inv(tables, root, at, leaves, hot, None) && (hot == None || hot == Some(Parent(p)))
      requires Parent(p) in at && at[Parent(p)] == f && i == p.index % 512
      requires 2 <= p.level <= 4 && p != Pos(4, KERNEL_INDEX) && p !in leaves
      modifies this
      ensures leaves == old(leaves) && p in at && at[p] == child
      ensures old(p in at) ==> tables == old(tables) && at == old(at)
      ensures Inv(tables, root, at, leaves, if old(p in at) then None else Some(p), None)
      ensures EntriesBut(old(tables), old(at), tables, at, p, Table(child))
      ensures !old(p in at) ==>
        CountsAfterMap(old(tables), old(at), tables, at, p) && TableAt(tables, at, p).count == 0
      ensures faithful == old(faithful) && history == old(history)
    {
      SlotEntry(tables, root, at, leaves, hot, p);
      hide Linked, HasLeaves, NoneEmpty, KernelMapped, Counted, Named, CountPresent, EntriesBut, EntryAt, Inv,
        CountsAfterMap;
      if tables[f].entries[i] != Absent {
        child := tables[f].entries[i].frame;
        NotEmpty(tables, root, at, leaves, hot, Parent(p), i);
      } else {
        child := NewTableAt(f, i, p, hot);
      }
    }

    /** `PageTable::new`, linked from entry `i` of the table in frame `f`. */
    method NewTableAt(f: FrameId, i: nat, ghost p: Pos, ghost hot: Option<Pos>) returns (child: FrameId)
      requires Inv(tables, root, at, leaves, hot, None) && (hot == None || hot == Some(Parent(p)))
      requires Parent(p) in at && at[Parent(p)] == f && i == p.index % 512
      requires 2 <= p.level <= 4 && p != Pos(4, KERNEL_INDEX) && p !in at
      requires EntryAt(tables, at, p) == Absent
      requires f in tables && i < |tables[f].entries| && tables[f].entries[i] == Absent
      modifies this
      ensures leaves == old(leaves) && p in at && at[p] == child
      ensures Inv(tables, root, at, leaves, Some(p), None)
      ensures EntriesBut(old(tables), old(at), tables, at, p, Table(child))
      ensures CountsAfterMap(old(tables), old(at), tables, at, p) && TableAt(tables, at, p).count == 0
      ensures faithful == old(faithful) && history == old(history)
    {
      hide Linked, HasLeaves, NoneEmpty, KernelMapped, Counted, Named, CountPresent, EntryAt, CountsAfterMap, TableAt;
      child := AllocFrame();
      LinkNewTable(tables, root, at, leaves, hot, p, child);
      LinkCounts(tables, root, at, p, child);
      Set(f, i, Table(child));
      tables := tables[child := EmptyTable()];
      at := at[p := child];
    }

    /** The `Map` arm of `map_internal`: walks down to the level of the frame, then sets the leaf. */
    method MapFrame(p: Pos, addr: nat, pte: Pte)
      requires Valid()
      requires 1 <= p.level <= 3 && End(p) <= MAX_USER_ADDR && addr == Start(p)
      requires forall l :: l in leaves ==> 1 <= l.level <= 3 && Apart(l, p)
      modifies this
      ensures Valid() && leaves == old(leaves)[p := pte] && history == old(history) + [SetFrame(p, pte)]
      ensures faithful == old(faithful)
      ensures old(RootLag()) != 0 || Start(p) < Span(4) ==> RootLag() != 0
      ensures
        var k := FirstFree(old(at), addr, 4, p.level);
        && CountsAfterMap(old(tables), old(at), tables, at, At(k, addr))
        && (old(CountsAgree(tables, at)) ==> (CountsAgree(tables, at) <==> Index(k, addr) != 0))
    {
      hide Inv, CountsAfterMap, CountsAgree, NoneEarly, TableAt, Lag, After, LagsRight, FirstFree, RootMarked;
      SlotFree(tables, root, at, leaves, p);
      AtStart(p);
      MapLeaf(p, addr, pte);
      MapMarksRoot(old(tables), root, old(at), old(leaves), tables, at, p, pte);
      ghost var k := FirstFree(old(at), addr, 4, p.level);
      AtIndex(k, addr);
      if old(CountsAgree(tables, at)) {
        FirstFreeHasTable(old(tables), root, old(at), old(leaves), addr, k);
        SmallCounts(tables, root, at, leaves);
        MapKeepsCounts(old(tables), root, old(at), old(leaves), tables, at, At(k, addr));
      }
      if faithful {
        MapKeepsNoneEarly(old(tables), root, old(at), old(leaves), tables, at, At(k, addr));
        MapLags(old(tables), root, old(at), old(leaves), tables, at, After(history), p, pte);
      }
      AfterOne(history, SetFrame(p, pte));
      history := history + [SetFrame(p, pte)];
    }

    /** The walk of that arm, with what it does to the tree. */
    method MapLeaf(p: Pos, addr: nat, pte: Pte)
      requires Sound()
      requires 1 <= p.level <= 3 && addr < MAX_USER_ADDR && At(p.level, addr) == p
      requires EntryAt(tables, at, p) == Absent
      requires forall k :: p.level <= k <= 4 ==> At(k, addr) !in leaves
      modifies this
      ensures Sound() && leaves == old(leaves)[p := pte] && faithful == old(faithful) && history == old(history)
      ensures CountsAfterMap(old(tables), old(at), tables, at, At(FirstFree(old(at), addr, 4, p.level), addr))
    {
      hide Linked, HasLeaves, NoneEmpty, KernelMapped, CountsAfterMap, TableAt;
      var f;
      ghost var hot;
      f, hot := Descend(p, addr);
      AtIndex(p.level, addr);
      SetLeaf(tables, root, at, leaves, hot, p, pte);
      SetCounts(tables, root, at, p, Leaf(pte));
      ghost var tables1 := tables;
      assert EntryAt(tables, at, p) == tables[f].entries[Index(p.level, addr)];
      Set(f, Index(p.level, addr), Leaf(pte));
      leaves := leaves[p := pte];
      ghost var k := FirstFree(old(at), addr, 4, p.level);
      if k > p.level {
        CountsGoOn(old(tables), old(at), tables1, at, tables, at, At(k, addr), p);
      }
    }

    /** The part of that walk above the leaf: finds or makes the table the leaf goes into. */
    method Descend(p: Pos, addr: nat) returns (f: FrameId, ghost hot: Option<Pos>)
      requires Sound()
      requires 1 <= p.level <= 3 && addr < MAX_USER_ADDR && At(p.level, addr) == p
      requires EntryAt(tables, at, p) == Absent
      requires forall k :: p.level <= k <= 4 ==> At(k, addr) !in leaves
      modifies this
      ensures leaves == old(leaves) && faithful == old(faithful) && history == old(history)
      ensures Inv(tables, root, at, leaves, hot, None)
      ensures Parent(p) in at && at[Parent(p)] == f && (hot == None || hot == Some(Parent(p)))
      ensures EntryAt(tables, at, p) == Absent
      ensures
        var k := FirstFree(old(at), addr, 4, p.level);
        if k == p.level then tables == old(tables) && at == old(at)
        else
          && CountsAfterMap(old(tables), old(at), tables, at, At(k, addr))
          && Parent(p) !in old(at) && TableAt(tables, at, Parent(p)).count == 0
    {
      hide Inv, CountsAfterMap, TableAt, WalkCounts, FirstFree, EntriesBut, EntryAt, At;
      UserPositions(5, addr);
      RootStays(tables, root, at, leaves);
      ghost var k := FirstFree(at, addr, 4, p.level);
      WalkBegins(tables, at, addr, k);
      var level := 4;
      f, hot := root, None;
      while level > p.level
        invariant p.level <= level <= 4
        invariant At(level + 1, addr) in at && at[At(level + 1, addr)] == f
        invariant hot == None || hot == Some(At(level + 1, addr))
        invariant Inv(tables, root, at, leaves, hot, None)
        invariant leaves == old(leaves) && EntryAt(tables, at, p) == Absent
        invariant faithful == old(faithful) && history == old(history)
        invariant WalkCounts(old(tables), old(at), tables, at, addr, level, k)
      {
        AtIndex(level, addr);
        UserPositions(level, addr);
        ghost var known := At(level, addr) in at;
        ghost var tables1, at1 := tables, at;
        WalkOn(old(tables), old(at), tables1, root, at1, leaves, hot, addr, level, k);
        f := GetOrAlloc(f, Index(level, addr), At(level, addr), hot);
        WalkCountsStep(old(tables), old(at), tables1, at1, tables, at, addr, level, k);
        StillAbsent(tables1, at1, tables, at, p, At(level, addr), Table(f));
        hot := if known then None else Some(At(level, addr));
        level := level - 1;
      }
      WalkEnds(old(tables), old(at), tables, at, addr, p, k);
      AtIndex(p.level, addr);
    }

    /**
     `PageTable::remove`, at position `p`: true if the table was dropped as well.  The slot is a
     leaf, links to a table just dropped, or is absent, and then nothing happens.
     */
    method Remove(f: FrameId, i: nat, ghost p: Pos, ghost dangling: Option<Pos>) returns (dropped: bool)
      requires Inv(tables, root, at, leaves, None, dangling)
      requires Parent(p) in at && at[Parent(p)] == f && i == p.index % 512
      requires p != Pos(4, KERNEL_INDEX) && p !in at
      requires
        if dangling == None then p in leaves || EntryAt(tables, at, p) == Absent
        else p !in leaves && dangling == Some(p) && EntryAt(tables, at, p).Table?
      modifies this
      ensures leaves == old(leaves) - {p} && history == old(history)
      ensures !dropped ==> Sound() && at == old(at)
      ensures dropped ==>
        && Parent(p).level <= 4 && at == old(at) - {Parent(p)}
        && Inv(tables, root, at, leaves, None, Some(Parent(p)))
        && EntryAt(tables, at, Parent(p)).Table? && Parent(Parent(p)) in at
      ensures
        if old(EntryAt(tables, at, p)) == Absent then !dropped && tables == old(tables) && faithful == old(faithful)
        else
          && OneCleared(old(tables), old(at), tables, at, Parent(p))
          && (faithful <==> old(faithful) && old(TestAgrees(TableAt(tables, at, Parent(p)))))
    {
      hide EntryAt, Inv, Counted, Named, OneCleared, TestAgrees, TableAt, WithEntry;
      RemovableEntry(tables, root, at, leaves, p, dangling);
      var t := tables[f];
      if t.entries[i] != Absent {
        ClearCounts(tables, root, at, p);
        ClearSlot(f, i, p, dangling);
        dropped := FreeIfEmpty(f, Parent(p));
      } else {
        dropped := false;
      }
    }

    /** Clears an entry in use and counts it off. */
    method ClearSlot(f: FrameId, i: nat, ghost p: Pos, ghost dangling: Option<Pos>)
      requires Inv(tables, root, at, leaves, None, dangling)
      requires Parent(p) in at && at[Parent(p)] == f && i == p.index % 512
      requires f in tables && i < |tables[f].entries| && tables[f].entries[i] != Absent
      requires p != Pos(4, KERNEL_INDEX) && p !in at
      requires if p in leaves then dangling == None else dangling == Some(p) && EntryAt(tables, at, p).Table?
      modifies this`tables, this`leaves
      ensures leaves == old(leaves) - {p} && tables == old(tables)[f := WithEntry(old(tables[f]), i, Absent)]
      ensures Inv(tables, root, at, leaves, Some(Parent(p)), None)
    {
      hide Linked, HasLeaves, NoneEmpty, KernelMapped, Counted, Named, CountPresent, EntryAt;
      ClearEntry(tables, root, at, leaves, p, dangling);
      var t := tables[f];
      tables := tables[f := PageTable(t.entries[i := Absent], t.count - 1, PackedCount.CountAfterRemove(t.packed))];
      leaves := leaves - {p};
    }

    /**
     `PageTable::free_if_empty`, for the table at position `t`.  The test is that of the true
     count; `faithful` notes whether the test of the packed count would have come out the same.
     */
    method FreeIfEmpty(f: FrameId, ghost t: Pos) returns (freed: bool)
      requires Inv(tables, root, at, leaves, Some(t), None) && t in at && at[t] == f
      modifies this
      ensures leaves == old(leaves) && history == old(history)
      ensures freed <==> old(tables[f].count) == 0
      ensures faithful <==> old(faithful) && (freed <==> old(tables[f].packed) == 0)
      ensures !freed ==> Sound() && at == old(at) && tables == old(tables)
      ensures freed ==>
        && t.level <= 4 && at == old(at) - {t} && tables == old(tables) - {f}
        && Inv(tables, root, at, leaves, None, Some(t))
        && EntryAt(tables, at, t).Table? && Parent(t) in at
    {
      hide Linked, HasLeaves, NoneEmpty, KernelMapped, CountPresent, EntryAt;
      faithful := faithful && (tables[f].packed == 0 <==> tables[f].count == 0);
      if tables[f].count == 0 {
        FreeTable(tables, root, at, leaves, t);
        tables := tables - {f};
        at := at - {t};
        freed := true;
      } else {
        Settled(tables, root, at, leaves, t);
        freed := false;
      }
    }

    /**
     The `Unmap` arm of `map_internal`: collects the tables on the way down to the level of the
     frame, then removes entries upwards as long as tables are dropped.  By the packed counts the
     same tables are freed exactly if the lowest table of the walk that has another entry in use
     keeps more than its packed count is behind, or, said by the leaves, if every table does.
     */
    method UnmapFrame(p: Pos, addr: nat)
      requires Valid()
      requires p in leaves && addr == Start(p) && End(p) <= MAX_USER_ADDR
      modifies this
      ensures Valid() && leaves == old(leaves) - {p} && history == old(history) + [ClearFrame(p)]
      ensures RootLag() == old(RootLag()) && Lags() == old(Lags())
      ensures faithful <==> old(faithful) && Ahead(old(Lags()), old(leaves) - {p})
      ensures
        var x := old(TableAt(tables, at, At(LowestKept(tables, at, addr, p.level + 1), addr)));
        faithful <==> old(faithful) && (Lag(x) == 0 || Lag(x) < x.count - 1)
      ensures old(CountsAgree(tables, at)) ==> CountsAgree(tables, at)
    {
      hide Inv, NoneEarly, TableAt, Lag, EntryAt, LagsKept, CountsAgree, CountsAfterUnmap, After, LagsRight, Ahead,
        RootMarked;
      AtStart(p);
      LeafHasNoTable(tables, root, at, leaves, p);
      var path := TablesOnPath(p.level, addr);
      ghost var k := RemoveUpwards(path, p.level, addr);
      UnmapLags(old(tables), old(at), old(faithful), tables, at, faithful, addr, p.level, k);
      UnmapSurvivor(old(tables), old(at), old(faithful), tables, at, faithful, addr, p.level, k);
      RootStays(tables, root, at, leaves);
      RootKept(old(tables), old(at), tables, at);
      UnmapMarksRoot(old(tables), old(at), old(leaves), tables, at, p);
      if old(faithful) {
        ClearLags(old(tables), old(at), tables, at, Lags());
        AheadIs(tables, root, at, leaves, Lags());
      }
      AfterOne(history, ClearFrame(p));
      history := history + [ClearFrame(p)];
      if old(CountsAgree(tables, at)) {
        SmallCounts(tables, root, at, leaves);
        UnmapKeepsCounts(old(tables), old(at), tables, at);
      }
    }

    /** The second half of that arm. */
    method RemoveUpwards(path: seq<FrameId>, depth: nat, addr: nat) returns (ghost k: nat)
      requires Removable(depth, addr) && At(depth, addr) in leaves && |path| == 5 - depth
      requires forall k :: depth < k <= 5 ==> At(k, addr) in at && at[At(k, addr)] == path[5 - k]
      modifies this
      ensures Sound() && leaves == old(leaves) - {At(depth, addr)} && history == old(history)
      ensures depth < k <= 5
      ensures CountsAfterUnmap(old(tables), old(at), old(faithful), tables, at, faithful, addr, depth, k)
    {
      hide Inv, EntryAt, At, TableAt, Lag, FreedBelow, CountsAfterUnmap, OneCleared, TestAgrees;
      ghost var before := at;
      var level := depth;
      NothingFreed(tables, at, faithful, addr, depth);
      var dropped := RemoveOnPath(path, level, addr);
      FreedUpTo(old(tables), old(at), old(faithful), old(tables), old(at), old(faithful), tables, at, faithful, addr,
                depth, level + 1);
      while dropped
        invariant depth <= level <= 4 && leaves == old(leaves) - {At(depth, addr)} && history == old(history)
        invariant if dropped then level < 4 && Removable(level + 1, addr) else Sound()
        invariant dropped ==>
          FreedBelow(old(tables), old(at), old(faithful), tables, at, faithful, addr, depth, level + 2)
        invariant !dropped ==>
          CountsAfterUnmap(old(tables), old(at), old(faithful), tables, at, faithful, addr, depth, level + 1)
        invariant dropped ==> At(level + 1, addr) !in leaves
        invariant forall t :: t in at ==> t in before && at[t] == before[t]
        decreases 4 - level
      {
        level := level + 1;
        ghost var tables1, at1, faithful1 := tables, at, faithful;
        dropped := RemoveOnPath(path, level, addr);
        FreedUpTo(old(tables), old(at), old(faithful), tables1, at1, faithful1, tables, at, faithful, addr,
                  depth, level + 1);
      }
      k := level + 1;
    }

    /** The slot of this address at this level is a leaf, or links to a table just dropped. */
    ghost predicate Removable(level: nat, addr: nat)
      reads this
    {
      && 1 <= level <= 4 && addr < MAX_USER_ADDR
      && var p := At(level, addr);
      && p !in at && At(level + 1, addr) in at
      && if p in leaves then Sound() else Inv(tables, root, at, leaves, None, Some(p)) && EntryAt(tables, at, p).Table?
    }

    /** One round of that loop. */
    method RemoveOnPath(path: seq<FrameId>, level: nat, addr: nat) returns (dropped: bool)
      requires Removable(level, addr) && 5 - level <= |path| && path[4 - level] == at[At(level + 1, addr)]
      modifies this
      ensures leaves == if At(level, addr) in old(leaves) then old(leaves) - {At(level, addr)} else old(leaves)
      ensures history == old(history)
      ensures if dropped then level < 4 && Removable(level + 1, addr) else Sound()
      ensures OneCleared(old(tables), old(at), tables, at, At(level + 1, addr))
      ensures faithful <==> old(faithful) && old(TestAgrees(TableAt(tables, at, At(level + 1, addr))))
      ensures at == if dropped then old(at) - {At(level + 1, addr)} else old(at)
      ensures dropped ==> At(level + 1, addr) !in leaves
    {
      hide Linked, NoneEmpty, Counted, KernelMapped, Named, OneCleared, TestAgrees, TableAt;
      AtIndex(level, addr);
      UserPositions(level, addr);
      ghost var p := At(level, addr);
      dropped := Remove(path[4 - level], Index(level, addr), p, if p in leaves then None else Some(p));
    }

    /** The tables that translate an address, from the root down to this level. */
    method TablesOnPath(level: nat, addr: nat) returns (path: seq<FrameId>)
      requires Sound()
      requires 1 <= level <= 3 && addr < MAX_USER_ADDR && EntryAt(tables, at, At(level, addr)) != Absent
      ensures |path| == 5 - level
      ensures forall k :: level < k <= 5 ==> At(k, addr) in at && at[At(k, addr)] == path[5 - k]
    {
      hide HasLeaves, NoneEmpty, KernelMapped, CountPresent;
      UserPositions(5, addr);
      path := [root];
      var k := 4;
      while k > level
        invariant level <= k <= 4 && |path| == 5 - k
        invariant forall j :: k < j <= 5 ==> At(j, addr) in at && at[At(j, addr)] == path[5 - j]
      {
        TablesAbove(tables, at, level, addr, k - 1);
        AtIndex(k, addr);
        LinkAt(tables, root, at, k, addr);
        path := path + [tables[path[4 - k]].entries[Index(k, addr)].frame];
        k := k - 1;
      }
    }

    /** What the processor makes of an address while this address space is loaded. */
    function Translate(addr: nat): Option<Pte>
      reads this
    {
      Translated(Walk(tables, root, 4, addr), addr)
    }
  }

  /** The entry a walk reads in an existing table, when the table below exists too. */
  lemma LinkAt(tables: Arena, root: FrameId, at: map<Pos, FrameId>, level: nat, addr: nat)
    requires Named(tables, root, at) && Counted(tables, root) && Linked(tables, at, None)
    requires 1 <= level <= 4 && At(level, addr) in at && At(level + 1, addr) in at
    ensures tables[at[At(level + 1, addr)]].entries[Index(level, addr)] == Table(at[At(level, addr)])
  {
    AtIndex(level, addr);
    assert EntryAt(tables, at, At(level, addr)) == Table(at[At(level, addr)]);
  }

  /** The entry `remove` is called for. */
  lemma RemovableEntry(tables: Arena, root: FrameId, at: map<Pos, FrameId>, leaves: map<Pos, Pte>,
                       p: Pos, dangling: Option<Pos>)
    requires Inv(tables, root, at, leaves, None, dangling)
    requires Parent(p) in at
    ensures at[Parent(p)] in tables && |tables[at[Parent(p)]].entries| == 512
    ensures tables[at[Parent(p)]].entries[p.index % 512] == EntryAt(tables, at, p)
    ensures p in leaves ==> EntryAt(tables, at, p) != Absent
    ensures Named(tables, root, at) && Counted(tables, root)
  {
    assert EntryAt(tables, at, p) == tables[at[Parent(p)]].entries[p.index % 512];
  }

  lemma LeafHasNoTable(tables: Arena, root: FrameId, at: map<Pos, FrameId>, leaves: map<Pos, Pte>, p: Pos)
    requires Inv(tables, root, at, leaves, None, None) && p in leaves
    ensures p !in at && p != Pos(4, KERNEL_INDEX) && 1 <= p.level <= 3 && EntryAt(tables, at, p).Leaf?
  {
    assert EntryAt(tables, at, p).Leaf?;
  }

  /**
   An address space in which a page below 512 GiB was mapped, and from which all pages are
   unmapped again, has lost its root, or another table before, with an entry in use.
   */
  lemma EmptiedSpaceIsLost(space: AddressSpace)
    requires space.Valid() && space.leaves == map[] && space.RootLag() != 0
    ensures !space.faithful
  {
    hide Linked, HasLeaves, NoneEmpty;
    EmptyRoot(space.tables, space.root, space.at);
  }

  lemma RootLagIs(space: AddressSpace)
    requires space.Valid() && space.faithful
    ensures space.RootLag() == LagIn(space.Lags(), ROOT_POS)
  {
    hide NoneEarly, RootMarked, Lag, TableAt, After;
    RootStays(space.tables, space.root, space.at, space.leaves);
  }

  /** Without leaves there is nothing in the root but the link to the kernel. */
  lemma EmptyRoot(tables: Arena, root: FrameId, at: map<Pos, FrameId>)
    requires Inv(tables, root, at, map[], None, None)
    ensures TableAt(tables, at, ROOT_POS).count == 2
  {
    var es := tables[root].entries;
    forall i | 0 <= i < 512 ensures es[i] == if i == KERNEL_INDEX then KernelZone else Absent {
      EmptyRootEntry(tables, root, at, i);
    }
    CountZero(EmptyTable().entries);
    CountUpdate(EmptyTable().entries, KERNEL_INDEX, KernelZone);
    assert es == EmptyTable().entries[KERNEL_INDEX := KernelZone];
  }

  lemma EmptyRootEntry(tables: Arena, root: FrameId, at: map<Pos, FrameId>, i: nat)
    requires Inv(tables, root, at, map[], None, None) && i < 512
    ensures |tables[root].entries| == 512 && tables[root].entries[i] == if i == KERNEL_INDEX then KernelZone else Absent
  {
    assert EntryAt(tables, at, Pos(4, i)) == tables[root].entries[i];
    TablesAreNeeded(tables, root, at, map[], Pos(4, i));
  }

  lemma RootAloneCounts(tables: Arena, root: FrameId, at: map<Pos, FrameId>)
    requires at == map[ROOT_POS := root] && root in tables && tables[root].count == tables[root].packed == 2
    ensures CountsAgree(tables, at) && NoneEarly(tables, at) && LagsRight(tables, at, map[])
    ensures RootMarked(tables, at, map[])
  {
    assert TableAt(tables, at, ROOT_POS) == tables[root];
  }

  lemma RootAlone(tables: Arena, root: FrameId, at: map<Pos, FrameId>)
    requires at == map[ROOT_POS := root]
    requires tables.Keys == {root} && tables[root].entries == EmptyTable().entries[KERNEL_INDEX := KernelZone]
    requires tables[root].count == 1 + CountPresent(tables[root].entries)
    ensures Inv(tables, root, at, map[], None, None)
  {
    forall p ensures EntryAt(tables, at, p) == if p == Pos(4, KERNEL_INDEX) then KernelZone else Absent {
      if Parent(p) == ROOT_POS {
        assert p.index < 512;
      }
    }
    assert at[ROOT_POS] == root;
  }

  lemma FreshFrame(s: set<FrameId>)
    ensures exists f: FrameId :: f !in s
  {
    var f := AboveAll(s);
    assert f !in s;
  }

  lemma {:induction false} AboveAll(s: set<FrameId>) returns (f: FrameId)
    ensures forall g :: g in s ==> g < f
  {
    if s == {} {
      f := 0;
    } else {
      var h :| h in s;
      var f' := AboveAll(s - {h});
      f := if f' <= h then h + 1 else f';
      assert forall g :: g in s ==> g == h || g in s - {h};
    }
  }

  // ---------------------------------------------------------------------------------------
  // Which leaf covers an address

  ghost predicate Covers(l: Pos, addr: nat)
    requires 1 <= l.level <= 5
  {
    Start(l) <= addr < End(l)
  }

  ghost predicate GoodLeaves(leaves: map<Pos, Pte>) {
    && (forall l :: l in leaves ==> 1 <= l.level <= 3)
    && (forall l, m :: l in leaves && m in leaves && l != m ==> Apart(l, m))
  }

  lemma ValidLeavesGood(tables: Arena, root: FrameId, at: map<Pos, FrameId>, leaves: map<Pos, Pte>)
    requires Inv(tables, root, at, leaves, None, None)
    ensures GoodLeaves(leaves)
  {
    forall l, m | l in leaves && m in leaves && l != m ensures Apart(l, m) {
      if l.level <= m.level {
        LeavesApart(tables, at, leaves, l, m);
      } else {
        LeavesApart(tables, at, leaves, m, l);
      }
    }
  }

  lemma {:induction false} LeafOverCovers(leaves: map<Pos, Pte>, level: nat, addr: nat)
    requires GoodLeaves(leaves) && level <= 4
    ensures var r := LeafOver(leaves, level, addr);
      r.Some? ==>
        var l := At(r.value.level, addr);
        l in leaves && leaves[l] == r.value.pte && Covers(l, addr)
    decreases level
  {
    if level > 0 {
      AtCovers(level, addr);
      LeafOverCovers(leaves, level - 1, addr);
    }
  }

  /** The leaf that covers an address is the one a walk finds. */
  lemma {:induction false} CoveringLeafFound(leaves: map<Pos, Pte>, l: Pos, level: nat, addr: nat)
    requires GoodLeaves(leaves) && l in leaves && l.level <= level <= 4 && Covers(l, addr)
    ensures LeafOver(leaves, level, addr) == Some(Found(l.level, leaves[l]))
    decreases level
  {
    AtUnique(l, addr);
    if level > l.level {
      var m := At(level, addr);
      AtCovers(level, addr);
      assert m in leaves ==> Apart(l, m);
      CoveringLeafFound(leaves, l, level - 1, addr);
    }
  }

  /** A walk finds a leaf exactly when some leaf covers the address. */
  lemma NoCoveringLeaf(leaves: map<Pos, Pte>, addr: nat)
    requires GoodLeaves(leaves)
    ensures LeafOver(leaves, 4, addr) == None <==> forall l :: l in leaves ==> !Covers(l, addr)
  {
    LeafOverCovers(leaves, 4, addr);
    if l :| l in leaves && Covers(l, addr) {
      CoveringLeafFound(leaves, l, 4, addr);
    }
  }

  /** Mapping a frame translates the frame, and changes the translation of nothing else. */
  lemma MapChangesOnlyFrame(leaves: map<Pos, Pte>, p: Pos, pte: Pte, addr: nat)
    requires GoodLeaves(leaves) && 1 <= p.level <= 3
    requires forall l :: l in leaves ==> Apart(l, p)
    ensures LeafOver(leaves[p := pte], 4, addr) ==
      if Covers(p, addr) then Some(Found(p.level, pte)) else LeafOver(leaves, 4, addr)
  {
    var leaves' := leaves[p := pte];
    AtStart(p);
    assert p !in leaves;
    assert GoodLeaves(leaves');
    if Covers(p, addr) {
      CoveringLeafFound(leaves', p, 4, addr);
    } else {
      SameCover(leaves, leaves', addr);
    }
  }

  /** Unmapping a frame leaves it untranslated, and changes the translation of nothing else. */
  lemma UnmapChangesOnlyFrame(leaves: map<Pos, Pte>, p: Pos, addr: nat)
    requires GoodLeaves(leaves) && p in leaves
    ensures LeafOver(leaves - {p}, 4, addr) ==
      if Covers(p, addr) then None else LeafOver(leaves, 4, addr)
  {
    var leaves' := leaves - {p};
    assert GoodLeaves(leaves');
    if Covers(p, addr) {
      NoCoveringLeaf(leaves', addr);
      forall l | l in leaves' ensures !Covers(l, addr) {
        assert Apart(l, p);
      }
    } else {
      SameCover(leaves, leaves', addr);
    }
  }

  /** Sets of leaves that agree around an address translate it alike. */
  lemma SameCover(leaves: map<Pos, Pte>, leaves': map<Pos, Pte>, addr: nat)
    requires GoodLeaves(leaves) && GoodLeaves(leaves')
    requires forall l: Pos :: 1 <= l.level <= 3 && Covers(l, addr) ==>
      (l in leaves <==> l in leaves') && (l in leaves ==> leaves[l] == leaves'[l])
    ensures LeafOver(leaves, 4, addr) == LeafOver(leaves', 4, addr)
  {
    LeafOverCovers(leaves, 4, addr);
    LeafOverCovers(leaves', 4, addr);
    var r, r' := LeafOver(leaves, 4, addr), LeafOver(leaves', 4, addr);
    if r.Some? {
      CoveringLeafFound(leaves', At(r.value.level, addr), 4, addr);
    } else if r'.Some? {
      CoveringLeafFound(leaves, At(r'.value.level, addr), 4, addr);
    }
  }

  /** The processor's view of a valid address space is the flat meaning of its leaves. */
  lemma TranslateIsFlat(space: AddressSpace, addr: nat)
    requires space.Valid() && addr < MAX_USER_ADDR
    ensures space.Translate(addr) == Translated(LeafOver(space.leaves, 4, addr), addr)
    ensures GoodLeaves(space.leaves)
  {
    UserPositions(5, addr);
    WalkFindsLeaf(space.tables, space.root, space.at, space.leaves, 4, addr);
    ValidLeavesGood(space.tables, space.root, space.at, space.leaves);
  }

  /** A page below 512 GiB is never mapped without the packed count of the root falling behind. */
  lemma LowPageLagsRoot(space: AddressSpace, addr: nat)
    requires space.Valid() && addr < Span(4) && space.Translate(addr).Some?
    ensures space.RootLag() != 0
  {
    hide Inv, NoneEarly, Lag, TableAt, At;
    TranslateIsFlat(space, addr);
    LeafOverCovers(space.leaves, 4, addr);
    var l := At(LeafOver(space.leaves, 4, addr).value.level, addr);
    assert l in space.leaves && 1 <= l.level <= 3 && Start(l) <= addr;
  }
}
