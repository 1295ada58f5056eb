/**
 How a page table of kernel/src/mem/virt_alloc.rs keeps its number of entries in use: in
 bits 52 to 62 of the word that holds entry 0.

 `set` stores the new entry over the whole word, so setting entry 0 forgets the count of the
 entries set before it.  Here a word is taken apart into the fields the masks of the source
 select, to say exactly which runs keep the count right, and what happens in others.  Module
 `PageTables` carries the count through the walks of `map_internal`.
 */
module PackedCount {

  /** A count of eleven bits. */
  type Bits11 = n: nat | n < 2048

  /** What `set` makes of the count: it starts anew if the word it lies in is stored over. */
  function CountAfterSet(count: Bits11, index: nat): Bits11 {
    if index == 0 then 1 else (count + 1) % 2048
  }

  /** What `remove` makes of the count. */
  function CountAfterRemove(count: Bits11): Bits11 {
    (count - 1) % 2048
  }

  /** A 64-bit word: the present bit, bits 1 to 51, the eleven bits of the count, bit 63. */
  datatype Word = Word(present: bool, addrAndFlags: nat, count: Bits11, noExec: bool) {
    ghost predicate Valid() {
      addrAndFlags < 0x8_0000_0000_0000
    }

    /** `set_count`, on the word of entry 0: keeps the low eleven bits of `n`. */
    function WithCount(n: int): Word {
      this.(count := n % 2048)
    }
  }

  /** A pointer as `set` gets it: present, and clear in the bits of the count. */
  ghost predicate GoodPointer(ptr: Word) {
    ptr.Valid() && ptr.present && ptr.count == 0
  }

  ghost predicate SamePointer(v: Word, w: Word) {
    v.present == w.present && v.addrAndFlags == w.addrAndFlags && v.noExec == w.noExec
  }

  class RawTable {
    const words: array<Word>

    ghost predicate Valid()
      reads this, words
    {
      GoodWords(words[..])
    }

    /** How many entries are present. */
    ghost function Present(): nat
      reads words
    {
      CountPresent(words[..])
    }

    /** `PageTable::count` */
    function Count(): Bits11
      requires words.Length == 512
      reads words
    {
      words[0].count
    }

    /** `inc_count`; the cast to `usize` and the mask of `set_count` wrap around. */
    method IncCount(n: int)
      requires words.Length == 512
      modifies words
      ensures words[..] == old(words[..])[0 := old(words[0]).WithCount(old(Count()) + n)]
    {
      words[0] := words[0].WithCount(words[0].count + n);
    }

    /** `PageTable::set` */
    method Set(index: nat, ptr: Word)
      requires Valid() && index < 512 && GoodPointer(ptr) && !words[index].present
      modifies words
      ensures Valid() && words[..] == After(old(words[..]), SetOp(index, ptr))
      ensures SamePointer(words[index], ptr) && Present() == old(Present()) + 1
      ensures forall i :: 0 <= i < 512 && i != index ==> SamePointer(words[i], old(words[i]))
      ensures Count() == CountAfterSet(old(Count()), index)
    {
      ghost var before := words[..];
      words[index] := ptr;
      IncCount(1);
      PresentSet(before, words[..], index);
    }

    /** `PageTable::remove`, up to the question whether the table is to be freed. */
    method Remove(index: nat) returns (empty: bool)
      requires Valid() && index < 512
      modifies words
      ensures Valid() && words[..] == After(old(words[..]), RemoveOp(index))
      ensures !words[index].present
      ensures Present() == old(Present()) - (if old(words[index].present) then 1 else 0)
      ensures forall i :: 0 <= i < 512 && i != index ==> SamePointer(words[i], old(words[i]))
      ensures old(words[index].present) ==>
        Count() == CountAfterRemove(old(Count())) && (empty <==> Count() == 0)
      ensures !old(words[index].present) ==> !empty && words[..] == old(words[..])
    {
      if words[index].present {
        ghost var before := words[..];
        words[index] := words[index].(present := false);
        IncCount(-1);
        PresentSet(words[..], before, index);
        empty := Count() == 0;
      } else {
        empty := false;
      }
    }
  }

  ghost predicate GoodWords(ws: seq<Word>) {
    |ws| == 512 && forall i :: 0 <= i < 512 ==> ws[i].Valid()
  }

  ghost function CountPresent(ws: seq<Word>): (n: nat)
    ensures n <= |ws|
  {
    if ws == [] then 0 else (if ws[0].present then 1 else 0) + CountPresent(ws[1..])
  }

  lemma {:induction false} PresentSet(v: seq<Word>, w: seq<Word>, i: nat)
    requires |v| == |w| && i < |v| && !v[i].present && w[i].present
    requires forall j :: 0 <= j < |v| && j != i ==> v[j].present == w[j].present
    ensures CountPresent(w) == CountPresent(v) + 1
  {
    if i == 0 {
      PresentSame(v[1..], w[1..]);
    } else {
      PresentSet(v[1..], w[1..], i - 1);
    }
  }

  lemma {:induction false} PresentSame(v: seq<Word>, w: seq<Word>)
    requires |v| == |w| && forall j :: 0 <= j < |v| ==> v[j].present == w[j].present
    ensures CountPresent(w) == CountPresent(v)
  {
    if v != [] {
      PresentSame(v[1..], w[1..]);
    }
  }

  // ---------------------------------------------------------------------------------------
  // Runs of one table

  datatype Op = SetOp(index: nat, ptr: Word) | RemoveOp(index: nat)

  /** `set` asserts that the slot is absent; `remove` may be called for any slot. */
  ghost predicate Can(ws: seq<Word>, op: Op) {
    && GoodWords(ws) && op.index < 512
    && (op.SetOp? ==> GoodPointer(op.ptr) && !ws[op.index].present)
  }

  function After(ws: seq<Word>, op: Op): seq<Word>
    requires |ws| == 512 && op.index < 512
  {
    match op
    case SetOp(i, ptr) =>
      var stored := ws[i := ptr];
      stored[0 := stored[0].WithCount(stored[0].count + 1)]
    case RemoveOp(i) =>
      if !ws[i].present then ws
      else
        var cleared := ws[i := ws[i].(present := false)];
        cleared[0 := cleared[0].WithCount(cleared[0].count - 1)]
  }

  ghost predicate CanRun(ws: seq<Word>, ops: seq<Op>)
    decreases |ops|
  {
    ops == [] || (Can(ws, ops[0]) && CanRun(After(ws, ops[0]), ops[1..]))
  }

  /**
   The count says how many entries are present.  `base` is 1 for the root, whose count starts
   at 1 so that it is never dropped, and 0 for all other tables.
   */
  ghost predicate CountRight(ws: seq<Word>, base: nat)
    requires |ws| == 512
  {
    ws[0].count == CountPresent(ws) + base
  }

  /** The count is right in every state of a run. */
  ghost predicate AlwaysRight(ws: seq<Word>, base: nat, ops: seq<Op>)
    requires |ws| == 512 && CanRun(ws, ops)
    decreases |ops|
  {
    CountRight(ws, base) && (ops == [] || AlwaysRight(After(ws, ops[0]), base, ops[1..]))
  }

  /** No step of a run sets entry 0 while the count is not zero. */
  ghost predicate NeverOverwrites(ws: seq<Word>, ops: seq<Op>)
    requires |ws| == 512 && CanRun(ws, ops)
    decreases |ops|
  {
    ops == [] ||
    (!(ops[0].SetOp? && ops[0].index == 0 && ws[0].count != 0) && NeverOverwrites(After(ws, ops[0]), ops[1..]))
  }

  /** One `set` keeps a right count right exactly if it does not overwrite it. */
  lemma SetKeepsCount(ws: seq<Word>, base: nat, index: nat, ptr: Word)
    requires Can(ws, SetOp(index, ptr)) && base <= 1 && CountRight(ws, base)
    ensures CountRight(After(ws, SetOp(index, ptr)), base) <==> index != 0 || ws[0].count == 0
  {
    var ws' := After(ws, SetOp(index, ptr));
    PresentSet(ws, ws', index);
    assert CountPresent(ws') == CountPresent(ws) + 1 && CountPresent(ws') <= 512;
  }

  /** A `remove` always keeps a right count right. */
  lemma RemoveKeepsCount(ws: seq<Word>, base: nat, index: nat)
    requires Can(ws, RemoveOp(index)) && base <= 1 && CountRight(ws, base)
    ensures CountRight(After(ws, RemoveOp(index)), base)
  {
    if ws[index].present {
      PresentSet(After(ws, RemoveOp(index)), ws, index);
    }
  }

  /**
   From a right count on, the count stays right through a whole run exactly if no step of it
   sets entry 0 of a table whose count is not zero.
   */
  lemma {:induction false} CountStaysRight(ws: seq<Word>, base: nat, ops: seq<Op>)
    requires |ws| == 512 && CanRun(ws, ops) && base <= 1 && CountRight(ws, base)
    ensures AlwaysRight(ws, base, ops) <==> NeverOverwrites(ws, ops)
    decreases |ops|
  {
    if ops != [] {
      var ws' := After(ws, ops[0]);
      match ops[0] {
        case SetOp(index, ptr) => SetKeepsCount(ws, base, index, ptr);
        case RemoveOp(index) => RemoveKeepsCount(ws, base, index);
      }
      if CountRight(ws', base) {
        CountStaysRight(ws', base, ops[1..]);
      }
    }
  }

  /**
   Two entries in use, the second of them entry 0, and then one removed: the table is taken
   for empty and freed, with an entry still in use.
   */
  method FreedInUse(t: RawTable, ptr: Word) returns (empty: bool)
    requires t.Valid() && GoodPointer(ptr)
    requires t.Present() == 0 && t.Count() == 0
    modifies t.words
    ensures empty && t.Present() == 1
  {
    NonePresent(t.words[..]);
    t.Set(1, ptr);
    t.Set(0, ptr);
    empty := t.Remove(1);
  }

  /**
   The root of an address space is not spared: its count starts at 1, the kernel is linked in,
   entry 0 is set, as it is for every page below 512 GiB, and removed.  The count is then zero
   and the root is freed, with the link to the kernel in it.
   */
  method RootDropped(t: RawTable, kernel: Word, low: Word) returns (empty: bool)
    requires t.Valid() && GoodPointer(kernel) && GoodPointer(low)
    requires t.Present() == 0 && t.Count() == 1
    modifies t.words
    ensures empty && t.Present() == 1 && t.words.Length == 512 && t.words[511].present
  {
    NonePresent(t.words[..]);
    t.Set(511, kernel);
    t.Set(0, low);
    empty := t.Remove(0);
  }

  lemma {:induction false} NonePresent(ws: seq<Word>)
    requires CountPresent(ws) == 0
    ensures forall i :: 0 <= i < |ws| ==> !ws[i].present
  {
    if ws != [] {
      NonePresent(ws[1..]);
      assert forall i :: 1 <= i < |ws| ==> ws[i] == ws[1..][i - 1];
    }
  }
}
