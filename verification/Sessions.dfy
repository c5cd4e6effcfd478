/** The server-mode session table (src/proxy.h): a 4-probe open hash table
    with eviction, an advisory index over it, and roaming. First what each
    operation does to the table as a value, then the operations in place. */
module Sessions {
  import opened Addresses
  import opened Bytes

  const SIZE := 4096
  const PROBES := 4
  const CTR_LEAP := 0x100_0000

  datatype Entry = Entry(valid: bool, sender: Word, addr: Addr, server: Word, peer: int, prof: int,
                         ctrSidx: Word, ctrNext: Long)

  type Table = t: seq<Entry> | |t| == 4096 witness seq(4096, _ => Entry(false, 0, V4(0, 0), 0, -1, 0, 0, 0))

  /** Probe i of an index. */
  function Probe(index: Word, i: nat): (s: nat)
    ensures s < SIZE
  {
    (index as int + i) % SIZE
  }

  predicate Holds(e: Entry, index: Word) {
    e.valid && e.sender == index
  }

  // ---- Lookup ----

  /** session_get_entry: the first probe that holds the index, from probe i. */
  function FindFrom(t: Table, index: Word, i: nat): (s: int)
    requires i <= PROBES
    ensures -1 <= s < SIZE
    decreases PROBES - i
  {
    if i == PROBES then -1
    else if Holds(t[Probe(index, i)], index) then Probe(index, i)
    else FindFrom(t, index, i + 1)
  }

  function Find(t: Table, index: Word): (s: int) {
    FindFrom(t, index, 0)
  }

  /** Every valid entry lies within the probes of its own index. */
  ghost predicate Placed(t: Table) {
    forall s :: 0 <= s < SIZE && t[s].valid ==> InWindow(t[s].sender, s)
  }

  ghost predicate InWindow(index: Word, s: int) {
    exists i: nat :: i < PROBES && s == Probe(index, i)
  }

  lemma {:induction false} FindFromExact(t: Table, index: Word, i: nat)
    requires i <= PROBES
    ensures FindFrom(t, index, i) == -1 <==> forall j: nat :: i <= j < PROBES ==> !Holds(t[Probe(index, j)], index)
    ensures FindFrom(t, index, i) != -1 ==> Holds(t[FindFrom(t, index, i)], index)
    decreases PROBES - i
  {
    if i == PROBES {
    } else {
      FindFromExact(t, index, i + 1);
    }
  }

  /** Four probes find an index exactly when some slot anywhere holds it. */
  lemma LookupIsScan(t: Table, index: Word)
    requires Placed(t)
    ensures Find(t, index) >= 0 <==> exists s :: 0 <= s < SIZE && Holds(t[s], index)
    ensures Find(t, index) >= 0 ==> Holds(t[Find(t, index)], index)
  {
    hide FindFrom, Probe;
    FindFromExact(t, index, 0);
    if s :| 0 <= s < SIZE && Holds(t[s], index) {
      assert InWindow(index, s);
      var i: nat :| i < PROBES && s == Probe(index, i);
      assert Holds(t[Probe(index, i)], index);
    }
  }

  // ---- Insertion ----

  predicate Usable(e: Entry, index: Word) {
    !e.valid || e.sender == index
  }

  /** The slot session_put_prof writes: the first probe that is free or holds
      the index, else the first probe, whose owner is evicted. */
  function PutFrom(t: Table, index: Word, i: nat): (s: nat)
    requires i <= PROBES
    ensures s < SIZE
    decreases PROBES - i
  {
    if i == PROBES then Probe(index, 0)
    else if Usable(t[Probe(index, i)], index) then Probe(index, i)
    else PutFrom(t, index, i + 1)
  }

  function PutSlot(t: Table, index: Word): (s: nat)
    ensures s < SIZE
  {
    PutFrom(t, index, 0)
  }

  /** The entry left there: what belonged to another index is forgotten, the
      packet counter aside. */
  function NewEntry(e: Entry, index: Word, addr: Addr, prof: int): (r: Entry) {
    var keep := Holds(e, index);
    Entry(true, index, addr, if keep then e.server else 0, if keep then e.peer else -1, prof, e.ctrSidx, e.ctrNext)
  }

  function Put(t: Table, index: Word, addr: Addr, prof: int): (r: Table) {
    var s := PutSlot(t, index);
    t[s := NewEntry(t[s], index, addr, prof)]
  }

  lemma {:induction false} PutFromProbe(t: Table, index: Word, i: nat)
    requires i <= PROBES
    ensures InWindow(index, PutFrom(t, index, i))
    decreases PROBES - i
  {
    if i == PROBES {
    } else {
      PutFromProbe(t, index, i + 1);
    }
    assert InWindow(index, Probe(index, 0));
  }

  lemma PutKeepsPlaced(t: Table, index: Word, addr: Addr, prof: int)
    requires Placed(t)
    ensures Placed(Put(t, index, addr, prof))
  {
    hide PutFrom, Probe;
    PutFromProbe(t, index, 0);
  }

  /** The probes before the slot written are taken by others. */
  lemma {:induction false} FindAfterPut(t: Table, t': Table, index: Word, i: nat)
    requires i <= PROBES && Holds(t'[PutFrom(t, index, i)], index)
    requires forall s :: 0 <= s < SIZE && s != PutFrom(t, index, i) ==> t'[s] == t[s]
    requires forall j: nat :: j < i ==> t[Probe(index, j)].valid && t[Probe(index, j)].sender != index
    ensures FindFrom(t', index, 0) == PutFrom(t, index, i)
    decreases PROBES - i
  {
    if i == PROBES {
      assert FindFrom(t', index, 0) == Probe(index, 0);
    } else if Usable(t[Probe(index, i)], index) {
      FindSkips(t', index, 0, i);
    } else {
      FindAfterPut(t, t', index, i + 1);
    }
  }

  lemma {:induction false} FindSkips(t: Table, index: Word, i: nat, hit: nat)
    requires i <= hit < PROBES && Holds(t[Probe(index, hit)], index)
    requires forall j: nat :: i <= j < hit ==> !Holds(t[Probe(index, j)], index)
    ensures FindFrom(t, index, i) == Probe(index, hit)
    decreases hit - i
  {
    if i == hit {
    } else {
      FindSkips(t, index, i + 1, hit);
    }
  }

  /** Put then get returns the entry just written. */
  lemma PutThenFind(t: Table, index: Word, addr: Addr, prof: int)
    ensures
      var t' := Put(t, index, addr, prof);
      && Find(t', index) == PutSlot(t, index)
      && t'[Find(t', index)].addr == addr && t'[Find(t', index)].prof == prof
  {
    FindAfterPut(t, Put(t, index, addr, prof), index, 0);
  }

  /** The probes of an index: its low 12 bits and the three slots behind, round
      the end of the table. */
  lemma ProbesAre(index: Word, i: nat)
    requires i < 4
    ensures Probe(index, i) == (index as int % 4096 + i) % 4096
  {}

  /** What a put leaves in its slot: address and profile as given; the server
      index and the peer only of the very same session, forgotten when the slot
      was free or belonged to another; the packet counter in any case. All
      other slots are as they were. */
  lemma PutWrites(t: Table, index: Word, addr: Addr, prof: int, i: nat)
    requires i < 4096
    ensures
      var r, s := Put(t, index, addr, prof), PutSlot(t, index);
      && (i != s ==> r[i] == t[i])
      && r[s].valid && r[s].sender == index && r[s].addr == addr && r[s].prof == prof
      && r[s].ctrSidx == t[s].ctrSidx && r[s].ctrNext == t[s].ctrNext
      && (t[s].valid && t[s].sender == index ==> r[s].server == t[s].server && r[s].peer == t[s].peer)
      && (!t[s].valid || t[s].sender != index ==> r[s].server == 0 && r[s].peer == -1)
  {
    hide PutFrom;
  }

  /** The first usable probe is taken. */
  lemma {:induction false} PutTakesFirst(t: Table, index: Word, i: nat, j: nat)
    requires i <= j < PROBES && Usable(t[Probe(index, j)], index)
    requires forall l: nat :: i <= l < j ==> !Usable(t[Probe(index, l)], index)
    ensures PutFrom(t, index, i) == Probe(index, j)
    decreases j - i
  {
    hide Probe;
    if i == j {
    } else {
      PutTakesFirst(t, index, i + 1, j);
    }
  }

  /** Every other index keeps its lookup, but for the one evicted. */
  lemma {:induction false} PutKeepsOthers(t: Table, index: Word, addr: Addr, prof: int, other: Word, i: nat)
    requires i <= PROBES && other != index && !Holds(t[PutSlot(t, index)], other)
    ensures FindFrom(Put(t, index, addr, prof), other, i) == FindFrom(t, other, i)
    decreases PROBES - i
  {
    hide PutFrom, PutSlot;
    if i == PROBES {
    } else {
      PutKeepsOthers(t, index, addr, prof, other, i + 1);
    }
  }

  /** Someone is evicted only from the first probe, when all four are taken. */
  lemma {:induction false} EvictsOnlyWhenFull(t: Table, index: Word, i: nat)
    requires i <= PROBES
    requires forall j: nat :: j < i ==> !Usable(t[Probe(index, j)], index)
    ensures !Usable(t[PutFrom(t, index, i)], index) ==>
              PutFrom(t, index, i) == Probe(index, 0) && forall j: nat :: j < PROBES ==> !Usable(t[Probe(index, j)], index)
    decreases PROBES - i
  {
    if i == PROBES || Usable(t[Probe(index, i)], index) {
    } else {
      EvictsOnlyWhenFull(t, index, i + 1);
    }
  }
}
