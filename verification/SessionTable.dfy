/** The session table in place: two arrays and the operations of src/proxy.h
    on them, each proved against Sessions and Roaming. */
module SessionTable {
  import opened Addresses
  import opened Bytes
  import opened Roaming
  import opened Sessions

  class Store {
    const sessions: array<Entry>
    const sidxMap: array<nat>

    ghost predicate Shaped()
      reads this, sidxMap
    {
      && sessions.Length == SIZE && sidxMap.Length == SIZE
      && forall i :: 0 <= i < SIZE ==> sidxMap[i] <= SIZE
    }

    ghost function Tab(): (t: Table)
      requires Shaped()
      reads this, sessions, sidxMap
    {
      sessions[..]
    }

    ghost function Map(): (m: Index)
      requires Shaped()
      reads this, sidxMap
    {
      sidxMap[..]
    }

    ghost predicate Valid()
      reads this, sessions, sidxMap
    {
      Shaped() && Placed(Tab())
    }

    constructor ()
      ensures Valid() && fresh(sessions) && fresh(sidxMap)
      ensures forall i :: 0 <= i < SIZE ==> !Tab()[i].valid && Map()[i] == 0
    {
      sessions := new Entry[SIZE](_ => Entry(false, 0, V4(0, 0), 0, 0, 0, 0, 0));
      sidxMap := new nat[SIZE](_ => 0);
    }

    /** session_get_entry */
    method GetEntry(index: Word) returns (slot: int)
      requires Valid()
      ensures slot == Find(Tab(), index)
      ensures slot >= 0 <==> exists s :: 0 <= s < SIZE && Holds(Tab()[s], index)
    {
      hide Placed, Probe;
      LookupIsScan(Tab(), index);
      var i := 0;
      while i < PROBES
        invariant 0 <= i <= PROBES
        invariant FindFrom(Tab(), index, 0) == FindFrom(Tab(), index, i)
      {
        var s := Probe(index, i);
        if sessions[s].valid && sessions[s].sender == index {
          return s;
        }
        i := i + 1;
      }
      slot := -1;
    }

    /** session_put_prof */
    method PutProf(index: Word, addr: Addr, prof: int) returns (slot: nat)
      requires Valid()
      modifies sessions
      ensures Valid() && Tab() == Put(old(Tab()), index, addr, prof)
      ensures slot == PutSlot(old(Tab()), index) == Find(Tab(), index)
    {
      hide Placed, Probe;
      PutKeepsPlaced(Tab(), index, addr, prof);
      PutThenFind(Tab(), index, addr, prof);
      var i := 0;
      while i < PROBES
        invariant 0 <= i <= PROBES && Tab() == old(Tab())
        invariant PutFrom(Tab(), index, 0) == PutFrom(Tab(), index, i)
        invariant i > 0 ==> !Usable(Tab()[Probe(index, 0)], index)
      {
        var s := Probe(index, i);
        var e := sessions[s];
        if !e.valid || e.sender == index {
          var preserve := e.valid && e.sender == index;
          sessions[s] := Entry(true, index, addr, if preserve then e.server else 0, if preserve then e.peer else -1,
                               prof, e.ctrSidx, e.ctrNext);
          assert Tab() == old(Tab())[s := NewEntry(e, index, addr, prof)];
          return s;
        }
        i := i + 1;
      }
      slot := Probe(index, 0);
      FullFirstProbe(Tab(), index);
      ghost var e := sessions[slot];
      sessions[slot] := sessions[slot].(valid := true, sender := index, addr := addr, server := 0, peer := -1, prof := prof);
      assert Tab() == old(Tab())[slot := NewEntry(e, index, addr, prof)];
    }

    /** session_find_sole_entry: the first valid entry, if all valid ones are
        at one address. */
    method FindSole() returns (slot: int)
      requires Shaped()
      ensures -1 <= slot < SIZE
      ensures slot >= 0 ==> Tab()[slot].valid && OneClient(Tab()) && forall i :: 0 <= i < slot ==> !Tab()[i].valid
      ensures slot == -1 ==> !OneClient(Tab()) || forall i :: 0 <= i < SIZE ==> !Tab()[i].valid
    {
      slot := -1;
      for i := 0 to SIZE
        invariant -1 <= slot < i
        invariant slot == -1 ==> forall j :: 0 <= j < i ==> !sessions[j].valid
        invariant slot >= 0 ==>
                    && sessions[slot].valid && (forall j :: 0 <= j < slot ==> !sessions[j].valid)
                    && forall j :: 0 <= j < i && sessions[j].valid ==> sessions[j].addr == sessions[slot].addr
      {
        if sessions[i].valid {
          if slot < 0 {
            slot := i;
          } else if sessions[slot].addr != sessions[i].addr {
            assert Tab()[slot].addr != Tab()[i].addr;
            return -1;
          }
        }
      }
    }

    /** session_find_by_peer: the first valid entry of a peer. */
    method FindByPeer(peer: int) returns (slot: int)
      requires Shaped()
      ensures -1 <= slot < SIZE
      ensures slot >= 0 ==> peer >= 0 && Tab()[slot].valid && Tab()[slot].peer == peer
      ensures peer >= 0 ==>
                forall i :: 0 <= i < (if slot >= 0 then slot else SIZE) ==> !(Tab()[i].valid && Tab()[i].peer == peer)
    {
      if peer < 0 {
        return -1;
      }
      for i := 0 to SIZE
        invariant forall j :: 0 <= j < i ==> !(sessions[j].valid && sessions[j].peer == peer)
      {
        if sessions[i].valid && sessions[i].peer == peer {
          return i;
        }
      }
      slot := -1;
    }

    /** session_drop_moved_peer */
    method DropMovedPeer(peer: int, cur: Addr)
      requires Valid()
      modifies sessions
      ensures Valid() && Tab() == DropMoved(old(Tab()), peer, cur)
    {
      hide Placed;
      DropKeepsPlaced(Tab(), peer, cur);
      if peer < 0 {
        return;
      }
      ghost var goal := DropMoved(Tab(), peer, cur);
      for i := 0 to SIZE
        invariant forall j :: 0 <= j < i ==> sessions[j] == goal[j]
        invariant forall j :: i <= j < SIZE ==> sessions[j] == old(sessions[j])
      {
        if sessions[i].valid && sessions[i].peer == peer && sessions[i].addr != cur {
          sessions[i] := sessions[i].(valid := false);
        }
      }
      assert sessions[..] == goal;
    }

    /** session_set_server_index */
    method SetServerIndex(slot: int, sidx: Word)
      requires Valid() && -1 <= slot < SIZE
      modifies sessions, sidxMap
      ensures Valid()
      ensures slot < 0 || sidx == 0 ==> Tab() == old(Tab()) && Map() == old(Map())
      ensures slot >= 0 && sidx != 0 ==>
                && Tab() == old(Tab())[slot := old(Tab())[slot].(server := sidx)]
                && Map() == old(Map())[sidx % SIZE := slot + 1]
                && (old(Tab())[slot].valid ==> BySidx(Tab(), Map(), sidx) == slot)
    {
      hide InWindow, BySidx;
      if slot < 0 || sidx == 0 {
        return;
      }
      if sessions[slot].valid {
        RecordedIsFound(Tab(), Map(), slot, sidx);
      }
      sessions[slot] := sessions[slot].(server := sidx);
      sidxMap[sidx % SIZE] := slot + 1;
    }

    /** session_get_by_server_index */
    method GetByServerIndex(sidx: Word) returns (slot: int)
      requires Shaped()
      ensures slot == BySidx(Tab(), Map(), sidx)
    {
      if sidx == 0 {
        return -1;
      }
      var ref := sidxMap[sidx % SIZE];
      if ref == 0 {
        return -1;
      }
      var e := sessions[ref - 1];
      if !e.valid || e.server != sidx {
        return -1;
      }
      slot := ref - 1;
    }

    /** session_follow_client: whether the address changed. */
    method FollowClient(sidx: Word, from: Addr, ctr: Long) returns (moved: bool)
      requires Valid()
      modifies sessions
      ensures Valid() && Tab() == Follow(old(Tab()), Map(), sidx, from, ctr) && Map() == old(Map())
      ensures moved <==>
                var s := BySidx(old(Tab()), Map(), sidx);
                s >= 0 && !Passed(NextOf(old(Tab())[s], sidx), ctr) && old(Tab())[s].addr != from
    {
      hide Placed, BySidx, MoveAll;
      FollowKeepsPlaced(Tab(), Map(), sidx, from, ctr);
      var s := GetByServerIndex(sidx);
      if s < 0 {
        return false;
      }
      if sessions[s].ctrSidx != sidx {
        sessions[s] := sessions[s].(ctrSidx := sidx, ctrNext := 0);
      }
      var next := sessions[s].ctrNext;
      if next != 0 && (ctr < next || ctr as int - next as int > CTR_LEAP) {
        PassedChangesNothing(old(Tab()), Map(), sidx, from, ctr);
        assert Tab() == old(Tab());
        return false;
      }
      sessions[s] := sessions[s].(ctrNext := Succ(ctr));
      assert Tab() == old(Tab())[s := old(Tab())[s].(ctrSidx := sidx, ctrNext := Succ(ctr))];
      if sessions[s].addr == from {
        return false;
      }
      MoveAddress(sessions[s].addr, from);
      moved := true;
    }

    /** The loop that moves every valid entry at one address to another. */
    method MoveAddress(a: Addr, b: Addr)
      requires Shaped()
      modifies sessions
      ensures Shaped() && Tab() == MoveAll(old(Tab()), a, b)
    {
      ghost var goal := MoveAll(Tab(), a, b);
      for i := 0 to SIZE
        invariant forall j :: 0 <= j < i ==> sessions[j] == goal[j]
        invariant forall j :: i <= j < SIZE ==> sessions[j] == old(sessions[j])
      {
        if sessions[i].valid && sessions[i].addr == a {
          sessions[i] := sessions[i].(addr := b);
        }
      }
      assert sessions[..] == goal;
    }
  }

  /** When no probe is usable the first one belongs to another index. */
  lemma FullFirstProbe(t: Table, index: Word)
    requires PutFrom(t, index, 0) == PutFrom(t, index, PROBES)
    ensures PutSlot(t, index) == Probe(index, 0)
  {}
}
