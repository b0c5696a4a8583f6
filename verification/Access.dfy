/** One access to a page, fault and replacement included, in the terms of `Vm`;
    when it is harmless; and what a run of accesses says about bytes at linear
    addresses. */
module Access {
  import opened Base
  import opened Vm
  import opened Replacement

  // ------------------------------------------------- making room for a page

  /** How a frame was had for a page that is to enter memory: it was free, or
      page vi of process vp left it, tables being t once that page was chosen. */
  datatype Room = Spare(f: int) | Taken(t: Tables, vp: int, vi: int)

  /** The frames the replacement algorithm looks at. */
  ghost function Candidates(c: Config, frames: seq<Frame>, pid: int): set<int> {
    if c.fixed then OwnFrames(frames, pid) else Below(|frames|)
  }

  /** The promise of the configured algorithm, asked on behalf of process pid with
      its hand at h: page vi of vp is chosen, and the tables become t. */
  ghost predicate Chosen(c: Config, s: State, h: int, pid: int, t: Tables, vp: int, vi: int) {
    var cand := Candidates(c, s.frames, pid);
    && Resident(s.tables, vp, vi) && (c.fixed ==> vp == pid)
    && if c.clock then
         && Occupied(s.frames, s.tables, cand)
         && ClockVictim(s.frames, s.tables, cand, h, s.tables[vp][vi].frame)
         && t == AfterClock(s.frames, s.tables, cand, h, s.tables[vp][vi].frame)
       else
         t == s.tables && LeastUse(s.tables, c.fixed, pid, vp, vi)
  }

  /** A process may take a free frame: always, or up to its quota. */
  ghost predicate MayGrow(c: Config, s: State, pid: int)
    requires pid in s.tables
  {
    FreeFrames(s.frames) != {} && (c.fixed ==> |PresentOf(s.tables[pid])| < c.ownMax)
  }

  ghost predicate RoomMade(c: Config, s: State, h: int, pid: int, room: Room)
    requires pid in s.tables
  {
    match room
    case Spare(f) =>
      && MayGrow(c, s, pid)
      && 0 <= f < |s.frames| && s.frames[f].pid == FREE && forall g :: 0 <= g < f ==> s.frames[g].pid != FREE
    case Taken(t, vp, vi) => !MayGrow(c, s, pid) && Chosen(c, s, h, pid, t, vp, vi)
  }

  /** The memory with room made, and the frame to use. */
  ghost function WithRoom(s: State, room: Room): State
    requires room.Taken? ==>
               Resident(room.t, room.vp, room.vi) && 0 <= room.t[room.vp][room.vi].frame < |s.frames| == |s.ram|
  {
    match room
    case Spare(_) => s
    case Taken(t, vp, vi) => Evict(s.(tables := t), vp, vi, false)
  }

  ghost function RoomAt(room: Room): int
    requires room.Taken? ==> Resident(room.t, room.vp, room.vi)
  {
    match room
    case Spare(f) => f
    case Taken(t, vp, vi) => t[vp][vi].frame
  }

  lemma {:induction false} ClockChosen(c: Config, s: State, h: int, pid: int, t: Tables, f: int)
    requires c.clock && Occupied(s.frames, s.tables, Candidates(c, s.frames, pid)) && f in Candidates(c, s.frames, pid)
    requires ClockVictim(s.frames, s.tables, Candidates(c, s.frames, pid), h, f)
    requires t == AfterClock(s.frames, s.tables, Candidates(c, s.frames, pid), h, f)
    ensures 0 <= f < |s.frames| && Chosen(c, s, h, pid, t, s.frames[f].pid, s.frames[f].page)
    ensures s.tables[s.frames[f].pid][s.frames[f].page].frame == f
  {
  }

  lemma {:induction false} LruChosen(c: Config, s: State, h: int, pid: int, who: int, vp: int, vi: int)
    requires !c.clock && LeastUse(s.tables, c.fixed, who, vp, vi) && (c.fixed ==> who == pid)
    ensures Chosen(c, s, h, pid, s.tables, vp, vi)
  {
  }

  /** Choosing changes use bits only. */
  lemma {:induction false} ChosenSame(c: Config, s: State, h: int, pid: int, t: Tables, vp: int, vi: int)
    requires Inv(c, s) && Chosen(c, s, h, pid, t, vp, vi)
    ensures SameButUse(s.tables, t) && (!c.clock ==> t == s.tables)
    ensures Resident(t, vp, vi) && t[vp][vi].frame == s.tables[vp][vi].frame
    ensures 0 <= t[vp][vi].frame < |s.frames| == |s.ram| && s.frames[t[vp][vi].frame] == Frame(vp, vi)
  {
    if c.clock {
      var cand := Candidates(c, s.frames, pid);
      var v := s.tables[vp][vi].frame;
      var k := ClassOf(s.frames, s.tables, cand, v);
      CooledFacts(s.frames, s.tables, cand, h, if k == 1 then Dist(h, v, |s.frames|) else |s.frames|);
    }
    assert HasPage(s.tables, vp, vi);
  }

  /** The same pages, present or not. */
  ghost predicate SamePages(t0: Tables, t1: Tables) {
    t0.Keys == t1.Keys && forall q :: q in t0 ==> |t1[q]| == |t0[q]|
  }

  lemma {:induction false} SamePagesChain(t0: Tables, t1: Tables, t2: Tables)
    ensures SamePages(t0, t0)
    ensures SamePages(t0, t1) && SamePages(t1, t2) ==> SamePages(t0, t2)
  {
  }

  lemma {:induction false} SamePagesHave(t0: Tables, t1: Tables, pid: int)
    requires SamePages(t0, t1) && pid in t0
    ensures pid in t1 && |t1[pid]| == |t0[pid]|
  {
  }

  lemma {:induction false} RoomPages(c: Config, s: State, h: int, pid: int, i: int, room: Room)
    requires Inv(c, s) && HasPage(s.tables, pid, i) && RoomMade(c, s, h, pid, room)
    ensures room.Taken? ==>
              Resident(room.t, room.vp, room.vi) && 0 <= room.t[room.vp][room.vi].frame < |s.frames| == |s.ram|
    ensures SamePages(s.tables, WithRoom(s, room).tables)
  {
    if room.Taken? { ChosenSame(c, s, h, pid, room.t, room.vp, room.vi); }
  }

  /** LRU is exact: the page chosen is the one accessed longest ago. */
  lemma {:induction false} LruVictimIsOldest(c: Config, s: State, h: int, pid: int, t: Tables, vp: int, vi: int,
                                             hist: seq<(int, int)>, now: int)
    requires !c.clock && Chosen(c, s, h, pid, t, vp, vi) && Recency(s.tables, hist, now)
    ensures forall q, j :: Resident(s.tables, q, j) && (c.fixed ==> q == pid) && (q, j) != (vp, vi) ==>
              Last(hist, (vp, vi)) < Last(hist, (q, j))
  {
    LeastUseIsOldest(s.tables, hist, now, c.fixed, pid, vp, vi);
  }

  /** The clock's victim is unique, and once every candidate had been used, all
      their use bits are cleared while nothing else about any page changes. */
  lemma {:induction false} ClockVictimIs(c: Config, s: State, h: int, pid: int, t: Tables, vp: int, vi: int, wp: int,
                                         wi: int, t': Tables)
    requires Inv(c, s) && c.clock && 0 <= h < |s.frames|
    requires Chosen(c, s, h, pid, t, vp, vi) && Chosen(c, s, h, pid, t', wp, wi)
    ensures (vp, vi) == (wp, wi) && t == t' && SameButUse(s.tables, t)
    ensures s.tables[vp][vi].use != 0 ==>
              forall q, j :: Resident(s.tables, q, j) && (c.fixed ==> q == pid) ==> t[q][j].use == 0
  {
    var cand := Candidates(c, s.frames, pid);
    ClockVictimUnique(s.frames, s.tables, cand, h, s.tables[vp][vi].frame, s.tables[wp][wi].frame);
    assert s.frames[s.tables[vp][vi].frame] == Frame(vp, vi) && s.frames[s.tables[wp][wi].frame] == Frame(wp, wi);
    ChosenSame(c, s, h, pid, t, vp, vi);
    forall q, j | s.tables[vp][vi].use != 0 && Resident(s.tables, q, j) && (c.fixed ==> q == pid)
      ensures t[q][j].use == 0
    {
      assert HasPage(s.tables, q, j);
      assert s.tables[q][j].frame in cand;
    }
  }

  /** Making room: the frame is free, the quota has a place, no written byte was
      lost, and the page that is to come in has the content it had. */
  lemma {:induction false} RoomKeeps(c: Config, s: State, h: int, pid: int, i: int, room: Room)
    requires Inv(c, s) && HasPage(s.tables, pid, i) && s.tables[pid][i].Out? && RoomMade(c, s, h, pid, room)
    ensures room.Taken? ==>
              Resident(room.t, room.vp, room.vi) && 0 <= room.t[room.vp][room.vi].frame < |s.frames| == |s.ram|
    ensures var mid := WithRoom(s, room);
      && Inv(c, mid) && (forall log :: WriteBack(c, s, log) ==> WriteBack(c, mid, log))
      && 0 <= RoomAt(room) < |mid.frames| && mid.frames[RoomAt(room)].pid == FREE
      && (c.fixed ==> |PresentOf(mid.tables[pid])| < c.ownMax)
      && HasPage(mid.tables, pid, i) && mid.tables[pid][i] == s.tables[pid][i]
      && (pid, i) in s.swap && (pid, i) in mid.swap && mid.swap[(pid, i)] == s.swap[(pid, i)]
  {
    if room.Taken? {
      ChosenSame(c, s, h, pid, room.t, room.vp, room.vi);
      var s1 := s.(tables := room.t);
      UseInv(c, s, room.t);
      EvictInv(c, s1, room.vp, room.vi, false);
      forall log | WriteBack(c, s, log) ensures WriteBack(c, WithRoom(s, room), log) {
        UseKeeps(c, s, log, room.t);
        EvictKeeps(c, s1, log, room.vp, room.vi, false);
      }
      SetPageFacts(room.t, room.vp, room.vi, Out(false));
      assert c.fixed ==> pid in s1.tables;
    }
  }

  /** Under LRU, making room takes a page out and changes no use value. */
  lemma {:induction false} RoomUses(c: Config, s: State, h: int, pid: int, i: int, room: Room)
    requires Inv(c, s) && HasPage(s.tables, pid, i) && s.tables[pid][i].Out? && RoomMade(c, s, h, pid, room) && !c.clock
    ensures room.Taken? ==>
              Resident(room.t, room.vp, room.vi) && 0 <= room.t[room.vp][room.vi].frame < |s.frames| == |s.ram|
    ensures forall q, j :: Resident(WithRoom(s, room).tables, q, j) ==>
              Resident(s.tables, q, j) && WithRoom(s, room).tables[q][j].use == s.tables[q][j].use
  {
    if room.Taken? {
      ChosenSame(c, s, h, pid, room.t, room.vp, room.vi);
      SetPageFacts(room.t, room.vp, room.vi, Out(false));
    }
  }

  // ----------------------------------------------------- one access to a page

  /** The modified bit after an access to a present page: a write sets it, and a
      read keeps it, except that the code as written forgets it when it caches
      a page that was not cached. */
  function NewDirty(c: Config, write: bool, was: bool, cached: bool): bool {
    write || (was && (cached || c.tlbSize == 0 || c.repaired))
  }

  /** The modified bit after a fault: the code as written drops the access mode. */
  function FaultDirty(c: Config, write: bool, stale: bool): bool {
    (c.repaired && write) || (c.tlbSize == 0 && stale)
  }

  /** The use value an access leaves: the use bit set, or a tick not given out before. */
  ghost predicate UseNow(c: Config, use: int, lo: int, hi: int) {
    if c.clock then use == 1 else lo <= use < hi
  }

  /** The clock's hand afterwards: one past the frame taken, or where it was. */
  ghost predicate HandNow(c: Config, h: int, h': int, room: Option<Room>) {
    if c.clock && room.Some? && room.value.Taken? && Resident(room.value.t, room.value.vp, room.value.vi)
    then h' == Advance(RoomAt(room.value), c.frameCount)
    else h' == h
  }

  lemma {:induction false} HandStays(c: Config, h: int)
    ensures HandNow(c, h, h, None)
  {
  }

  /** An access found the page in memory (cached or not), or brought it there. */
  datatype Visit = Hit(cached: bool, use: int) | Fault(room: Room, use: int)

  ghost predicate VisitOk(c: Config, s: State, h: int, pid: int, i: int, v: Visit) {
    HasPage(s.tables, pid, i) &&
    match v
    case Hit(_, _) => s.tables[pid][i].In?
    case Fault(room, _) => s.tables[pid][i].Out? && RoomMade(c, s, h, pid, room)
  }

  ghost function AfterVisit(c: Config, s: State, h: int, pid: int, i: int, write: bool, v: Visit): State
    requires Inv(c, s) && VisitOk(c, s, h, pid, i, v)
  {
    match v
    case Hit(cached, use) => Touch(s, pid, i, NewDirty(c, write, s.tables[pid][i].dirty, cached), use)
    case Fault(room, use) =>
      RoomKeeps(c, s, h, pid, i, room);
      Load(WithRoom(s, room), pid, i, RoomAt(room), Some(s.swap[(pid, i)]),
           FaultDirty(c, write, s.tables[pid][i].stale), use)
  }

  lemma {:induction false} VisitInv(c: Config, s: State, h: int, pid: int, i: int, write: bool, v: Visit)
    requires Inv(c, s) && VisitOk(c, s, h, pid, i, v)
    ensures var s' := AfterVisit(c, s, h, pid, i, write, v);
      Inv(c, s') && SamePages(s.tables, s'.tables) && Resident(s'.tables, pid, i)
  {
    hide Inv, RoomMade, WithRoom, RoomAt, MayGrow;
    match v
    case Hit(cached, use) =>
      TouchInv(c, s, pid, i, NewDirty(c, write, s.tables[pid][i].dirty, cached), use);
    case Fault(room, use) =>
      RoomKeeps(c, s, h, pid, i, room);
      RoomPages(c, s, h, pid, i, room);
      SwapHas(c, s, pid, i);
      LoadInv(c, WithRoom(s, room), pid, i, RoomAt(room), Some(s.swap[(pid, i)]),
              FaultDirty(c, write, s.tables[pid][i].stale), use);
  }

  lemma {:induction false} SwapHas(c: Config, s: State, pid: int, i: int)
    requires Inv(c, s) && HasPage(s.tables, pid, i)
    ensures (pid, i) in s.swap && |s.swap[(pid, i)]| == c.pageSize && |s.ram| == |s.frames|
  {
  }

  lemma {:induction false} SpareRoom(s: State, f: int)
    ensures WithRoom(s, Spare(f)) == s && RoomAt(Spare(f)) == f
  {
  }

  lemma {:induction false} FaultFrame(c: Config, s: State, h: int, pid: int, i: int, write: bool, v: Visit)
    requires Inv(c, s) && VisitOk(c, s, h, pid, i, v) && v.Fault?
    ensures v.room.Taken? ==> Resident(v.room.t, v.room.vp, v.room.vi)
    ensures Resident(AfterVisit(c, s, h, pid, i, write, v).tables, pid, i)
    ensures AfterVisit(c, s, h, pid, i, write, v).tables[pid][i].frame == RoomAt(v.room)
  {
    VisitInv(c, s, h, pid, i, write, v);
    RoomKeeps(c, s, h, pid, i, v.room);
  }

  lemma {:induction false} HitFrame(c: Config, s: State, h: int, pid: int, i: int, write: bool, v: Visit)
    requires Inv(c, s) && VisitOk(c, s, h, pid, i, v)
    ensures var t := AfterVisit(c, s, h, pid, i, write, v).tables;
      && Resident(t, pid, i) && 0 <= t[pid][i].frame < c.frameCount && t[pid][i].use == v.use
      && (v.Hit? ==> t[pid][i].frame == s.tables[pid][i].frame)
      && (v.Fault? && v.room.Taken? ==> Resident(v.room.t, v.room.vp, v.room.vi) && t[pid][i].frame == RoomAt(v.room))
  {
    VisitInv(c, s, h, pid, i, write, v);
    if v.Fault? { RoomKeeps(c, s, h, pid, i, v.room); }
  }

  lemma {:induction false} HitVisit(c: Config, s: State, h: int, pid: int, i: int, write: bool, cached: bool, use: int)
    requires Inv(c, s) && Resident(s.tables, pid, i)
    ensures VisitOk(c, s, h, pid, i, Hit(cached, use))
    ensures AfterVisit(c, s, h, pid, i, write, Hit(cached, use)) ==
            Touch(s, pid, i, NewDirty(c, write, s.tables[pid][i].dirty, cached), use)
  {
  }

  /** The hand and the use value after a visit that found or put the page in frame f. */
  lemma {:induction false} HandMeans(c: Config, h: int, h': int, v: Visit, f: int, lo: int, hi: int)
    requires HandNow(c, h, h', if v.Fault? then Some(v.room) else None) && UseNow(c, v.use, lo, hi)
    requires 0 <= f < c.frameCount
    requires v.Fault? && v.room.Taken? ==> Resident(v.room.t, v.room.vp, v.room.vi) && f == RoomAt(v.room)
    ensures h' == if c.clock && v.Fault? && v.room.Taken? then (f + 1) % c.frameCount else h
    ensures if c.clock then v.use == 1 else lo <= v.use < hi
  {
    HandGoesRound(f, f, 0, c.frameCount);
  }

  /** An access is the latest of its page: use values still order the pages by their last access. */
  lemma {:induction false} VisitRecency(c: Config, s: State, h: int, pid: int, i: int, write: bool, v: Visit,
                                        hist: seq<(int, int)>, now: int, now': int)
    requires Inv(c, s) && VisitOk(c, s, h, pid, i, v) && !c.clock
    requires Recency(s.tables, hist, now) && now <= v.use < now'
    ensures Recency(AfterVisit(c, s, h, pid, i, write, v).tables, hist + [(pid, i)], now')
  {
    hide Inv, RoomMade, WithRoom, Recency;
    var s' := AfterVisit(c, s, h, pid, i, write, v);
    VisitInv(c, s, h, pid, i, write, v);
    if v.Fault? {
      RoomKeeps(c, s, h, pid, i, v.room);
      RoomUses(c, s, h, pid, i, v.room);
      RecencyShrinks(s.tables, WithRoom(s, v.room).tables, hist, now, now);
      RecencyAccess(WithRoom(s, v.room).tables, s'.tables, hist, now, now', pid, i);
    } else {
      RecencyAccess(s.tables, s'.tables, hist, now, now', pid, i);
    }
  }

  /** What a caller can check beforehand: a read loses no modified bit. */
  ghost predicate ReadSafe(c: Config, s: State, pid: int, i: int, cached: bool)
    requires HasPage(s.tables, pid, i)
  {
    c.repaired || c.tlbSize == 0 || cached || s.tables[pid][i].Out? || !s.tables[pid][i].dirty
  }

  /** What a caller can check beforehand: a write marks its page. */
  ghost predicate WriteSafe(c: Config, s: State, pid: int, i: int)
    requires HasPage(s.tables, pid, i)
  {
    c.repaired || s.tables[pid][i].In? || (c.tlbSize == 0 && s.tables[pid][i].stale)
  }

  /** Whether a page was cached matters only if it was present. */
  lemma {:induction false} VisitCached(c: Config, s: State, h: int, pid: int, i: int, v: Visit, cached: bool)
    requires VisitOk(c, s, h, pid, i, v) && (v.Hit? ==> (v.cached <==> cached))
    ensures HasPage(s.tables, pid, i) &&
            (ReadSafe(c, s, pid, i, v.Hit? && v.cached) <==> ReadSafe(c, s, pid, i, cached))
  {
  }

  /** An access keeps every written byte safe exactly when it does not forget that
      the page was modified, or its swap copy is current anyway. */
  lemma {:induction false} VisitExact(c: Config, s: State, log: Log, h: int, pid: int, i: int, write: bool, v: Visit)
    requires Inv(c, s) && VisitOk(c, s, h, pid, i, v) && WriteBack(c, s, log)
    ensures Inv(c, AfterVisit(c, s, h, pid, i, write, v))
    ensures WriteBack(c, AfterVisit(c, s, h, pid, i, write, v), log) <==>
              write || ReadSafe(c, s, pid, i, v.Hit? && v.cached) || SwapAgrees(c, s, log, pid, i)
  {
    VisitInv(c, s, h, pid, i, write, v);
    match v
    case Hit(cached, use) =>
      var dirty := NewDirty(c, write, s.tables[pid][i].dirty, cached);
      TouchExact(c, s, log, pid, i, dirty, use);
      if !s.tables[pid][i].dirty { CleanAgrees(c, s, log, pid, i); }
    case Fault(room, use) =>
      RoomKeeps(c, s, h, pid, i, room);
      LoadKeeps(c, WithRoom(s, room), log, pid, i, RoomAt(room), FaultDirty(c, write, s.tables[pid][i].stale), use);
  }

  /** A write access followed by the store keeps every written byte safe, the new
      ones included, exactly when the page was present (or the fault keeps its old
      mark), or swap already had those bytes. */
  lemma {:induction false} WriteExact(c: Config, s: State, log: Log, h: int, pid: int, i: int, v: Visit, off: int,
                                      data: seq<Byte>)
    requires Inv(c, s) && VisitOk(c, s, h, pid, i, v) && WriteBack(c, s, log)
    requires 0 <= off && off + |data| <= c.pageSize
    ensures var s1 := AfterVisit(c, s, h, pid, i, true, v);
      && Inv(c, s1) && Resident(s1.tables, pid, i) && 0 <= s1.tables[pid][i].frame < |s1.ram|
      && off + |data| <= |s1.ram[s1.tables[pid][i].frame]|
    ensures (pid, i) in s.swap && off + |data| <= |s.swap[(pid, i)]|
    ensures var s1 := AfterVisit(c, s, h, pid, i, true, v);
            var s2 := Store(s1, s1.tables[pid][i].frame, off, data);
      && Inv(c, s2)
      && (WriteBack(c, s2, LogAt(log, pid, i, off, data)) <==>
            WriteSafe(c, s, pid, i) || s.swap[(pid, i)][off..off + |data|] == data)
  {
    VisitInv(c, s, h, pid, i, true, v);
    VisitExact(c, s, log, h, pid, i, true, v);
    var s1 := AfterVisit(c, s, h, pid, i, true, v);
    StoreInv(c, s1, pid, i, off, data);
    StoreExact(c, s1, log, pid, i, off, data);
    if v.Fault? { RoomKeeps(c, s, h, pid, i, v.room); }
  }

  // ----------------------------------------------- marks, and who is evicted

  /** The modified bit of the page visited: after a hit it is there if the access writes, or it
      was there and is not forgotten; after a fault, if the access writes and the code is
      repaired, or, without a cache, if the page kept its mark while it was out. */
  lemma {:induction false} MarkIs(c: Config, s: State, h: int, pid: int, i: int, write: bool, v: Visit)
    requires Inv(c, s) && VisitOk(c, s, h, pid, i, v)
    ensures var s' := AfterVisit(c, s, h, pid, i, write, v);
      && Resident(s'.tables, pid, i)
      && match s.tables[pid][i]
         case In(_, dirty, _) =>
           s'.tables[pid][i].dirty <==> write || (dirty && (v.cached || c.tlbSize == 0 || c.repaired))
         case Out(stale) =>
           s'.tables[pid][i].dirty <==> (write && c.repaired) || (stale && c.tlbSize == 0)
  {
    VisitInv(c, s, h, pid, i, write, v);
  }

  /** No other page's mark changes, as long as it stays in memory, and none comes in. */
  lemma {:induction false} OtherMarks(c: Config, s: State, h: int, pid: int, i: int, write: bool, v: Visit)
    requires Inv(c, s) && VisitOk(c, s, h, pid, i, v)
    ensures forall q, j :: Resident(AfterVisit(c, s, h, pid, i, write, v).tables, q, j) && (q, j) != (pid, i) ==>
              Resident(s.tables, q, j) &&
              AfterVisit(c, s, h, pid, i, write, v).tables[q][j].dirty == s.tables[q][j].dirty
  {
    hide Inv, RoomMade, MayGrow, Chosen;
    VisitInv(c, s, h, pid, i, write, v);
    if v.Fault? {
      RoomKeeps(c, s, h, pid, i, v.room);
      if v.room.Taken? {
        TakenMade(c, s, h, pid, v.room);
        ChosenSame(c, s, h, pid, v.room.t, v.room.vp, v.room.vi);
        SetPageFacts(v.room.t, v.room.vp, v.room.vi, Out(false));
      }
    }
  }

  /** A process may fill its quota: a fault takes the first free frame, and no page leaves memory
      or changes, exactly if some frame is free and, under local replacement, fewer pages of the
      process than its quota are in memory. */
  lemma {:induction false} QuotaFills(c: Config, s: State, h: int, pid: int, i: int, write: bool, v: Visit)
    requires Inv(c, s) && VisitOk(c, s, h, pid, i, v) && v.Fault?
    ensures var s' := AfterVisit(c, s, h, pid, i, write, v);
      var grows := (exists f :: 0 <= f < |s.frames| && s.frames[f].pid == FREE) &&
                   (c.fixed ==> |set j | 0 <= j < |s.tables[pid]| && s.tables[pid][j].In?| < c.ownMax);
      && (grows <==> forall q, j :: Resident(s.tables, q, j) ==> Resident(s'.tables, q, j))
      && (grows ==> forall q, j :: Resident(s.tables, q, j) ==> s'.tables[q][j] == s.tables[q][j])
      && (grows ==> exists f ::
            && 0 <= f < |s.frames| && s.frames[f].pid == FREE && s'.frames == s.frames[f := Frame(pid, i)]
            && forall g :: 0 <= g < f ==> s.frames[g].pid != FREE)
  {
    hide Inv, Chosen, FreeFrames, AfterVisit;
    GrowMeans(c, s, pid);
    if v.room.Spare? {
      SpareStays(c, s, h, pid, i, write, v);
    } else {
      TakenLeaves(c, s, h, pid, i, write, v);
    }
  }

  /** What a visit sends to the swap store: nothing, unless the page evicted was marked; then that
      page's content. */
  lemma {:induction false} SwapTraffic(c: Config, s: State, h: int, pid: int, i: int, write: bool, v: Visit)
    requires Inv(c, s) && VisitOk(c, s, h, pid, i, v)
    ensures var s' := AfterVisit(c, s, h, pid, i, write, v);
      if v.Fault? && v.room.Taken? then
        var vp, vi := v.room.vp, v.room.vi;
        && Resident(s.tables, vp, vi) && 0 <= s.tables[vp][vi].frame < |s.ram|
        && s'.swap == if s.tables[vp][vi].dirty then s.swap[(vp, vi) := s.ram[s.tables[vp][vi].frame]] else s.swap
      else s'.swap == s.swap
  {
    hide Inv, RoomMade, MayGrow, Chosen;
    if v.Fault? {
      RoomKeeps(c, s, h, pid, i, v.room);
      if v.room.Taken? {
        TakenMade(c, s, h, pid, v.room);
        TakenWas(c, s, h, pid, v.room);
        ChosenSame(c, s, h, pid, v.room.t, v.room.vp, v.room.vi);
        assert HasPage(s.tables, v.room.vp, v.room.vi);
      }
    }
  }

  lemma {:induction false} GrowMeans(c: Config, s: State, pid: int)
    requires pid in s.tables
    ensures MayGrow(c, s, pid) <==>
              (exists f :: 0 <= f < |s.frames| && s.frames[f].pid == FREE) &&
              (c.fixed ==> |set j | 0 <= j < |s.tables[pid]| && s.tables[pid][j].In?| < c.ownMax)
  {
    assert PresentOf(s.tables[pid]) == set j | 0 <= j < |s.tables[pid]| && s.tables[pid][j].In?;
    FreeSome(s.frames);
  }

  lemma {:induction false} SpareStays(c: Config, s: State, h: int, pid: int, i: int, write: bool, v: Visit)
    requires Inv(c, s) && VisitOk(c, s, h, pid, i, v) && v.Fault? && v.room.Spare?
    ensures var s' := AfterVisit(c, s, h, pid, i, write, v);
      && (forall q, j :: Resident(s.tables, q, j) ==> Resident(s'.tables, q, j) && s'.tables[q][j] == s.tables[q][j])
      && 0 <= v.room.f < |s.frames| && s'.frames == s.frames[v.room.f := Frame(pid, i)]
  {
    hide MayGrow;
    SwapHas(c, s, pid, i);
    var dirty := FaultDirty(c, write, s.tables[pid][i].stale);
    SetPageFacts(s.tables, pid, i, In(v.room.f, dirty, v.use));
    assert AfterVisit(c, s, h, pid, i, write, v) ==
           Load(s, pid, i, v.room.f, Some(s.swap[(pid, i)]), dirty, v.use);
    hide Inv;
  }

  lemma {:induction false} TakenLeaves(c: Config, s: State, h: int, pid: int, i: int, write: bool, v: Visit)
    requires Inv(c, s) && VisitOk(c, s, h, pid, i, v) && v.Fault? && v.room.Taken?
    ensures Resident(s.tables, v.room.vp, v.room.vi)
    ensures !Resident(AfterVisit(c, s, h, pid, i, write, v).tables, v.room.vp, v.room.vi)
  {
    hide MayGrow, Inv, Chosen;
    RoomKeeps(c, s, h, pid, i, v.room);
    TakenMade(c, s, h, pid, v.room);
    TakenWas(c, s, h, pid, v.room);
    ChosenSame(c, s, h, pid, v.room.t, v.room.vp, v.room.vi);
    SetPageFacts(v.room.t, v.room.vp, v.room.vi, Out(false));
    assert (v.room.vp, v.room.vi) != (pid, i);
  }

  lemma {:induction false} TakenWas(c: Config, s: State, h: int, pid: int, room: Room)
    requires room.Taken? && Chosen(c, s, h, pid, room.t, room.vp, room.vi)
    ensures Resident(s.tables, room.vp, room.vi)
  {
  }

  lemma {:induction false} FreeSome(frames: seq<Frame>)
    ensures (exists f :: 0 <= f < |frames| && frames[f].pid == FREE) <==> FreeFrames(frames) != {}
  {
    if f :| 0 <= f < |frames| && frames[f].pid == FREE { assert f in FreeFrames(frames); }
  }

  // ----------------------------------------------------- bytes lost for good

  /** The byte written at x of page i is not in its swap copy, and nothing will put it there:
      the page is out of memory, or not marked. */
  ghost predicate Stale(s: State, log: Log, pid: int, i: int, x: int) {
    && HasPage(s.tables, pid, i) && (s.tables[pid][i].In? ==> !s.tables[pid][i].dirty)
    && (pid, i) in s.swap && 0 <= x < |s.swap[(pid, i)]| && (pid, i, x) in log &&
       s.swap[(pid, i)][x] != log[(pid, i, x)]
  }

  lemma {:induction false} StaleIsLost(c: Config, s: State, log: Log, pid: int, i: int, x: int)
    requires Inv(c, s) && Stale(s, log, pid, i, x)
    ensures !WriteBack(c, s, log)
  {
    assert !Holds(c, s, pid, i, x, log[(pid, i, x)]);
  }

  /** Visiting other pages does not help. */
  lemma {:induction false} StaleStays(c: Config, s: State, h: int, pid: int, p: int, write: bool, v: Visit, log: Log,
                                      i: int, x: int)
    requires Inv(c, s) && VisitOk(c, s, h, pid, p, v) && Stale(s, log, pid, i, x) && i != p
    ensures Stale(AfterVisit(c, s, h, pid, p, write, v), log, pid, i, x)
  {
    hide Inv, RoomMade, MayGrow, Chosen;
    if v.Fault? {
      RoomKeeps(c, s, h, pid, p, v.room);
      RoomPages(c, s, h, pid, p, v.room);
      if v.room.Taken? {
        TakenMade(c, s, h, pid, v.room);
        ChosenSame(c, s, h, pid, v.room.t, v.room.vp, v.room.vi);
        SetPageFacts(v.room.t, v.room.vp, v.room.vi, Out(false));
      }
    }
  }

  lemma {:induction false} TakenMade(c: Config, s: State, h: int, pid: int, room: Room)
    requires pid in s.tables && RoomMade(c, s, h, pid, room) && room.Taken?
    ensures Chosen(c, s, h, pid, room.t, room.vp, room.vi)
  {
  }

  /** What a write leaves unmarked, and swap does not have, is lost for good. */
  lemma {:induction false} UnsafeGoesStale(c: Config, s: State, log: Log, h: int, pid: int, i: int, v: Visit, off: int,
                                           data: seq<Byte>) returns (x: int)
    requires Inv(c, s) && VisitOk(c, s, h, pid, i, v) && 0 <= off && (pid, i) in s.swap &&
             off + |data| <= |s.swap[(pid, i)]|
    requires !WriteSafe(c, s, pid, i) && s.swap[(pid, i)][off..off + |data|] != data
    ensures Stale(AfterVisit(c, s, h, pid, i, true, v), LogAt(log, pid, i, off, data), pid, i, x)
  {
    var was := s.swap[(pid, i)][off..off + |data|];
    var k :| 0 <= k < |data| && was[k] != data[k];
    x := off + k;
    UnmarkedFault(c, s, h, pid, i, v);
    hide Inv, AfterVisit, VisitOk, WriteSafe;
    assert (pid, i, x) in LogAt(log, pid, i, off, data) && LogAt(log, pid, i, off, data)[(pid, i, x)] == data[k];
  }

  /** A write that is not safe is a fault, and leaves its page in memory unmarked. */
  lemma {:induction false} UnmarkedFault(c: Config, s: State, h: int, pid: int, i: int, v: Visit)
    requires Inv(c, s) && VisitOk(c, s, h, pid, i, v) && !WriteSafe(c, s, pid, i)
    ensures var s' := AfterVisit(c, s, h, pid, i, true, v);
      && Resident(s'.tables, pid, i) && !s'.tables[pid][i].dirty
      && (pid, i) in s.swap && (pid, i) in s'.swap && s'.swap[(pid, i)] == s.swap[(pid, i)]
  {
    hide Inv, RoomMade, MayGrow, WithRoom, RoomAt;
    VisitInv(c, s, h, pid, i, true, v);
    RoomKeeps(c, s, h, pid, i, v.room);
    RoomPages(c, s, h, pid, i, v.room);
  }

  /** The read of page i between s and s' forgot no mark, or swap has the page's written bytes. */
  ghost predicate MarkKept(c: Config, s: State, s': State, log: Log, pid: int, i: int) {
    Inv(c, s) && HasPage(s.tables, pid, i) &&
    (SwapAgrees(c, s, log, pid, i) ||
     (s.tables[pid][i].In? && s.tables[pid][i].dirty ==> Resident(s'.tables, pid, i) && s'.tables[pid][i].dirty))
  }

  /** What a read leaves unmarked, and swap does not have, is lost for good; and nothing else is. */
  lemma {:induction false} ForgottenGoesStale(c: Config, s: State, log: Log, h: int, pid: int, i: int, v: Visit)
    returns (x: int)
    requires Inv(c, s) && VisitOk(c, s, h, pid, i, v)
    ensures var s' := AfterVisit(c, s, h, pid, i, false, v);
      && (WriteBack(c, s, log) && MarkKept(c, s, s', log, pid, i) ==> Inv(c, s') && WriteBack(c, s', log))
      && (!MarkKept(c, s, s', log, pid, i) ==> Stale(s', log, pid, i, x))
  {
    x := 0;
    var s' := AfterVisit(c, s, h, pid, i, false, v);
    VisitInv(c, s, h, pid, i, false, v);
    SwapHas(c, s, pid, i);
    if MarkKept(c, s, s', log, pid, i) {
      KeptReads(c, s, h, pid, i, v);
      if WriteBack(c, s, log) { VisitExact(c, s, log, h, pid, i, false, v); }
    } else {
      hide WriteBack;
      var k :| k in log && k.0 == pid && k.1 == i && 0 <= k.2 < c.pageSize && s.swap[(pid, i)][k.2] != log[k];
      x := k.2;
      assert k == (pid, i, x);
      hide Inv, SwapAgrees;
    }
  }

  /** The mark of the page read stays exactly if the read is safe. */
  lemma {:induction false} KeptReads(c: Config, s: State, h: int, pid: int, i: int, v: Visit)
    requires Inv(c, s) && VisitOk(c, s, h, pid, i, v)
    ensures var s' := AfterVisit(c, s, h, pid, i, false, v);
      (s.tables[pid][i].In? && s.tables[pid][i].dirty ==> Resident(s'.tables, pid, i) && s'.tables[pid][i].dirty) <==>
      ReadSafe(c, s, pid, i, v.Hit? && v.cached)
  {
    VisitInv(c, s, h, pid, i, false, v);
  }

  // ------------------------------------------- what a page is read as, and runs

  /** The written bytes but those of pages lo to hi - 1 of process pid. */
  function LogWithout(log: Log, pid: int, lo: int, hi: int): Log {
    map k | k in log && !(k.0 == pid && lo <= k.1 < hi) :: log[k]
  }

  lemma {:induction false} LogWithoutNone(log: Log, pid: int, lo: int)
    ensures LogWithout(log, pid, lo, lo) == log
  {
  }

  /** An access shows the page's written bytes, even when it forgets that the page
      was modified; and it keeps every other page's written bytes safe. */
  lemma {:induction false} VisitShows(c: Config, s: State, log: Log, h: int, pid: int, i: int, v: Visit, lo: int)
    requires Inv(c, s) && VisitOk(c, s, h, pid, i, v) && lo <= i && WriteBack(c, s, LogWithout(log, pid, lo, i))
    ensures var s' := AfterVisit(c, s, h, pid, i, false, v);
      && Inv(c, s') && Resident(s'.tables, pid, i) && 0 <= s'.tables[pid][i].frame < |s'.ram|
      && |s'.ram[s'.tables[pid][i].frame]| == c.pageSize
      &&
         (forall o :: 0 <= o < c.pageSize && (pid, i, o) in log ==>
          s'.ram[s'.tables[pid][i].frame][o] == log[(pid, i, o)])
      && WriteBack(c, s', LogWithout(log, pid, lo, i + 1))
  {
    var here, after := LogWithout(log, pid, lo, i), LogWithout(log, pid, lo, i + 1);
    var s' := AfterVisit(c, s, h, pid, i, false, v);
    VisitInv(c, s, h, pid, i, false, v);
    forall k | k in after ensures Holds(c, s, k.0, k.1, k.2, after[k]) {
      assert k in here && here[k] == after[k];
    }
    VisitExact(c, s, after, h, pid, i, false, v);
    forall o | 0 <= o < c.pageSize && (pid, i, o) in log
      ensures s'.ram[s'.tables[pid][i].frame][o] == log[(pid, i, o)]
    {
      assert here[(pid, i, o)] == log[(pid, i, o)];
      assert Holds(c, s, pid, i, o, log[(pid, i, o)]);
      if v.Fault? { RoomKeeps(c, s, h, pid, i, v.room); }
    }
  }

  /** A read in a row: the page's piece agrees with the bytes written there. */
  lemma {:induction false} VisitShowsPiece(c: Config, s: State, log: Log, h: int, pid: int, i: int, v: Visit, lo: int,
                                           off: int, n: int)
    requires Inv(c, s) && VisitOk(c, s, h, pid, i, v) && lo <= i && WriteBack(c, s, LogWithout(log, pid, lo, i))
    requires 0 <= off && 0 <= n && off + n <= c.pageSize
    ensures var s' := AfterVisit(c, s, h, pid, i, false, v);
      && Inv(c, s') && Resident(s'.tables, pid, i) && 0 <= s'.tables[pid][i].frame < |s'.ram|
      && |s'.ram[s'.tables[pid][i].frame]| == c.pageSize
      && WriteBack(c, s', LogWithout(log, pid, lo, i + 1))
      && var piece := s'.ram[s'.tables[pid][i].frame][off..off + n];
         forall o :: off <= o < off + n && (pid, i, o) in log ==> piece[o - off] == log[(pid, i, o)]
  {
    VisitShows(c, s, log, h, pid, i, v, lo);
  }

  /** Reads never lose a modified bit in these configurations. */
  predicate ReadsKeep(c: Config) {
    c.repaired || c.tlbSize == 0
  }

  /** All pages of process pid from lo to hi - 1 are in memory. */
  ghost predicate AllIn(t: Tables, pid: int, lo: int, hi: int) {
    forall j :: lo <= j < hi ==> Resident(t, pid, j)
  }

  /** Writing to a page in memory takes no page out, and marks the page. */
  lemma {:induction false} StaysIn(c: Config, s: State, h: int, pid: int, i: int, v: Visit, lo: int, hi: int)
    requires Inv(c, s) && VisitOk(c, s, h, pid, i, v) && AllIn(s.tables, pid, lo, hi) && lo <= i < hi
    ensures AllIn(AfterVisit(c, s, h, pid, i, true, v).tables, pid, lo, hi) && WriteSafe(c, s, pid, i)
  {
    assert Resident(s.tables, pid, i);
    var t' := AfterVisit(c, s, h, pid, i, true, v).tables;
    forall j | lo <= j < hi ensures Resident(t', pid, j) {
      assert Resident(s.tables, pid, j);
    }
  }

  // ------------------------------------- pages the swap store fails to hand back

  /** A fault on this page fails: its swap copy is mistaken for the answer that there is none. */
  ghost predicate Mistaken(s: State, pid: int, i: int) {
    HasPage(s.tables, pid, i) && s.tables[pid][i].Out? && (pid, i) in s.swap && LooksMissing(s.swap[(pid, i)])
  }

  /** The written bytes of page i do not rule out that it begins with that text. */
  predicate MaySpellMissing(log: Log, pid: int, i: int) {
    ((pid, i, 0) in log ==> log[(pid, i, 0)] == 124) && ((pid, i, 1) in log ==> log[(pid, i, 1)] == 0)
  }

  /** Such a page has no other bytes written at its start; and where both its first
      bytes were written, being out of memory with those two bytes is all it takes. */
  lemma {:induction false} MistakenExact(c: Config, s: State, log: Log, pid: int, i: int)
    requires Inv(c, s) && WriteBack(c, s, log) && HasPage(s.tables, pid, i)
    ensures Mistaken(s, pid, i) ==> MaySpellMissing(log, pid, i)
    ensures (pid, i, 0) in log && (pid, i, 1) in log ==>
              (Mistaken(s, pid, i) <==> s.tables[pid][i].Out? && MaySpellMissing(log, pid, i))
  {
    SwapHas(c, s, pid, i);
    if (pid, i, 0) in log { assert Holds(c, s, pid, i, 0, log[(pid, i, 0)]); }
    if (pid, i, 1) in log { assert Holds(c, s, pid, i, 1, log[(pid, i, 1)]); }
  }

  /** Page i is visited on the way from s to s'; a write may have stored bytes then. */
  ghost predicate Follows(c: Config, s: State, pid: int, i: int, write: bool, s': State) {
    && Inv(c, s) && !Mistaken(s, pid, i)
    && exists h: int, v: Visit :: VisitedTo(c, s, h, pid, i, write, v, s')
  }

  ghost predicate VisitedTo(c: Config, s: State, h: int, pid: int, i: int, write: bool, v: Visit, s': State)
    requires Inv(c, s)
  {
    && VisitOk(c, s, h, pid, i, v)
    && var s1 := AfterVisit(c, s, h, pid, i, write, v);
       s'.tables == s1.tables && s'.frames == s1.frames && s'.swap == s1.swap && (!write ==> s'.ram == s1.ram)
  }

  ghost predicate Link(c: Config, ss: seq<State>, pid: int, first: int, write: bool, k: int)
    requires 0 <= k && k + 1 < |ss|
  {
    Follows(c, ss[k], pid, first + k, write, ss[k + 1])
  }

  /** The memories between visits to a process's pages in a row, from page first on. */
  ghost predicate Trail(c: Config, ss: seq<State>, pid: int, first: int, write: bool) {
    |ss| > 0 && forall k :: 0 <= k < |ss| - 1 ==> Link(c, ss, pid, first, write, k)
  }

  /** A request over pages first to last - 1 took memory from s to s'; ss are the memories
      before each page. It got to the end, or to a page the swap store did not hand back. */
  ghost predicate Journey(c: Config, s: State, pid: int, first: int, last: int, write: bool, ss: seq<State>, s': State,
                          cut: bool) {
    && Trail(c, ss + [s'], pid, first, write) && (ss + [s'])[0] == s
    && if cut then |ss| < last - first && Mistaken(s', pid, first + |ss|) else |ss| == last - first
  }

  lemma {:induction false} TrailGrows(c: Config, ss: seq<State>, s: State, s': State, pid: int, first: int, write: bool)
    requires Trail(c, ss + [s], pid, first, write) && Follows(c, s, pid, first + |ss|, write, s')
    ensures Trail(c, ss + [s] + [s'], pid, first, write) && (ss + [s] + [s'])[0] == (ss + [s])[0]
  {
    var a, b := ss + [s], ss + [s] + [s'];
    forall k | 0 <= k < |b| - 1 ensures Link(c, b, pid, first, write, k) {
      if k < |ss| {
        assert Link(c, a, pid, first, write, k);
        assert b[k] == a[k];
        var n := k + 1;
        assert b[n] == a[n];
      }
    }
  }

  /** When a request is cut: exactly when one of its pages is mistaken for missing at
      the time it is visited, which for a request inside one page is at once. */
  lemma {:induction false} CutExact(c: Config, s: State, pid: int, first: int, last: int, write: bool, ss: seq<State>,
                                    s': State, cut: bool)
    requires Journey(c, s, pid, first, last, write, ss, s', cut)
    ensures cut <==> |ss| < last - first && Mistaken((ss + [s'])[|ss|], pid, first + |ss|)
    ensures forall k :: 0 <= k < |ss| ==> !Mistaken((ss + [s'])[k], pid, first + k)
    ensures first < last ==> (cut && ss == [] <==> Mistaken(s, pid, first))
    ensures last == first + 1 ==> (cut <==> Mistaken(s, pid, first))
  {
    forall k | 0 <= k < |ss| ensures !Mistaken((ss + [s'])[k], pid, first + k) {
      assert Link(c, ss + [s'], pid, first, write, k);
    }
    if |ss| > 0 { assert (ss + [s'])[0] == s; }
  }

  // ------------------------------------------------------- some runs in detail

  /** One frame, pages of one byte, a cache of one register; the code as written. */
  const SMALL: Config := Config(1, 1, 1, 1, false, false, true, false)

  /** Page 0 of process 1 is out of memory; or it is in frame 0, modified. */
  const AWAY: State := State([[0]], [Frame(FREE, 0)], map[1 := [Out(false)]], map[(1, 0) := [3]])
  const DIRTY: State := State([[7]], [Frame(1, 0)], map[1 := [In(0, true, 0)]], map[(1, 0) := [3]])

  /** A byte written to a page that was not in memory is gone after an eviction. */
  lemma {:induction false} LostWrite(v: Visit)
    requires v == Fault(Spare(0), 0)
    ensures Inv(SMALL, AWAY) && VisitOk(SMALL, AWAY, 0, 1, 0, v)
    ensures AfterVisit(SMALL, AWAY, 0, 1, 0, true, v) ==
            State([[3]], [Frame(1, 0)], map[1 := [In(0, false, 0)]], map[(1, 0) := [3]])
    ensures var s := Store(State([[3]], [Frame(1, 0)], map[1 := [In(0, false, 0)]], map[(1, 0) := [3]]), 0, 0, [7]);
      Inv(SMALL, s) && s.ram[0] == [7] && Evict(s, 1, 0, false).swap[(1, 0)] == [3]
  {
    assert 0 in FreeFrames(AWAY.frames);
    VisitInv(SMALL, AWAY, 0, 1, 0, true, v);
    var s1 := AfterVisit(SMALL, AWAY, 0, 1, 0, true, v);
    assert s1.tables[1] == [In(0, false, 0)];
    StoreInv(SMALL, s1, 1, 0, 0, [7]);
  }

  /** A byte written, and nowhere else yet, is gone once its page was read while
      uncached and then evicted. */
  lemma {:induction false} ForgottenMark(v: Visit)
    requires v == Hit(false, 0)
    ensures Inv(SMALL, DIRTY) && VisitOk(SMALL, DIRTY, 0, 1, 0, v) && WriteBack(SMALL, DIRTY, map[(1, 0, 0) := 7])
    ensures AfterVisit(SMALL, DIRTY, 0, 1, 0, false, v) == DIRTY.(tables := map[1 := [In(0, false, 0)]])
    ensures Evict(DIRTY.(tables := map[1 := [In(0, false, 0)]]), 1, 0, false).swap[(1, 0)] == [3]
  {
    VisitInv(SMALL, DIRTY, 0, 1, 0, false, v);
    assert AfterVisit(SMALL, DIRTY, 0, 1, 0, false, v).tables[1] == [In(0, false, 0)];
  }

  /** One frame, pages of two bytes, no cache, everything repaired; page 0 of process 1
      in memory, with the text "|" just written to it. */
  const PAIRS: Config := Config(1, 2, 0, 1, false, false, true, true)
  const SPELT: State := State([[124, 0]], [Frame(1, 0)], map[1 := [In(0, true, 0)]], map[(1, 0) := [3, 3]])

  /** Ordinary data, all repairs made: once evicted, the page cannot be had again. */
  lemma {:induction false} MistakenRun()
    ensures Inv(PAIRS, SPELT) && WriteBack(PAIRS, SPELT, map[(1, 0, 0) := 124, (1, 0, 1) := 0])
    ensures var s := Evict(SPELT, 1, 0, false);
      Inv(PAIRS, s) && WriteBack(PAIRS, s, map[(1, 0, 0) := 124, (1, 0, 1) := 0]) && Mistaken(s, 1, 0)
  {
    assert Resident(SPELT.tables, 1, 0);
    EvictInv(PAIRS, SPELT, 1, 0, false);
    EvictKeeps(PAIRS, SPELT, map[(1, 0, 0) := 124, (1, 0, 1) := 0], 1, 0, false);
    SetPageFacts(SPELT.tables, 1, 0, Out(false));
  }
}
