/** Pages and processes coming and going, in the terms of `Vm`: a page created,
    a process suspended, a page given back, a process gone. */
module Lifecycle {
  import opened Base
  import opened Vm
  import opened Replacement
  import opened Access

  // ------------------------------------------------------ a page is created

  /** A new last page entered memory in the room made for it; no content came with it. */
  ghost predicate CreateOk(c: Config, s: State, h: int, pid: int, room: Room) {
    pid in s.tables && RoomMade(c, NewPage(s, pid), h, pid, room)
  }

  ghost predicate Granted(c: Config, s: State, pid: int) {
    pid in s.tables && (pid, |s.tables[pid]|) in s.swap && |s.swap[(pid, |s.tables[pid]|)]| == c.pageSize
  }

  ghost function Created(c: Config, s: State, h: int, pid: int, room: Room, use: int): State
    requires Inv(c, s) && Granted(c, s, pid) && CreateOk(c, s, h, pid, room)
  {
    NewPageInv(c, s, pid);
    RoomKeeps(c, NewPage(s, pid), h, pid, |s.tables[pid]|, room);
    Load(WithRoom(NewPage(s, pid), room), pid, |s.tables[pid]|, RoomAt(room), None, false, use)
  }

  lemma {:induction false} CreatedKeeps(c: Config, s: State, h: int, pid: int, room: Room, use: int)
    requires Inv(c, s) && Granted(c, s, pid) && CreateOk(c, s, h, pid, room)
    ensures Inv(c, Created(c, s, h, pid, room, use))
    ensures forall log: Log :: WriteBack(c, s, log) ==> WriteBack(c, Created(c, s, h, pid, room, use), log)
    ensures SamePages(NewPage(s, pid).tables, Created(c, s, h, pid, room, use).tables)
  {
    var s1, i := NewPage(s, pid), |s.tables[pid]|;
    NewPageInv(c, s, pid);
    RoomKeeps(c, s1, h, pid, i, room);
    RoomPages(c, s1, h, pid, i, room);
    LoadInv(c, WithRoom(s1, room), pid, i, RoomAt(room), None, false, use);
    forall log: Log | WriteBack(c, s, log) ensures WriteBack(c, Created(c, s, h, pid, room, use), log) {
      NewPageKeeps(c, s, log, pid);
      CreateKeeps(c, WithRoom(s1, room), log, pid, i, RoomAt(room), use);
    }
  }

  /** A new page is unmarked, in the frame that was had for it, whatever that holds. */
  lemma {:induction false} CreatedIs(c: Config, s: State, h: int, pid: int, room: Room, use: int)
    requires Inv(c, s) && Granted(c, s, pid) && CreateOk(c, s, h, pid, room)
    ensures room.Taken? ==> Resident(room.t, room.vp, room.vi)
    ensures var s', n := Created(c, s, h, pid, room, use), |s.tables[pid]|;
      && s'.ram == s.ram && HasPage(s'.tables, pid, n) && !HasPage(s'.tables, pid, n + 1)
      && s'.tables[pid][n] == In(RoomAt(room), false, use)
  {
    var s1, n := NewPage(s, pid), |s.tables[pid]|;
    NewPageInv(c, s, pid);
    RoomKeeps(c, s1, h, pid, n, room);
    RoomPages(c, s1, h, pid, n, room);
  }

  lemma {:induction false} NewPageLogs(c: Config, s: State, pid: int)
    requires Inv(c, s) && Granted(c, s, pid)
    ensures Inv(c, NewPage(s, pid))
    ensures forall log: Log :: WriteBack(c, s, log) ==> WriteBack(c, NewPage(s, pid), log)
  {
    NewPageInv(c, s, pid);
    forall log: Log | WriteBack(c, s, log) ensures WriteBack(c, NewPage(s, pid), log) {
      NewPageKeeps(c, s, log, pid);
    }
  }

  lemma {:induction false} CreatedRecency(c: Config, s: State, h: int, pid: int, room: Room, use: int,
                                          hist: seq<(int, int)>, now: int, now': int)
    requires Inv(c, s) && Granted(c, s, pid) && CreateOk(c, s, h, pid, room) && !c.clock
    requires Recency(s.tables, hist, now) && now <= use < now'
    ensures Recency(Created(c, s, h, pid, room, use).tables, hist + [(pid, |s.tables[pid]|)], now')
  {
    hide Inv, RoomMade, WithRoom, Recency;
    var s1, i := NewPage(s, pid), |s.tables[pid]|;
    NewPageInv(c, s, pid);
    NewPageUses(s, pid);
    RecencyShrinks(s.tables, s1.tables, hist, now, now);
    RoomKeeps(c, s1, h, pid, i, room);
    RoomUses(c, s1, h, pid, i, room);
    RecencyShrinks(s1.tables, WithRoom(s1, room).tables, hist, now, now);
    SetPageFacts(WithRoom(s1, room).tables, pid, i, In(RoomAt(room), false, use));
    RecencyAccess(WithRoom(s1, room).tables, Created(c, s, h, pid, room, use).tables, hist, now, now', pid, i);
  }

  lemma {:induction false} NewPageUses(s: State, pid: int)
    requires pid in s.tables
    ensures forall q, j :: Resident(NewPage(s, pid).tables, q, j) ==>
              Resident(s.tables, q, j) && NewPage(s, pid).tables[q][j] == s.tables[q][j]
  {
  }

  // ---------------------------------------------------- a process comes in

  function Started(s: State, pid: int): State {
    s.(tables := s.tables[pid := []])
  }

  lemma {:induction false} StartedKeeps(c: Config, s: State, pid: int)
    requires Inv(c, s) && pid !in s.tables && pid != FREE
    ensures Inv(c, Started(s, pid))
    ensures forall log: Log :: WriteBack(c, s, log) ==> WriteBack(c, Started(s, pid), log)
  {
    var s' := Started(s, pid);
    assert forall q, j :: HasPage(s'.tables, q, j) <==> HasPage(s.tables, q, j);
    assert PresentOf(s'.tables[pid]) == {};
    forall log: Log | WriteBack(c, s, log) ensures WriteBack(c, s', log) {
      forall k | k in log ensures Holds(c, s', k.0, k.1, k.2, log[k]) {
        assert Holds(c, s, k.0, k.1, k.2, log[k]);
      }
    }
  }

  // ------------------------------------------------ a process is suspended

  /** The page as suspension leaves it: out of memory, keeping its modified bit. */
  function Asleep(p: Page): Page {
    if p.In? then Out(p.dirty) else p
  }

  ghost predicate Sleeper(s: State, pid: int, k: int, x: Frame) {
    x.pid == pid && x.page < k
  }

  /** The first k pages of process pid are out of memory, the modified ones saved. */
  ghost function Suspended(s: State, pid: int, k: nat): State
    requires pid in s.tables && k <= |s.tables[pid]|
    requires forall i :: Resident(s.tables, pid, i) ==> 0 <= s.tables[pid][i].frame < |s.ram|
  {
    var ps := s.tables[pid];
    State(s.ram,
          seq(|s.frames|, f requires 0 <= f < |s.frames| =>
            if Sleeper(s, pid, k, s.frames[f]) then Frame(FREE, s.frames[f].page) else s.frames[f]),
          s.tables[pid := seq(|ps|, i requires 0 <= i < |ps| => if i < k then Asleep(ps[i]) else ps[i])],
          map q | q in s.swap :: if q.0 == pid && 0 <= q.1 < k && ps[q.1].In? && ps[q.1].dirty
                                 then (assert Resident(s.tables, pid, q.1); s.ram[ps[q.1].frame]) else s.swap[q])
  }

  lemma {:induction false} SuspendedNone(c: Config, s: State, pid: int)
    requires Inv(c, s) && pid in s.tables
    ensures Suspended(s, pid, 0) == s
  {
    var s' := Suspended(s, pid, 0);
    forall f | 0 <= f < |s.frames| ensures s'.frames[f] == s.frames[f] {
      assert s.frames[f].pid != FREE ==> Resident(s.tables, s.frames[f].pid, s.frames[f].page);
    }
    assert s'.frames == s.frames;
    assert s'.tables[pid] == s.tables[pid];
    assert s'.swap == s.swap;
  }

  /** Putting one more page to sleep is one eviction, or nothing if it was out. */
  lemma {:induction false} SuspendOne(c: Config, s: State, pid: int, k: nat)
    requires Inv(c, s) && pid in s.tables && k < |s.tables[pid]|
    requires Inv(c, Suspended(s, pid, k))
    ensures Suspended(s, pid, k).tables[pid][k] == s.tables[pid][k]
    ensures s.tables[pid][k].Out? ==> Suspended(s, pid, k + 1) == Suspended(s, pid, k)
    ensures s.tables[pid][k].In? ==> Resident(Suspended(s, pid, k).tables, pid, k)
    ensures s.tables[pid][k].In? ==> 0 <= s.tables[pid][k].frame < |s.frames| == |s.ram|
    ensures s.tables[pid][k].In? ==>
              Suspended(s, pid, k + 1) == Evict(Suspended(s, pid, k), pid, k, s.tables[pid][k].dirty)
  {
    SuspendFrames(c, s, pid, k);
    SuspendTables(c, s, pid, k);
    SuspendSwap(c, s, pid, k);
  }

  lemma {:induction false} SuspendTables(c: Config, s: State, pid: int, k: nat)
    requires Inv(c, s) && pid in s.tables && k < |s.tables[pid]|
    ensures var p := s.tables[pid][k]; var t := Suspended(s, pid, k).tables;
      && t.Keys == s.tables.Keys && |t[pid]| == |s.tables[pid]| && t[pid][k] == p
      && Suspended(s, pid, k + 1).tables == if p.In? then SetPage(t, pid, k, Out(p.dirty)) else t
  {
    var p := s.tables[pid][k];
    var t, t' := Suspended(s, pid, k).tables, Suspended(s, pid, k + 1).tables;
    assert t'[pid] == if p.In? then t[pid][k := Out(p.dirty)] else t[pid];
  }

  lemma {:induction false} SuspendFrames(c: Config, s: State, pid: int, k: nat)
    requires Inv(c, s) && pid in s.tables && k < |s.tables[pid]|
    ensures var p := s.tables[pid][k]; var fs := Suspended(s, pid, k).frames;
      && (p.In? ==> 0 <= p.frame < |fs|)
      && Suspended(s, pid, k + 1).frames == if p.In? then fs[p.frame := Frame(FREE, k)] else fs
  {
    var p := s.tables[pid][k];
    forall f | 0 <= f < |s.frames| ensures s.frames[f] == Frame(pid, k) <==> p.In? && p.frame == f {
      assert Resident(s.tables, pid, k) <==> p.In?;
      assert s.frames[f] == Frame(pid, k) ==> Resident(s.tables, pid, k);
    }
  }

  lemma {:induction false} SuspendSwap(c: Config, s: State, pid: int, k: nat)
    requires Inv(c, s) && pid in s.tables && k < |s.tables[pid]|
    ensures var p := s.tables[pid][k]; var sw := Suspended(s, pid, k).swap;
      && (p.In? ==> 0 <= p.frame < |s.ram|)
      && Suspended(s, pid, k + 1).swap == if p.In? && p.dirty then sw[(pid, k) := s.ram[p.frame]] else sw
  {
    assert HasPage(s.tables, pid, k);
    assert s.tables[pid][k].In? ==> Resident(s.tables, pid, k);
  }

  /** Suspension keeps every written byte safe, at every point of the loop. */
  lemma {:induction false} SuspendStep(c: Config, s: State, pid: int, k: nat)
    requires Inv(c, s) && pid in s.tables && k < |s.tables[pid]|
    requires Inv(c, Suspended(s, pid, k))
    ensures Inv(c, Suspended(s, pid, k + 1))
    ensures forall log: Log :: WriteBack(c, Suspended(s, pid, k), log) ==> WriteBack(c, Suspended(s, pid, k + 1), log)
  {
    SuspendOne(c, s, pid, k);
    var a := Suspended(s, pid, k);
    if s.tables[pid][k].In? {
      EvictInv(c, a, pid, k, s.tables[pid][k].dirty);
      forall log: Log | WriteBack(c, a, log) ensures WriteBack(c, Suspended(s, pid, k + 1), log) {
        EvictKeeps(c, a, log, pid, k, s.tables[pid][k].dirty);
      }
    }
  }

  // -------------------------------------------------------- a process exits

  /** eliminar_proceso_i. The code as written gives its frames to pid 0. */
  ghost function Removed(c: Config, s: State, pid: int): State {
    State(s.ram,
          seq(|s.frames|, f requires 0 <= f < |s.frames| =>
            if s.frames[f].pid == pid then Frame(if c.repaired then FREE else 0, s.frames[f].page) else s.frames[f]),
          s.tables - {pid},
          map q | q in s.swap && q.0 != pid :: s.swap[q])
  }

  function LogOfOthers(log: Log, pid: int): Log {
    map k | k in log && k.0 != pid :: log[k]
  }

  /** The frame table still matches the page tables exactly when the frames really
      become free, or there were none; and nobody else's bytes are touched. */
  lemma {:induction false} RemovedExact(c: Config, s: State, pid: int)
    requires Inv(c, s) && pid in s.tables
    ensures Inv(c, Removed(c, s, pid)) <==> c.repaired || PresentOf(s.tables[pid]) == {}
    ensures Inv(c, Removed(c, s, pid)) ==>
              forall log: Log :: WriteBack(c, s, log) ==> WriteBack(c, Removed(c, s, pid), LogOfOthers(log, pid))
  {
    var s' := Removed(c, s, pid);
    forall i | i in PresentOf(s.tables[pid]) && !c.repaired ensures !Linked(s'.frames, s'.tables) {
      assert Resident(s.tables, pid, i);
      var f := s.tables[pid][i].frame;
      assert s'.frames[f] == Frame(0, i);
      if Resident(s'.tables, 0, i) {
        assert Resident(s.tables, 0, i);
      }
    }
    if c.repaired || PresentOf(s.tables[pid]) == {} {
      RemovedInv(c, s, pid);
      forall log: Log | WriteBack(c, s, log) ensures WriteBack(c, s', LogOfOthers(log, pid)) {
        var log' := LogOfOthers(log, pid);
        forall k | k in log' ensures Holds(c, s', k.0, k.1, k.2, log'[k]) {
          assert Holds(c, s, k.0, k.1, k.2, log[k]);
        }
      }
    }
  }

  lemma {:induction false} RemovedInv(c: Config, s: State, pid: int)
    requires Inv(c, s) && pid in s.tables && (c.repaired || PresentOf(s.tables[pid]) == {})
    ensures Inv(c, Removed(c, s, pid))
  {
    var s' := Removed(c, s, pid);
    assert forall q, j :: Resident(s'.tables, q, j) <==> q != pid && Resident(s.tables, q, j);
    forall f | 0 <= f < |s.frames| && s.frames[f].pid == pid ensures s'.frames[f].pid == FREE {
      assert Resident(s.tables, pid, s.frames[f].page);
      assert s.frames[f].page in PresentOf(s.tables[pid]);
    }
  }

  // --------------------------------- nobody else's pages, presence or use values

  lemma {:induction false} EvictUses(s: State, pid: int, i: int, stale: bool)
    requires Resident(s.tables, pid, i) && 0 <= s.tables[pid][i].frame < |s.frames| == |s.ram|
    ensures forall q, j :: Resident(Evict(s, pid, i, stale).tables, q, j) ==>
              Resident(s.tables, q, j) && Evict(s, pid, i, stale).tables[q][j] == s.tables[q][j]
  {
  }

  lemma {:induction false} StartedUses(s: State, pid: int)
    ensures forall q, j :: Resident(Started(s, pid).tables, q, j) ==>
              Resident(s.tables, q, j) && Started(s, pid).tables[q][j] == s.tables[q][j]
  {
  }

  lemma {:induction false} DropUses(s: State, pid: int)
    requires pid in s.tables && |s.tables[pid]| > 0
    requires var p := s.tables[pid][|s.tables[pid]| - 1]; p.In? ==> 0 <= p.frame < |s.frames|
    ensures forall q, j :: Resident(DropLast(s, pid).tables, q, j) ==>
              Resident(s.tables, q, j) && DropLast(s, pid).tables[q][j] == s.tables[q][j]
  {
  }

  lemma {:induction false} RemovedUses(c: Config, s: State, pid: int)
    ensures forall q, j :: Resident(Removed(c, s, pid).tables, q, j) ==>
              Resident(s.tables, q, j) && Removed(c, s, pid).tables[q][j] == s.tables[q][j]
  {
  }

  lemma {:induction false} FramesInRam(c: Config, s: State, pid: int)
    requires Inv(c, s)
    ensures forall i :: Resident(s.tables, pid, i) ==> 0 <= s.tables[pid][i].frame < |s.ram| == |s.frames|
  {
  }

  lemma {:induction false} SuspendedAll(s: State, pid: int)
    requires pid in s.tables
    requires forall i :: Resident(s.tables, pid, i) ==> 0 <= s.tables[pid][i].frame < |s.ram|
    ensures PresentOf(Suspended(s, pid, |s.tables[pid]|).tables[pid]) == {}
  {
  }

  // -------------------- the steps spelt out, for callers that keep them folded

  lemma {:induction false} EvictIs(s: State, pid: int, i: int, stale: bool)
    requires Resident(s.tables, pid, i) && 0 <= s.tables[pid][i].frame < |s.frames| == |s.ram|
    ensures var p := s.tables[pid][i];
      Evict(s, pid, i, stale) ==
          State(s.ram, s.frames[p.frame := Frame(FREE, i)], SetPage(s.tables, pid, i, Out(stale)),
                                       if p.dirty then s.swap[(pid, i) := s.ram[p.frame]] else s.swap)
  {
  }

  lemma {:induction false} DropLastIs(s: State, pid: int)
    requires pid in s.tables && |s.tables[pid]| > 0
    requires var p := s.tables[pid][|s.tables[pid]| - 1]; p.In? ==> 0 <= p.frame < |s.frames|
    ensures var n := |s.tables[pid]| - 1; var p := s.tables[pid][n];
      DropLast(s, pid) == State(s.ram, if p.In? then s.frames[p.frame := Frame(FREE, n)] else s.frames,
                                s.tables[pid := s.tables[pid][..n]], s.swap)
  {
  }

  /** What a suspension leaves: the pages out, each with the mark it had, the frames free, and
      the content of the marked ones, and of no others, in swap; other processes as they were. */
  lemma {:induction false} SuspendedIs(c: Config, s: State, pid: int)
    requires Inv(c, s) && pid in s.tables
    ensures forall i :: Resident(s.tables, pid, i) ==> 0 <= s.tables[pid][i].frame < |s.ram|
    ensures var s' := Suspended(s, pid, |s.tables[pid]|);
      && s'.ram == s.ram && s'.tables.Keys == s.tables.Keys && |s'.tables[pid]| == |s.tables[pid]|
      && (forall q :: q in s.tables && q != pid ==> s'.tables[q] == s.tables[q])
      && (forall i :: 0 <= i < |s.tables[pid]| ==>
            s'.tables[pid][i] == if s.tables[pid][i].In? then Out(s.tables[pid][i].dirty) else s.tables[pid][i])
      && |s'.frames| == |s.frames|
      && (forall f :: 0 <= f < |s.frames| ==>
            s'.frames[f] == if s.frames[f].pid == pid then Frame(FREE, s.frames[f].page) else s.frames[f])
      && s'.swap.Keys == s.swap.Keys
      && (forall q, i :: (q, i) in s.swap ==>
            s'.swap[(q, i)] == if q == pid && Resident(s.tables, q, i) && s.tables[q][i].dirty
                               then s.ram[s.tables[q][i].frame] else s.swap[(q, i)])
  {
    FramesInRam(c, s, pid);
    forall f | 0 <= f < |s.frames| && s.frames[f].pid == pid ensures s.frames[f].page < |s.tables[pid]| {
      assert Resident(s.tables, pid, s.frames[f].page);
    }
  }

  /** What an exit leaves: no table and no swap copy of the process; its frames free, or, as
      written, process 0's; everything else as it was. */
  lemma {:induction false} RemovedIs(c: Config, s: State, pid: int)
    ensures Removed(c, s, pid) == State(s.ram, Removed(c, s, pid).frames, s.tables - {pid},
                                        map q | q in s.swap && q.0 != pid :: s.swap[q])
    ensures |Removed(c, s, pid).frames| == |s.frames| && forall f :: 0 <= f < |s.frames| ==>
              Removed(c, s, pid).frames[f] == if s.frames[f].pid != pid then s.frames[f]
                                              else Frame(if c.repaired then FREE else 0, s.frames[f].page)
  {
  }
}
