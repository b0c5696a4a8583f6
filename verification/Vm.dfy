/** The paged memory without its translation cache: RAM cut into frames, one
    page table per process, and the remote swap store as a map. Every step the
    memory server takes is one of the small steps below (or several in a row);
    `Paging` shows that the real server, cache included, takes exactly these.
    What the steps keep is that all of it is invisible: a map of the bytes ever
    written, per process, page and offset, is what a reader sees. */
module Vm {
  import opened Base

  const FREE: int := -1

  /** The server's configuration. `repaired` chooses between the code as it is
      written (false) and the code with its dirty-bit slips mended (true). */
  datatype Config = Config(frameCount: nat, pageSize: nat, tlbSize: nat, ownMax: nat,
                           fixed: bool, clock: bool, tlbFifo: bool, repaired: bool) {
    ghost predicate Ok() { frameCount > 0 && pageSize > 0 && ownMax > 0 }
  }

  /** A page is out of memory (with whatever modified bit its record kept) or
      in a frame, with its modified bit and its use bit or access time. */
  datatype Page = Out(stale: bool) | In(frame: int, dirty: bool, use: int)

  datatype Frame = Frame(pid: int, page: int)

  type Tables = map<int, seq<Page>>
  type Swap = map<(int, int), seq<Byte>>
  type Log = map<(int, int, int), Byte>

  datatype State = State(ram: seq<seq<Byte>>, frames: seq<Frame>, tables: Tables, swap: Swap)

  ghost predicate HasPage(tables: Tables, pid: int, i: int) {
    pid in tables && 0 <= i < |tables[pid]|
  }

  ghost predicate Resident(tables: Tables, pid: int, i: int) {
    HasPage(tables, pid, i) && tables[pid][i].In?
  }

  /** Frame f is held by (pid, i) exactly when that page is present in frame f. */
  ghost predicate Linked(frames: seq<Frame>, tables: Tables) {
    && (forall pid, i :: Resident(tables, pid, i) ==>
          0 <= tables[pid][i].frame < |frames| && frames[tables[pid][i].frame] == Frame(pid, i))
    && (forall f :: 0 <= f < |frames| && frames[f].pid != FREE ==>
          Resident(tables, frames[f].pid, frames[f].page) && tables[frames[f].pid][frames[f].page].frame == f)
  }

  /** The pages of one process that are in memory. */
  ghost function PresentOf(pages: seq<Page>): set<int> {
    set i | 0 <= i < |pages| && pages[i].In?
  }

  ghost function OwnFrames(frames: seq<Frame>, pid: int): set<int> {
    set f | 0 <= f < |frames| && frames[f].pid == pid
  }

  ghost predicate Bounded(c: Config, tables: Tables) {
    c.fixed ==> forall pid :: pid in tables ==> |PresentOf(tables[pid])| <= c.ownMax
  }

  ghost predicate Stored(c: Config, tables: Tables, swap: Swap) {
    forall pid, i :: HasPage(tables, pid, i) ==> (pid, i) in swap && |swap[(pid, i)]| == c.pageSize
  }

  ghost predicate Framed(c: Config, ram: seq<seq<Byte>>, frames: seq<Frame>) {
    |ram| == |frames| == c.frameCount && forall f :: 0 <= f < |ram| ==> |ram[f]| == c.pageSize
  }

  ghost predicate Inv(c: Config, vm: State) {
    && c.Ok()
    && FREE !in vm.tables
    && Framed(c, vm.ram, vm.frames)
    && Linked(vm.frames, vm.tables)
    && Stored(c, vm.tables, vm.swap)
    && Bounded(c, vm.tables)
  }

  /** Byte b is what a reader of (pid, page i, offset off) gets, now and after
      any eviction: it is in the frame, and also in swap if the frame may be dropped. */
  ghost predicate Holds(c: Config, vm: State, pid: int, i: int, off: int, b: Byte)
    requires Inv(c, vm)
  {
    0 <= off < c.pageSize && HasPage(vm.tables, pid, i) &&
    match vm.tables[pid][i]
    case Out(_) => vm.swap[(pid, i)][off] == b
    case In(f, dirty, _) =>
      assert Resident(vm.tables, pid, i);
      vm.ram[f][off] == b && (!dirty ==> vm.swap[(pid, i)][off] == b)
  }

  /** The write-back invariant over the bytes ever written. */
  ghost predicate WriteBack(c: Config, vm: State, log: Log)
    requires Inv(c, vm)
  {
    forall k :: k in log ==> Holds(c, vm, k.0, k.1, k.2, log[k])
  }

  /** Every written byte of page (pid, i) is also in its swap copy. */
  ghost predicate SwapAgrees(c: Config, vm: State, log: Log, pid: int, i: int)
    requires Inv(c, vm) && HasPage(vm.tables, pid, i)
  {
    forall k :: k in log && k.0 == pid && k.1 == i && 0 <= k.2 < c.pageSize ==>
      vm.swap[(pid, i)][k.2] == log[k]
  }

  // ---------------------------------------------------------------- steps

  function SetPage(tables: Tables, pid: int, i: int, p: Page): Tables
    requires pid in tables && 0 <= i < |tables[pid]|
  {
    tables[pid := tables[pid][i := p]]
  }

  /** A present page is accessed: new modified bit, new use value. */
  function Touch(vm: State, pid: int, i: int, dirty: bool, use: int): State
    requires pid in vm.tables && 0 <= i < |vm.tables[pid]| && vm.tables[pid][i].In?
  {
    vm.(tables := SetPage(vm.tables, pid, i, In(vm.tables[pid][i].frame, dirty, use)))
  }

  /** A present page leaves its frame; a modified one is sent to swap first. */
  function Evict(vm: State, pid: int, i: int, stale: bool): State
    requires pid in vm.tables && 0 <= i < |vm.tables[pid]| && vm.tables[pid][i].In?
    requires 0 <= vm.tables[pid][i].frame < |vm.frames| == |vm.ram|
  {
    var p := vm.tables[pid][i];
    State(vm.ram, vm.frames[p.frame := Frame(FREE, i)],
          SetPage(vm.tables, pid, i, Out(stale)),
          if p.dirty then vm.swap[(pid, i) := vm.ram[p.frame]] else vm.swap)
  }

  /** A page enters frame f, with the given content or with whatever f held. */
  function Load(vm: State, pid: int, i: int, f: int, content: Option<seq<Byte>>, dirty: bool, use: int): State
    requires pid in vm.tables && 0 <= i < |vm.tables[pid]|
    requires 0 <= f < |vm.frames| == |vm.ram|
  {
    State(if content.Some? then vm.ram[f := content.value] else vm.ram,
          vm.frames[f := Frame(pid, i)],
          SetPage(vm.tables, pid, i, In(f, dirty, use)),
          vm.swap)
  }

  /** A process gets one more page, which swap has already granted. */
  function NewPage(vm: State, pid: int): State
    requires pid in vm.tables
  {
    vm.(tables := vm.tables[pid := vm.tables[pid] + [Out(false)]])
  }

  /** The last page of a process is given back without being saved. */
  function DropLast(vm: State, pid: int): State
    requires pid in vm.tables && |vm.tables[pid]| > 0
    requires var p := vm.tables[pid][|vm.tables[pid]| - 1]; p.In? ==> 0 <= p.frame < |vm.frames|
  {
    var last := |vm.tables[pid]| - 1;
    var p := vm.tables[pid][last];
    State(vm.ram, if p.In? then vm.frames[p.frame := Frame(FREE, last)] else vm.frames,
          vm.tables[pid := vm.tables[pid][..last]], vm.swap)
  }

  /** Bytes data are stored in frame f from offset off on. */
  function Store(vm: State, f: int, off: int, data: seq<Byte>): State
    requires 0 <= f < |vm.ram| && 0 <= off && off + |data| <= |vm.ram[f]|
  {
    vm.(ram := vm.ram[f := vm.ram[f][..off] + data + vm.ram[f][off + |data|..]])
  }

  function Keys(pid: int, i: int, off: int, n: nat): (s: set<(int, int, int)>)
    ensures forall k :: k in s <==> k.0 == pid && k.1 == i && off <= k.2 < off + n
  {
    set o: int | off <= o < off + n :: (pid, i, o)
  }

  /** The written bytes after data went to offset off of page (pid, i). */
  function LogAt(log: Log, pid: int, i: int, off: int, data: seq<Byte>): Log {
    map k | k in log.Keys + Keys(pid, i, off, |data|) ::
      if k.0 == pid && k.1 == i && off <= k.2 < off + |data| then data[k.2 - off] else log[k]
  }

  /** The written bytes once every page from limit on was given back. */
  function LogBelow(log: Log, pid: int, limit: int): Log {
    map k | k in log && (k.0 == pid ==> k.1 < limit) :: log[k]
  }

  /** Only use values differ: what choosing a victim may change. */
  ghost predicate SameButUse(t0: Tables, t1: Tables) {
    && t0.Keys == t1.Keys
    && (forall pid :: pid in t0 ==> |t0[pid]| == |t1[pid]|)
    && (forall pid, i :: HasPage(t0, pid, i) ==> SamePageButUse(t0[pid][i], t1[pid][i]))
  }

  predicate SamePageButUse(p: Page, q: Page) {
    match p
    case Out(s) => q == p
    case In(f, d, _) => q.In? && q.frame == f && q.dirty == d
  }

  /** Two table maps that agree page by page are equal. */
  lemma {:induction false} TablesEqual(t0: Tables, t1: Tables)
    requires t0.Keys == t1.Keys
    requires forall pid :: pid in t0 ==> |t0[pid]| == |t1[pid]|
    requires forall pid, i :: HasPage(t0, pid, i) ==> t0[pid][i] == t1[pid][i]
    ensures t0 == t1
  {
    forall pid | pid in t0 ensures t0[pid] == t1[pid] {
      assert forall i :: 0 <= i < |t0[pid]| ==> HasPage(t0, pid, i);
    }
  }

  // ---------------------------------------------- what the steps preserve

  lemma {:induction false} SetPageFacts(t: Tables, pid: int, i: int, p: Page)
    requires HasPage(t, pid, i)
    ensures var t' := SetPage(t, pid, i, p);
      && t'.Keys == t.Keys
      && (forall q, j :: HasPage(t', q, j) <==> HasPage(t, q, j))
      && (forall q, j :: HasPage(t, q, j) && (q, j) != (pid, i) ==> t'[q][j] == t[q][j])
      && t'[pid][i] == p
      && PresentOf(t'[pid]) == (if p.In? then PresentOf(t[pid]) + {i} else PresentOf(t[pid]) - {i})
      && (forall q :: q in t && q != pid ==> t'[q] == t[q])
  {
  }

  lemma {:induction false} TouchInv(c: Config, vm: State, pid: int, i: int, dirty: bool, use: int)
    requires Inv(c, vm) && Resident(vm.tables, pid, i)
    ensures Inv(c, Touch(vm, pid, i, dirty, use))
  {
    SetPageFacts(vm.tables, pid, i, In(vm.tables[pid][i].frame, dirty, use));
    var vm' := Touch(vm, pid, i, dirty, use);
    assert PresentOf(vm'.tables[pid]) == PresentOf(vm.tables[pid]);
  }

  /** An access keeps the invariant exactly when it leaves the page marked
      modified, or its swap copy is current anyway. */
  lemma {:induction false} TouchExact(c: Config, vm: State, log: Log, pid: int, i: int, dirty: bool, use: int)
    requires Inv(c, vm) && Resident(vm.tables, pid, i) && WriteBack(c, vm, log)
    ensures Inv(c, Touch(vm, pid, i, dirty, use))
    ensures WriteBack(c, Touch(vm, pid, i, dirty, use), log) <==> dirty || SwapAgrees(c, vm, log, pid, i)
  {
    TouchInv(c, vm, pid, i, dirty, use);
    var vm' := Touch(vm, pid, i, dirty, use);
    if dirty || SwapAgrees(c, vm, log, pid, i) {
      forall k | k in log ensures Holds(c, vm', k.0, k.1, k.2, log[k]) {
        assert Holds(c, vm, k.0, k.1, k.2, log[k]);
      }
    } else {
      var k :| k in log && k.0 == pid && k.1 == i && 0 <= k.2 < c.pageSize && vm.swap[(pid, i)][k.2] != log[k];
      assert !Holds(c, vm', k.0, k.1, k.2, log[k]);
    }
  }

  /** A clean page always agrees with its swap copy. */
  lemma {:induction false} CleanAgrees(c: Config, vm: State, log: Log, pid: int, i: int)
    requires Inv(c, vm) && WriteBack(c, vm, log)
    requires HasPage(vm.tables, pid, i) && (vm.tables[pid][i].In? ==> !vm.tables[pid][i].dirty)
    ensures SwapAgrees(c, vm, log, pid, i)
  {
    forall k | k in log && k.0 == pid && k.1 == i && 0 <= k.2 < c.pageSize
      ensures vm.swap[(pid, i)][k.2] == log[k]
    {
      assert Holds(c, vm, k.0, k.1, k.2, log[k]);
    }
  }

  /** Choosing a victim changes nothing a reader could see. */
  lemma {:induction false} UseKeeps(c: Config, vm: State, log: Log, tables: Tables)
    requires Inv(c, vm) && SameButUse(vm.tables, tables)
    ensures Inv(c, vm.(tables := tables))
    ensures WriteBack(c, vm, log) ==> WriteBack(c, vm.(tables := tables), log)
  {
    UseInv(c, vm, tables);
    var vm' := vm.(tables := tables);
    if WriteBack(c, vm, log) {
      forall k | k in log ensures Holds(c, vm', k.0, k.1, k.2, log[k]) {
        assert Holds(c, vm, k.0, k.1, k.2, log[k]);
      }
    }
  }

  lemma {:induction false} UseInv(c: Config, vm: State, tables: Tables)
    requires Inv(c, vm) && SameButUse(vm.tables, tables)
    ensures Inv(c, vm.(tables := tables))
  {
    assert forall pid, i :: HasPage(tables, pid, i) <==> HasPage(vm.tables, pid, i);
    assert forall pid, i :: Resident(tables, pid, i) <==> Resident(vm.tables, pid, i);
    forall pid | pid in tables ensures PresentOf(tables[pid]) == PresentOf(vm.tables[pid]) {
      assert forall i :: HasPage(tables, pid, i) ==> (tables[pid][i].In? <==> vm.tables[pid][i].In?);
    }
  }

  lemma {:induction false} EvictInv(c: Config, vm: State, pid: int, i: int, stale: bool)
    requires Inv(c, vm) && Resident(vm.tables, pid, i)
    ensures Inv(c, Evict(vm, pid, i, stale))
    ensures |PresentOf(Evict(vm, pid, i, stale).tables[pid])| == |PresentOf(vm.tables[pid])| - 1
  {
    SetPageFacts(vm.tables, pid, i, Out(stale));
    var vm' := Evict(vm, pid, i, stale);
    assert forall q, j :: Resident(vm'.tables, q, j) ==> Resident(vm.tables, q, j);
  }

  /** Eviction loses no written byte: the frame is saved unless the swap copy is current. */
  lemma {:induction false} EvictKeeps(c: Config, vm: State, log: Log, pid: int, i: int, stale: bool)
    requires Inv(c, vm) && Resident(vm.tables, pid, i) && WriteBack(c, vm, log)
    ensures Inv(c, Evict(vm, pid, i, stale)) && WriteBack(c, Evict(vm, pid, i, stale), log)
  {
    EvictInv(c, vm, pid, i, stale);
    var vm' := Evict(vm, pid, i, stale);
    forall k | k in log ensures Holds(c, vm', k.0, k.1, k.2, log[k]) {
      assert Holds(c, vm, k.0, k.1, k.2, log[k]);
    }
  }

  lemma {:induction false} LoadInv(c: Config, vm: State, pid: int, i: int, f: int, content: Option<seq<Byte>>,
                                   dirty: bool, use: int)
    requires Inv(c, vm) && HasPage(vm.tables, pid, i) && vm.tables[pid][i].Out?
    requires 0 <= f < |vm.frames| && vm.frames[f].pid == FREE
    requires c.fixed ==> |PresentOf(vm.tables[pid])| < c.ownMax
    requires content.Some? ==> |content.value| == c.pageSize
    ensures Inv(c, Load(vm, pid, i, f, content, dirty, use))
  {
    SetPageFacts(vm.tables, pid, i, In(f, dirty, use));
    var vm' := Load(vm, pid, i, f, content, dirty, use);
    assert forall q, j :: Resident(vm'.tables, q, j) ==> Resident(vm.tables, q, j) || (q, j) == (pid, i);
  }

  /** A page brought from swap into a free frame reads as before, whatever its
      modified bit says, and its swap copy is current. */
  lemma {:induction false} LoadKeeps(c: Config, vm: State, log: Log, pid: int, i: int, f: int, dirty: bool, use: int)
    requires Inv(c, vm) && HasPage(vm.tables, pid, i) && vm.tables[pid][i].Out? && WriteBack(c, vm, log)
    requires 0 <= f < |vm.frames| && vm.frames[f].pid == FREE
    requires c.fixed ==> |PresentOf(vm.tables[pid])| < c.ownMax
    ensures var vm' := Load(vm, pid, i, f, Some(vm.swap[(pid, i)]), dirty, use);
      Inv(c, vm') && WriteBack(c, vm', log) && SwapAgrees(c, vm', log, pid, i)
  {
    var vm' := Load(vm, pid, i, f, Some(vm.swap[(pid, i)]), dirty, use);
    LoadInv(c, vm, pid, i, f, Some(vm.swap[(pid, i)]), dirty, use);
    forall k | k in log ensures Holds(c, vm', k.0, k.1, k.2, log[k]) {
      assert Holds(c, vm, k.0, k.1, k.2, log[k]);
    }
    CleanAgrees(c, vm, log, pid, i);
  }

  /** A page created in a free frame without content: none of its bytes was ever written. */
  lemma {:induction false} CreateKeeps(c: Config, vm: State, log: Log, pid: int, i: int, f: int, use: int)
    requires Inv(c, vm) && HasPage(vm.tables, pid, i) && vm.tables[pid][i].Out? && WriteBack(c, vm, log)
    requires 0 <= f < |vm.frames| && vm.frames[f].pid == FREE
    requires c.fixed ==> |PresentOf(vm.tables[pid])| < c.ownMax
    requires forall k :: k in log && k.0 == pid ==> k.1 != i
    ensures Inv(c, Load(vm, pid, i, f, None, false, use))
    ensures WriteBack(c, Load(vm, pid, i, f, None, false, use), log)
  {
    var vm' := Load(vm, pid, i, f, None, false, use);
    LoadInv(c, vm, pid, i, f, None, false, use);
    forall k | k in log ensures Holds(c, vm', k.0, k.1, k.2, log[k]) {
      assert Holds(c, vm, k.0, k.1, k.2, log[k]);
    }
  }

  lemma {:induction false} NewPageKeeps(c: Config, vm: State, log: Log, pid: int)
    requires Inv(c, vm) && pid in vm.tables
    requires (pid, |vm.tables[pid]|) in vm.swap && |vm.swap[(pid, |vm.tables[pid]|)]| == c.pageSize
    ensures Inv(c, NewPage(vm, pid))
    ensures WriteBack(c, vm, log) ==>
              WriteBack(c, NewPage(vm, pid), log) && forall k :: k in log && k.0 == pid ==> k.1 != |vm.tables[pid]|
  {
    NewPageInv(c, vm, pid);
    var vm' := NewPage(vm, pid);
    if WriteBack(c, vm, log) {
      forall k | k in log
        ensures Holds(c, vm', k.0, k.1, k.2, log[k])
        ensures k.0 == pid ==> k.1 != |vm.tables[pid]|
      {
        assert Holds(c, vm, k.0, k.1, k.2, log[k]);
      }
    }
  }

  lemma {:induction false} NewPageInv(c: Config, vm: State, pid: int)
    requires Inv(c, vm) && pid in vm.tables
    requires (pid, |vm.tables[pid]|) in vm.swap && |vm.swap[(pid, |vm.tables[pid]|)]| == c.pageSize
    ensures Inv(c, NewPage(vm, pid))
  {
    var vm' := NewPage(vm, pid);
    assert PresentOf(vm'.tables[pid]) == PresentOf(vm.tables[pid]);
    assert forall q, j :: Resident(vm'.tables, q, j) <==> Resident(vm.tables, q, j);
  }

  lemma {:induction false} DropLastInv(c: Config, vm: State, pid: int)
    requires Inv(c, vm) && pid in vm.tables && |vm.tables[pid]| > 0
    ensures var p := vm.tables[pid][|vm.tables[pid]| - 1]; p.In? ==> 0 <= p.frame < |vm.frames|
    ensures Inv(c, DropLast(vm, pid))
  {
    var last := |vm.tables[pid]| - 1;
    assert vm.tables[pid][last].In? ==> Resident(vm.tables, pid, last);
    var vm' := DropLast(vm, pid);
    assert PresentOf(vm'.tables[pid]) == PresentOf(vm.tables[pid]) - {last};
    assert forall q, j :: HasPage(vm'.tables, q, j) ==> HasPage(vm.tables, q, j) && vm'.tables[q][j] == vm.tables[q][j];
    assert forall q, j :: Resident(vm'.tables, q, j) ==> Resident(vm.tables, q, j) && (q, j) != (pid, last);
    assert forall q, j :: Resident(vm.tables, q, j) && (q, j) != (pid, last) ==> Resident(vm'.tables, q, j);
  }

  lemma {:induction false} DropLastKeeps(c: Config, vm: State, log: Log, pid: int)
    requires Inv(c, vm) && pid in vm.tables && |vm.tables[pid]| > 0 && WriteBack(c, vm, log)
    ensures var p := vm.tables[pid][|vm.tables[pid]| - 1]; p.In? ==> 0 <= p.frame < |vm.frames|
    ensures Inv(c, DropLast(vm, pid))
    ensures WriteBack(c, DropLast(vm, pid), LogBelow(log, pid, |vm.tables[pid]| - 1))
  {
    DropLastInv(c, vm, pid);
    var vm' := DropLast(vm, pid);
    var log' := LogBelow(log, pid, |vm.tables[pid]| - 1);
    forall k | k in log' ensures Holds(c, vm', k.0, k.1, k.2, log'[k]) {
      assert Holds(c, vm, k.0, k.1, k.2, log[k]);
    }
  }

  lemma {:induction false} StoreInv(c: Config, vm: State, pid: int, i: int, off: int, data: seq<Byte>)
    requires Inv(c, vm) && Resident(vm.tables, pid, i) && 0 <= off && off + |data| <= c.pageSize
    ensures var f := vm.tables[pid][i].frame; 0 <= f < |vm.ram| && off + |data| <= |vm.ram[f]|
    ensures Inv(c, Store(vm, vm.tables[pid][i].frame, off, data))
  {
  }

  /** Storing bytes in a present page keeps the invariant, for the updated map of
      written bytes, exactly when the page is marked modified or the swap copy
      already had those bytes. */
  lemma {:induction false} StoreExact(c: Config, vm: State, log: Log, pid: int, i: int, off: int, data: seq<Byte>)
    requires Inv(c, vm) && Resident(vm.tables, pid, i) && WriteBack(c, vm, log)
    requires 0 <= off && off + |data| <= c.pageSize
    ensures var f := vm.tables[pid][i].frame; 0 <= f < |vm.ram| && off + |data| <= |vm.ram[f]|
    ensures Inv(c, Store(vm, vm.tables[pid][i].frame, off, data))
    ensures WriteBack(c, Store(vm, vm.tables[pid][i].frame, off, data), LogAt(log, pid, i, off, data))
            <==> vm.tables[pid][i].dirty || vm.swap[(pid, i)][off..off + |data|] == data
  {
    StoreInv(c, vm, pid, i, off, data);
    var vm' := Store(vm, vm.tables[pid][i].frame, off, data);
    var log' := LogAt(log, pid, i, off, data);
    var copy := vm.swap[(pid, i)][off..off + |data|];
    if vm.tables[pid][i].dirty || copy == data {
      forall k | k in log' ensures Holds(c, vm', k.0, k.1, k.2, log'[k]) {
        if k in Keys(pid, i, off, |data|) {
          assert copy[k.2 - off] == vm.swap[(pid, i)][k.2];
        } else {
          assert Holds(c, vm, k.0, k.1, k.2, log[k]);
          assert Resident(vm.tables, k.0, k.1) && (k.0, k.1) != (pid, i) ==>
              vm.tables[k.0][k.1].frame != vm.tables[pid][i].frame;
        }
      }
    } else {
      var j :| 0 <= j < |data| && copy[j] != data[j];
      var k := (pid, i, off + j);
      assert k in Keys(pid, i, off, |data|) && k in log' && log'[k] == data[j];
      assert !Holds(c, vm', k.0, k.1, k.2, log'[k]);
    }
  }

  // -------------------------------------------------- frame conservation

  ghost function FreeFrames(frames: seq<Frame>): set<int> {
    set f | 0 <= f < |frames| && frames[f].pid == FREE
  }

  ghost function PresentPages(tables: Tables): set<(int, int)> {
    set pid, i | pid in tables && 0 <= i < |tables[pid]| && tables[pid][i].In? :: (pid, i)
  }

  lemma {:induction false} PagesInFrames(frames: seq<Frame>, tables: Tables, held: set<int>)
    requires Linked(frames, tables) && FREE !in tables
    requires held == Below(|frames|) - FreeFrames(frames)
    ensures |PresentPages(tables)| == |held|
  {
    var pageIn := map f | f in held :: (frames[f].pid, frames[f].page);
    forall f | f in held
      ensures Resident(tables, frames[f].pid, frames[f].page)
      ensures tables[frames[f].pid][frames[f].page].frame == f
    {}
    InjectiveSize(pageIn);
    assert pageIn.Keys == held;
    forall q | q in PresentPages(tables) ensures q in pageIn.Values {
      assert Resident(tables, q.0, q.1);
      var f := tables[q.0][q.1].frame;
      assert f in pageIn && pageIn[f] == q;
    }
    forall q | q in pageIn.Values ensures q in PresentPages(tables) {
      var f :| f in pageIn && pageIn[f] == q;
      assert Resident(tables, q.0, q.1);
    }
    assert pageIn.Values == PresentPages(tables);
  }

  /** Free frames plus present pages is the number of frames, in every state. */
  lemma {:induction false} FrameConservation(c: Config, vm: State)
    requires Inv(c, vm)
    ensures |FreeFrames(vm.frames)| + |PresentPages(vm.tables)| == c.frameCount
  {
    var held := Below(|vm.frames|) - FreeFrames(vm.frames);
    PagesInFrames(vm.frames, vm.tables, held);
    assert held + FreeFrames(vm.frames) == Below(|vm.frames|);
  }

  /** A process owns as many frames as it has present pages. */
  lemma {:induction false} OwnFramesMatchPages(c: Config, vm: State, pid: int)
    requires Inv(c, vm) && pid in vm.tables
    ensures |OwnFrames(vm.frames, pid)| == |PresentOf(vm.tables[pid])|
  {
    var present := PresentOf(vm.tables[pid]);
    var frameOf := map i | i in present :: vm.tables[pid][i].frame;
    assert forall i :: i in present ==> Resident(vm.tables, pid, i);
    InjectiveSize(frameOf);
    assert frameOf.Keys == present;
    assert frameOf.Values == OwnFrames(vm.frames, pid) by {
      forall f | f in OwnFrames(vm.frames, pid) ensures f in frameOf.Values {
        assert frameOf[vm.frames[f].page] == f;
      }
    }
  }
}
