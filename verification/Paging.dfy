/** The memory server: the imperative paging engine with its translation cache.
    Its meaning is a `Vm.State` (cache folded in); every method says which steps
    of `Vm` it takes. */
module Paging {
  import opened Base
  import opened Vm
  import opened Translation
  import opened Replacement
  import opened Ram
  import opened Access
  import opened Linear
  import opened Lifecycle

  const NONE: int := -1
  const INVALID_PAGE: int := -2

  /** A page chosen to leave memory, as the algorithms report it. */
  datatype Victim = Victim(pid: int, pagina: int, marco: int, modificado: bool, tlb: bool)

  /** Insertion stamps order the registers in use by when they were filled. */
  ghost predicate InsertionOrder(tlb: seq<Reg>, ins: seq<(int, int)>) {
    && (forall v :: 0 <= v < |tlb| && tlb[v].pid != FREE ==> 0 <= Last(ins, (tlb[v].pid, tlb[v].pagina)))
    && (forall v, w :: 0 <= v < |tlb| && 0 <= w < |tlb| && v != w && tlb[v].pid != FREE && tlb[w].pid != FREE ==>
          (tlb[v].algTlb < tlb[w].algTlb <==>
           Last(ins, (tlb[v].pid, tlb[v].pagina)) < Last(ins, (tlb[w].pid, tlb[w].pagina))))
  }

  ghost predicate Stamped(tlb: seq<Reg>, algTlb: int, lruC: int) {
    0 <= algTlb <= lruC && forall v :: 0 <= v < |tlb| && tlb[v].pid != FREE ==> tlb[v].algTlb < lruC
  }

  /** The cache's stamps are in order. */
  ghost predicate StampsOk(c: Config, tlb: seq<Reg>, algTlb: int, lruC: int, ins: seq<(int, int)>) {
    && |tlb| == c.tlbSize
    && Stamped(tlb, algTlb, lruC)
    && (c.tlbFifo ==> InsertionOrder(tlb, ins))
  }

  /** Register v may be filled: it is empty, or none is and, under FIFO, it was filled
      before all others. */
  ghost predicate GivesWay(c: Config, tlb: seq<Reg>, ins: seq<(int, int)>, v: int) {
    0 <= v < |tlb| &&
    (tlb[v].pid != FREE ==>
       && (forall w :: 0 <= w < |tlb| ==> tlb[w].pid != FREE)
       && (c.tlbFifo ==> forall w :: 0 <= w < |tlb| && w != v ==>
             Last(ins, (tlb[v].pid, tlb[v].pagina)) < Last(ins, (tlb[w].pid, tlb[w].pagina))))
  }

  /** Page i of pid, which had no register, has one: the register that gave way, of those in
      tlb0, which were filled in the order ins. The other registers hold what they held. */
  ghost predicate TakesRegister(c: Config, tlb0: seq<Reg>, ins: seq<(int, int)>, tlb1: seq<Reg>, pid: int, i: int) {
    exists v :: GivesWay(c, tlb0, ins, v) && |tlb1| == |tlb0| && Is(tlb1[v], pid, i) &&
                forall w :: 0 <= w < |tlb0| && w != v ==> tlb1[w].pid == tlb0[w].pid && tlb1[w].pagina == tlb0[w].pagina
  }

  /** The registers and the order they were filled in, after a page that had none was brought
      to a frame or found in memory. */
  ghost predicate Cached(c: Config, tlb0: seq<Reg>, ins0: seq<(int, int)>, tlb1: seq<Reg>, ins1: seq<(int, int)>,
                         pid: int, i: int) {
    if c.tlbSize > 0 then
      TakesRegister(c, tlb0, ins0, tlb1, pid, i) && Find(tlb1, pid, i) >= 0 && ins1 == ins0 + [(pid, i)]
    else SamePlaces(tlb0, tlb1) && ins1 == ins0
  }

  lemma {:induction false} CachedIn(c: Config, tlb0: seq<Reg>, ins: seq<(int, int)>, tlb1: seq<Reg>, pid: int, i: int,
                                    v: int)
    requires c.tlbSize > 0 && GivesWay(c, tlb0, ins, v) && |tlb1| == |tlb0| && tlb1 == tlb0[v := tlb1[v]]
    requires Is(tlb1[v], pid, i)
    ensures Cached(c, tlb0, ins, tlb1, ins + [(pid, i)], pid, i)
  {
    assert forall w :: 0 <= w < |tlb0| && w != v ==> tlb1[w] == tlb0[w];
  }

  lemma {:induction false} NotKept(c: Config, tlb: seq<Reg>, ins: seq<(int, int)>, pid: int, i: int)
    requires c.tlbSize <= 0
    ensures Cached(c, tlb, ins, tlb, ins, pid, i)
  {
  }

  lemma {:induction false} CachedSame(c: Config, tlb0: seq<Reg>, tlb: seq<Reg>, ins: seq<(int, int)>, tlb1: seq<Reg>,
                                      ins1: seq<(int, int)>, pid: int, i: int)
    requires SamePlaces(tlb0, tlb) && Cached(c, tlb, ins, tlb1, ins1, pid, i)
    ensures Cached(c, tlb0, ins, tlb1, ins1, pid, i)
  {
    if c.tlbSize > 0 {
      var v :| GivesWay(c, tlb, ins, v) && |tlb1| == |tlb| && Is(tlb1[v], pid, i) &&
               forall w :: 0 <= w < |tlb| && w != v ==> tlb1[w].pid == tlb[w].pid && tlb1[w].pagina == tlb[w].pagina;
      assert GivesWay(c, tlb0, ins, v);
    }
  }

  /** The victim's register is found in the same place while only use values change. */
  lemma {:induction false} VictimPlaces(tlb0: seq<Reg>, ps0: Paginas, tlb: seq<Reg>, pid: int, i: int, ps: Paginas)
    requires Coherent(tlb0, ps0) && SamePlaces(tlb0, tlb) && pid in ps && ps.Keys == ps0.Keys
    ensures SamePlaces(Forgotten(tlb0, pid, i), Forgotten(tlb, pid, i))
  {
    hide Forgotten;
    ForgottenPlaces(tlb0, tlb, pid, i);
  }

  lemma {:induction false} CachedByHit(c: Config, tlb0: seq<Reg>, ins: seq<(int, int)>, tlb1: seq<Reg>, pid: int,
                                       i: int, use: int)
    requires SamePlaces(tlb0, tlb1) && Find(tlb0, pid, i) >= 0
    ensures CachedBy(c, tlb0, ins, tlb1, ins, pid, i, Hit(true, use))
  {
    SamePlacesFind(tlb0, tlb1, pid, i);
  }

  lemma {:induction false} CachedByTable(c: Config, tlb0: seq<Reg>, ins0: seq<(int, int)>, tlb1: seq<Reg>,
                                         ins1: seq<(int, int)>, pid: int, i: int, use: int)
    requires Cached(c, tlb0, ins0, tlb1, ins1, pid, i)
    ensures CachedBy(c, tlb0, ins0, tlb1, ins1, pid, i, Hit(false, use))
  {
  }

  lemma {:induction false} StolenCached(c: Config, tlb0: seq<Reg>, ps0: Paginas, tlb: seq<Reg>, ps: Paginas, room: Room,
                                        ins: seq<(int, int)>, tlb1: seq<Reg>, ins1: seq<(int, int)>, pid: int, i: int)
    requires Coherent(tlb0, ps0) && SamePlaces(tlb0, tlb) && ps.Keys == ps0.Keys && room.Taken? && room.vp in ps
    requires Cached(c, Forgotten(tlb, room.vp, room.vi), ins, tlb1, ins1, pid, i)
    ensures Cached(c, RoomTlb(tlb0, room), ins, tlb1, ins1, pid, i)
  {
    hide Coherent, SamePlaces, Cached, Forgotten;
    VictimPlaces(tlb0, ps0, tlb, room.vp, room.vi, ps);
    CachedSame(c, RoomTlb(tlb0, room), Forgotten(tlb, room.vp, room.vi), ins, tlb1, ins1, pid, i);
  }

  lemma {:induction false} SamePlacesFind(tlb0: seq<Reg>, tlb1: seq<Reg>, pid: int, i: int)
    requires SamePlaces(tlb0, tlb1) && Find(tlb0, pid, i) >= 0
    ensures Find(tlb1, pid, i) >= 0
  {
    assert Is(tlb1[Find(tlb0, pid, i)], pid, i);
  }

  /** The registers once the victim's, if room was made by evicting one, is emptied. */
  ghost function RoomTlb(tlb: seq<Reg>, room: Room): seq<Reg> {
    if room.Taken? then Forgotten(tlb, room.vp, room.vi) else tlb
  }

  /** The registers after a visit, hit or fault. */
  ghost predicate CachedBy(c: Config, tlb0: seq<Reg>, ins0: seq<(int, int)>, tlb1: seq<Reg>, ins1: seq<(int, int)>,
                           pid: int, i: int, v: Visit) {
    && (c.tlbSize > 0 ==> Find(tlb1, pid, i) >= 0)
    && match v
       case Hit(cached, _) =>
         if cached then SamePlaces(tlb0, tlb1) && ins1 == ins0 else Cached(c, tlb0, ins0, tlb1, ins1, pid, i)
       case Fault(room, _) => Cached(c, RoomTlb(tlb0, room), ins0, tlb1, ins1, pid, i)
  }

  lemma {:induction false} StampBounds(c: Config, tlb: seq<Reg>, algTlb: int, lruC: int, ins: seq<(int, int)>)
    requires StampsOk(c, tlb, algTlb, lruC, ins)
    ensures 0 <= algTlb <= lruC && |tlb| == c.tlbSize
    ensures forall v :: 0 <= v < |tlb| && tlb[v].pid != FREE ==> tlb[v].algTlb < lruC
  {
  }

  /** Stamps stay in order while the counters advance and a register is touched
      without, under FIFO, being stamped again. */
  lemma {:induction false} StampsTick(c: Config, tlb: seq<Reg>, tlb': seq<Reg>, algTlb: int, algTlb': int, lruC: int,
                                      lruC': int, ins: seq<(int, int)>)
    requires StampsOk(c, tlb, algTlb, lruC, ins) && lruC <= lruC' && 0 <= algTlb' <= lruC' && |tlb'| == |tlb|
    requires forall v :: 0 <= v < |tlb'| && tlb'[v].pid != FREE ==>
               Is(tlb[v], tlb'[v].pid, tlb'[v].pagina) && tlb'[v].algTlb < lruC' &&
               (c.tlbFifo ==> tlb'[v].algTlb == tlb[v].algTlb)
    ensures StampsOk(c, tlb', algTlb', lruC', ins)
  {
    if c.tlbFifo { InsertionShrinks(tlb, tlb', ins); }
  }

  lemma {:induction false} StampsForget(c: Config, tlb: seq<Reg>, algTlb: int, lruC: int, ins: seq<(int, int)>,
                                        pid: int, i: int)
    requires StampsOk(c, tlb, algTlb, lruC, ins) && pid != FREE
    ensures StampsOk(c, Forgotten(tlb, pid, i), algTlb, lruC, ins)
  {
    StampsTick(c, tlb, Forgotten(tlb, pid, i), algTlb, algTlb, lruC, lruC, ins);
  }

  lemma {:induction false} StampsEmpty(c: Config, tlb: seq<Reg>, algTlb: int, lruC: int, ins: seq<(int, int)>, k: int,
                                       r: Reg)
    requires StampsOk(c, tlb, algTlb, lruC, ins) && 0 <= k < |tlb| && r.pid == FREE
    ensures StampsOk(c, tlb[k := r], algTlb, lruC, ins)
  {
    StampsTick(c, tlb, tlb[k := r], algTlb, algTlb, lruC, lruC, ins);
  }

  lemma {:induction false} StampsWithout(c: Config, tlb: seq<Reg>, algTlb: int, lruC: int, ins: seq<(int, int)>,
                                         pid: int)
    requires StampsOk(c, tlb, algTlb, lruC, ins)
    ensures StampsOk(c, WithoutProcess(tlb, pid), algTlb, lruC, ins)
  {
    StampsTick(c, tlb, WithoutProcess(tlb, pid), algTlb, algTlb, lruC, lruC, ins);
  }

  /** The clock hands point at frames, and the list names the processes. */
  ghost predicate HandsOk(c: Config, hand: int, hands: map<int, int>, lista: seq<int>, pids: set<int>) {
    && 0 <= hand < c.frameCount
    && hands.Keys == pids && (c.fixed ==> forall pid :: pid in hands ==> 0 <= hands[pid] < c.frameCount)
    && (forall pid :: pid in lista <==> pid in pids)
    && (forall i, j :: 0 <= i < j < |lista| ==> lista[i] != lista[j])
  }

  lemma {:induction false} HandsFacts(c: Config, hand: int, hands: map<int, int>, lista: seq<int>, pids: set<int>,
                                      pid: int)
    requires HandsOk(c, hand, hands, lista, pids) && pid in pids
    ensures 0 <= hand < c.frameCount && pid in hands && (c.fixed ==> 0 <= hands[pid] < c.frameCount)
    ensures forall p :: p in lista <==> p in pids
  {
  }

  /** One more process, with its hand at the first frame. */
  lemma {:induction false} HandsGrow(c: Config, hand: int, hands: map<int, int>, lista: seq<int>, pids: set<int>,
                                     pid: int)
    requires HandsOk(c, hand, hands, lista, pids) && pid !in pids
    ensures HandsOk(c, hand, hands[pid := if c.fixed then 0 else NONE], lista + [pid], pids + {pid})
  {
  }

  /** A process leaves the list, at whatever position k, and the hands, one of which may
      have been set to the first frame. */
  lemma {:induction false} HandsShrink(c: Config, hand: int, hands: map<int, int>, lista: seq<int>, pids: set<int>,
                                       pid: int)
    requires HandsOk(c, hand, hands, lista, pids)
    ensures forall k: nat :: k < |lista| && lista[k] == pid ==>
              HandsOk(c, hand, hands - {pid}, lista[..k] + lista[k + 1..], pids - {pid}) &&
              forall m: nat :: m < |lista| ==>
                HandsOk(c, hand, hands[lista[m] := 0] - {pid}, lista[..k] + lista[k + 1..], pids - {pid})
  {
    forall k: nat | k < |lista| && lista[k] == pid
      ensures HandsOk(c, hand, hands - {pid}, lista[..k] + lista[k + 1..], pids - {pid})
      ensures forall m: nat :: m < |lista| ==>
                HandsOk(c, hand, hands[lista[m] := 0] - {pid}, lista[..k] + lista[k + 1..], pids - {pid})
    {
      var rest := lista[..k] + lista[k + 1..];
      forall p ensures p in rest <==> p in lista && p != pid {
        if p in lista && p != pid {
          var m :| 0 <= m < |lista| && lista[m] == p;
          assert rest[if m < k then m else m - 1] == p;
        }
      }
    }
  }

  /** One hand moves. */
  lemma {:induction false} HandMoves(c: Config, hand: int, hands: map<int, int>, hand': int, hands': map<int, int>,
                                     lista: seq<int>, pids: set<int>, pid: int)
    requires HandsOk(c, hand, hands, lista, pids) && pid in pids
    requires if c.fixed then hand' == hand && pid in hands' && hands' == hands[pid := hands'[pid]] &&
             0 <= hands'[pid] < c.frameCount
             else hands' == hands && 0 <= hand' < c.frameCount
    ensures HandsOk(c, hand', hands', lista, pids)
  {
  }

  lemma {:induction false} InsertionSteps(tlb: seq<Reg>, ins: seq<(int, int)>, k: int, pid: int, i: int, algTlb: int,
                                          lruC: int)
    requires InsertionOrder(tlb, ins) && Stamped(tlb, algTlb, lruC) && 0 <= k < |tlb|
    requires pid != FREE && Find(tlb, pid, i) < 0
    ensures forall r :: Is(r, pid, i) && r.algTlb == lruC ==> InsertionOrder(tlb[k := r], ins + [(pid, i)])
  {
    forall r | Is(r, pid, i) && r.algTlb == lruC ensures InsertionOrder(tlb[k := r], ins + [(pid, i)]) {
      forall x ensures Last(ins + [(pid, i)], x) == if x == (pid, i) then |ins| else Last(ins, x) {
        LastAppend(ins, (pid, i), x);
      }
      assert forall w :: 0 <= w < |tlb| ==> !Is(tlb[w], pid, i);
    }
  }

  /** A register filled and stamped now is the youngest. */
  lemma {:induction false} StampsFill(c: Config, tlb: seq<Reg>, algTlb: int, lruC: int, ins: seq<(int, int)>, k: int,
                                      r: Reg, lruC': int)
    requires StampsOk(c, tlb, algTlb, lruC, ins) && 0 <= k < |tlb| && lruC < lruC'
    requires r.pid != FREE && Find(tlb, r.pid, r.pagina) < 0 && r.algTlb == lruC
    ensures StampsOk(c, tlb[k := r], algTlb, lruC', ins + [(r.pid, r.pagina)])
  {
    if c.tlbFifo { InsertionSteps(tlb, ins, k, r.pid, r.pagina, algTlb, lruC); }
  }

  lemma {:induction false} InsertionShrinks(tlb: seq<Reg>, tlb': seq<Reg>, ins: seq<(int, int)>)
    requires |tlb'| == |tlb|
    requires forall v :: 0 <= v < |tlb'| && tlb'[v].pid != FREE ==>
               Is(tlb[v], tlb'[v].pid, tlb'[v].pagina) && tlb'[v].algTlb == tlb[v].algTlb
    ensures InsertionOrder(tlb, ins) ==> InsertionOrder(tlb', ins)
  {
  }

  /** Among the first n pages of a process none in memory was used before low. */
  ghost predicate NoneLess(t: Tables, pid: int, n: int, low: int) {
    pid in t && n <= |t[pid]| && forall j :: 0 <= j < n && t[pid][j].In? ==> low <= t[pid][j].use
  }

  lemma {:induction false} NoneYet(t: Tables, pid: int, low: int)
    requires pid in t
    ensures NoneLess(t, pid, 0, low)
  {
  }

  lemma {:induction false} NoneMore(t: Tables, pid: int, n: int, m: int, low: int)
    requires HasPage(t, pid, n)
    ensures m <= low && NoneLess(t, pid, n, low) && (t[pid][n].In? ==> m <= t[pid][n].use) ==>
              NoneLess(t, pid, n + 1, m)
  {
  }

  lemma {:induction false} NoneLower(t: Tables, m: int, low: int)
    requires m <= low
    ensures forall pid, n :: NoneLess(t, pid, n, low) ==> NoneLess(t, pid, n, m)
  {
  }

  /** Every process was looked at. */
  lemma {:induction false} NoneLeft(t: Tables, lista: seq<int>, low: int)
    requires forall pid :: pid in lista <==> pid in t
    ensures (forall m :: 0 <= m < |lista| ==> lista[m] in t && NoneLess(t, lista[m], |t[lista[m]]|, low)) ==>
              forall p, i :: Resident(t, p, i) ==> low <= t[p][i].use
  {
    forall p | p in t ensures exists m :: 0 <= m < |lista| && lista[m] == p {}
  }

  /** One access to a present page, in the terms of `Vm`. */
  lemma {:induction false} Accessed(c: Config, s: State, hist: seq<(int, int)>, now: int, now': int,
                                    pid: int, i: int, dirty: bool, use: int)
    requires Inv(c, s) && Resident(s.tables, pid, i)
    requires !c.clock ==> Recency(s.tables, hist, now) && now <= use < now'
    ensures var s' := Touch(s, pid, i, dirty, use);
      && s' == s.(tables := SetPage(s.tables, pid, i, In(s.tables[pid][i].frame, dirty, use)))
      && Inv(c, s')
      && (!c.clock ==> Recency(s'.tables, hist + [(pid, i)], now'))
  {
    TouchInv(c, s, pid, i, dirty, use);
    if !c.clock {
      RecencyAccess(s.tables, Touch(s, pid, i, dirty, use).tables, hist, now, now', pid, i);
    }
  }

  /** A chosen page's record once the algorithms have marked it as gone. */
  function Marked(ps: Paginas, pid: int, i: int): Paginas
    requires pid in ps && 0 <= i < |ps[pid]|
  {
    SetPag(ps, pid, i, ps[pid][i].(presente := false, modificado := false, tlb := false))
  }

  /** v describes page v.pagina of v.pid, whose record in ps is up to date. */
  ghost predicate Describes(v: Victim, tlb: seq<Reg>, ps: Paginas) {
    && Fresh(tlb, ps, v.pid, v.pagina)
    && var p := ps[v.pid][v.pagina]; v.marco == p.marco && v.modificado == p.modificado && v.tlb == p.tlb
  }

  lemma {:induction false} VictimSeen(c: Config, s: State, tlb: seq<Reg>, ps: Paginas, pid: int, i: int)
    requires Inv(c, s) && s.tables == Views(tlb, ps) && Fresh(tlb, ps, pid, i)
    ensures HasPag(ps, pid, i) && ps[pid][i].presente && Resident(s.tables, pid, i)
    ensures var p := ps[pid][i];
      0 <= p.marco < |s.frames| == |s.ram| == c.frameCount && s.tables[pid][i] == In(p.marco, p.modificado, p.algoritmo)
    ensures c.Ok()
  {
    assert HasPage(s.tables, pid, i);
    assert Resident(s.tables, pid, i);
  }

  lemma {:induction false} GoneIs(s: State, pid: int, i: int, x: Frame)
    requires Resident(s.tables, pid, i) && 0 <= s.tables[pid][i].frame < |s.frames| == |s.ram|
    ensures var s1 := Evict(s, pid, i, false); var p := s.tables[pid][i];
      && s1.ram == s.ram && |s1.frames| == |s.frames| && s1.frames[p.frame := x] == s.frames[p.frame := x]
      && s1.tables == SetPage(s.tables, pid, i, Out(false))
      && s1.swap == if p.dirty then s.swap[(pid, i) := s.ram[p.frame]] else s.swap
  {
  }

  /** The hand the configured clock moves. */
  ghost function HandOf(c: Config, hand: int, hands: map<int, int>, pid: int): int {
    if c.fixed then (if pid in hands then hands[pid] else 0) else hand
  }

  /** A frame can be had: a free one, or one the algorithm can take. */
  ghost predicate CanLoad(c: Config, s: State, pid: int) {
    pid in s.tables && (c.fixed ==> PresentOf(s.tables[pid]) != {} || FreeFrames(s.frames) != {})
  }

  lemma {:induction false} LoadFacts(c: Config, s: State, pid: int, i: int)
    requires Inv(c, s) && CanLoad(c, s, pid)
    ensures c.Ok() && pid in s.tables && |s.frames| == |s.ram| == c.frameCount
    ensures !MayGrow(c, s, pid) ==> CanTake(c, s, pid)
    ensures HasPage(s.tables, pid, i) ==> (pid, i) in s.swap && |s.swap[(pid, i)]| == c.pageSize
  {
  }

  /** A process with a page in memory can always have another one in its place. */
  lemma {:induction false} LoadAgain(c: Config, s: State, pid: int, i: int)
    requires Resident(s.tables, pid, i)
    ensures CanLoad(c, s, pid)
  {
    assert i in PresentOf(s.tables[pid]);
  }

  /** The memory a chosen victim leaves from: only use bits changed. */
  lemma {:induction false} VictimLeaves(c: Config, s: State, h: int, pid: int, i: int, t: Tables, vp: int, vi: int)
    requires Inv(c, s) && Chosen(c, s, h, pid, t, vp, vi)
    ensures Inv(c, s.(tables := t)) && t.Keys == s.tables.Keys
    ensures HasPage(s.tables, pid, i) && s.tables[pid][i].Out? ==> HasPage(t, pid, i) && t[pid][i] == s.tables[pid][i]
    ensures HasPage(t, vp, vi) && (HasPage(s.tables, pid, i) ==> HasPage(SetPage(t, vp, vi, Out(false)), pid, i))
  {
    ChosenSame(c, s, h, pid, t, vp, vi);
    UseInv(c, s, t);
  }

  /** There is a page the configured algorithm can choose. */
  ghost predicate CanTake(c: Config, s: State, pid: int) {
    pid in s.tables && if c.fixed then PresentOf(s.tables[pid]) != {} else FreeFrames(s.frames) == {}
  }

  /** Under local replacement, with something to replace, the process owns frames
      and they are candidates for the clock; likewise all frames otherwise. */
  lemma {:induction false} TakeFacts(c: Config, s: State, pid: int)
    requires Inv(c, s) && CanTake(c, s, pid)
    ensures pid in s.tables && Linked(s.frames, s.tables) && |s.frames| == c.frameCount > 0
    ensures Occupied(s.frames, s.tables, Candidates(c, s.frames, pid))
    ensures c.fixed ==> |OwnFrames(s.frames, pid)| == |PresentOf(s.tables[pid])| > 0
    ensures exists p, i :: Resident(s.tables, p, i)
  {
    forall f | f in Candidates(c, s.frames, pid) ensures 0 <= f < |s.frames| && s.frames[f].pid != FREE {
      if !c.fixed { assert f !in FreeFrames(s.frames); }
    }
    AllOccupied(s.frames, s.tables, Candidates(c, s.frames, pid));
    if c.fixed {
      OwnFramesMatchPages(c, s, pid);
      var i :| i in PresentOf(s.tables[pid]);
      assert Resident(s.tables, pid, i);
    } else {
      assert 0 in Candidates(c, s.frames, pid);
    }
  }

  /** When a new page can be brought into memory. */
  lemma {:induction false} CreateFacts(c: Config, s: State, pid: int)
    requires Inv(c, s) && pid in s.tables
    ensures var s1 := NewPage(s, pid);
      CanLoad(c, s, pid) <==> !(!MayGrow(c, s1, pid) && c.fixed && |PresentOf(s1.tables[pid])| == 0)
  {
    assert PresentOf(NewPage(s, pid).tables[pid]) == PresentOf(s.tables[pid]);
  }

  lemma {:induction false} TakeOrNot(c: Config, s: State, pid: int)
    requires Inv(c, s) && pid in s.tables
    ensures !MayGrow(c, s, pid) && !(c.fixed && |PresentOf(s.tables[pid])| == 0) ==> CanTake(c, s, pid)
    ensures |s.frames| == |s.ram| == c.frameCount && c.Ok()
  {
  }

  lemma {:induction false} SameSize(c: Config, s: State)
    requires Inv(c, s)
    ensures |s.frames| == |s.ram| == c.frameCount
  {
  }

  lemma {:induction false} TakenRoom(c: Config, s: State, h: int, pid: int, room: Room)
    requires pid in s.tables && !MayGrow(c, s, pid) && room.Taken? && Chosen(c, s, h, pid, room.t, room.vp, room.vi)
    ensures RoomMade(c, s, h, pid, room)
  {
  }

  lemma {:induction false} FrameOf(c: Config, s: State, pid: int, i: int)
    requires Inv(c, s) && Resident(s.tables, pid, i)
    ensures 0 <= s.tables[pid][i].frame < |s.frames| && s.frames[s.tables[pid][i].frame] == Frame(pid, i)
  {
  }

  /** What the record of a process's last page says about its frame. */
  lemma {:induction false} LastFrame(c: Config, s: State, tlb: seq<Reg>, ps: Paginas, pid: int)
    requires Inv(c, s) && Coherent(tlb, ps) && s.tables == Views(tlb, ps) && pid in ps && |ps[pid]| > 0
    ensures var n := |ps[pid]| - 1; var p := ps[pid][n];
      && |s.tables[pid]| == n + 1 && (s.tables[pid][n].In? <==> p.presente)
      &&
         (p.presente ==>
          s.tables[pid][n].frame == p.marco && 0 <= p.marco < |s.frames| && s.frames[p.marco] == Frame(pid, n))
  {
    var n := |ps[pid]| - 1;
    assert HasPag(ps, pid, n);
    assert ps[pid][n].presente ==> Resident(s.tables, pid, n);
    var v := Find(tlb, pid, n);
    assert v >= 0 ==> Backed(tlb[v], ps);
  }

  lemma {:induction false} FrameSized(c: Config, s: State, f: int)
    requires Inv(c, s) && 0 <= f < c.frameCount
    ensures |s.ram| == c.frameCount && |s.ram[f]| == c.pageSize
  {
  }

  lemma {:induction false} RecencyBounds(t: Tables, hist: seq<(int, int)>, now: int)
    requires Recency(t, hist, now)
    ensures forall p, i :: Resident(t, p, i) ==> t[p][i].use < now
  {
  }

  /** Written bytes of pages not yet read are safe, and all are if reads lose no mark. */
  ghost predicate Reading(c: Config, s: State, log: Log, pid: int, lo: int, i: int)
    requires Inv(c, s)
  {
    WriteBack(c, s, LogWithout(log, pid, lo, i)) && (ReadsKeep(c) ==> WriteBack(c, s, log))
  }

  lemma {:induction false} ReadingStarts(c: Config, s: State, log: Log, pid: int, lo: int)
    requires Inv(c, s)
    ensures WriteBack(c, s, log) ==> Reading(c, s, log, pid, lo, lo)
  {
    LogWithoutNone(log, pid, lo);
  }

  /** Written bytes are safe and will stay so while pages lo to hi - 1 are written. */
  ghost predicate Safe(c: Config, s: State, log: Log, pid: int, lo: int, hi: int)
    requires Inv(c, s)
  {
    WriteBack(c, s, log) && (c.repaired || AllIn(s.tables, pid, lo, hi))
  }

  lemma {:induction false} RepairedSafe(c: Config, s: State, pid: int, i: int)
    requires HasPage(s.tables, pid, i)
    ensures c.repaired ==> WriteSafe(c, s, pid, i)
  {
  }

  /** Frame f was taken from a chosen victim for page i, which then entered it. */
  ghost predicate Stolen(c: Config, s: State, h: int, pid: int, i: int, content: Option<seq<Byte>>, write: bool,
                         f: int, room: Room, use: int, s': State) {
    && room.Taken? && Chosen(c, s, h, pid, room.t, room.vp, room.vi)
    && Resident(room.t, room.vp, room.vi) && f == RoomAt(room) && 0 <= f < |s.frames| == |s.ram|
    && HasPage(s.tables, pid, i) && s.tables[pid][i].Out? && HasPage(WithRoom(s, room).tables, pid, i)
    && s' == Load(WithRoom(s, room), pid, i, f, content, FaultDirty(c, write, s.tables[pid][i].stale), use)
  }

  lemma {:induction false} StolenIs(c: Config, s: State, h: int, pid: int, i: int, content: Option<seq<Byte>>,
                                    write: bool, t: Tables, vp: int, vi: int, use: int, s': State)
    requires Chosen(c, s, h, pid, t, vp, vi) && Resident(t, vp, vi) && 0 <= t[vp][vi].frame < |s.frames| == |s.ram|
    requires HasPage(s.tables, pid, i) && s.tables[pid][i].Out? && HasPage(SetPage(t, vp, vi, Out(false)), pid, i)
    requires s' == Load(Evict(s.(tables := t), vp, vi, false), pid, i, t[vp][vi].frame, content,
                        FaultDirty(c, write, s.tables[pid][i].stale), use)
    ensures Stolen(c, s, h, pid, i, content, write, t[vp][vi].frame, Taken(t, vp, vi), use, s')
  {
    hide Chosen;
  }

  /** Page i entered frame f, in the room made for it. */
  ghost predicate Brought(c: Config, s: State, h: int, pid: int, i: int, content: Option<seq<Byte>>, write: bool,
                          f: int, room: Room, use: int, s': State) {
    && HasPage(s.tables, pid, i) && s.tables[pid][i].Out? && RoomMade(c, s, h, pid, room)
    && (room.Taken? ==> Resident(room.t, room.vp, room.vi) && 0 <= RoomAt(room) < |s.frames| == |s.ram|)
    && f == RoomAt(room) && 0 <= f < |WithRoom(s, room).frames| == |WithRoom(s, room).ram|
    && HasPage(WithRoom(s, room).tables, pid, i)
    && s' == Load(WithRoom(s, room), pid, i, f, content, FaultDirty(c, write, s.tables[pid][i].stale), use)
  }

  /** Brought from its swap copy: a fault. */
  lemma {:induction false} BroughtVisit(c: Config, s: State, h: int, pid: int, i: int, write: bool, f: int, room: Room,
                                        use: int, s': State)
    requires Inv(c, s) && (pid, i) in s.swap &&
             Brought(c, s, h, pid, i, Some(s.swap[(pid, i)]), write, f, room, use, s')
    ensures VisitOk(c, s, h, pid, i, Fault(room, use)) && s' == AfterVisit(c, s, h, pid, i, write, Fault(room, use))
    ensures Resident(s'.tables, pid, i) && s'.tables[pid][i].frame == f
  {
    FaultFrame(c, s, h, pid, i, write, Fault(room, use));
  }

  /** Brought without content, right after its record was created: a page creation. */
  lemma {:induction false} BroughtCreated(c: Config, s: State, h: int, pid: int, f: int, room: Room, use: int,
                                          s': State)
    requires Inv(c, s) && Granted(c, s, pid)
    requires Brought(c, NewPage(s, pid), h, pid, |s.tables[pid]|, Option.None, false, f, room, use, s')
    ensures CreateOk(c, s, h, pid, room) && s' == Created(c, s, h, pid, room, use)
  {
  }

  lemma {:induction false} SpareInside(c: Config, s: State, h: int, pid: int, f: int)
    requires pid in s.tables && RoomMade(c, s, h, pid, Spare(f))
    ensures 0 <= f < |s.frames| && s.frames[f].pid == FREE
  {
  }

  /** How memoria_leer or memoria_escribir ends: turned down by the bounds test, stopped at
      a page that the swap store does not hand back (the code then aborts), or done. */
  datatype Outcome = OutOfRange | NotFound | Completed

  /** A fault on page i can be answered, or is stopped before a frame is looked for. */
  ghost predicate CanVisit(c: Config, s: State, pid: int, i: int) {
    CanLoad(c, s, pid) || Mistaken(s, pid, i)
  }

  /** A request: size bytes of process pid, which has so many pages, from linear address
      a on, which is offset off of page first; memory is then s0. */
  datatype Job = Job(pid: int, pages: nat, first: nat, off: nat, a: nat, size: nat, s0: State)

  ghost predicate OnePage(c: Config, j: Job) {
    j.size > 0 && j.off + j.size <= c.pageSize
  }

  /** One more than the last page of the request. */
  function EndPage(c: Config, j: Job): nat
    requires c.pageSize > 0
  {
    PageEnd(j.a, j.size, c.pageSize)
  }

  /** The request so far: done bytes, from the pages before page; ss are the memories
      before each of them was visited, and s is memory now. */
  ghost predicate Underway(c: Config, j: Job, write: bool, s: State, done: nat, page: nat, off: nat, ss: seq<State>) {
    && Inv(c, s) && SamePages(j.s0.tables, s.tables) && HasPages(j) && done <= j.size
    && Cursor(c.pageSize, j.pages, j.a, done, j.size - done, page, off)
    && (done < j.size ==> CanVisit(c, s, j.pid, page))
    && page == j.first + |ss| && Trail(c, ss + [s], j.pid, j.first, write) && (ss + [s])[0] == j.s0
    && (done == 0 ==> ss == [] && off == j.off) && (done > 0 ==> off == 0 && ss != [] && page <= EndPage(c, j))
    && (done == j.size ==> page == EndPage(c, j))
    && (OnePage(c, j) && done > 0 ==> done == j.size)
  }

  ghost predicate HasPages(j: Job) {
    j.pid in j.s0.tables && |j.s0.tables[j.pid]| == j.pages
  }

  lemma {:induction false} UnderwayStarts(c: Config, j: Job, write: bool)
    requires Inv(c, j.s0) && HasPages(j) && j.off < c.pageSize && Fits(c, j.pages, j.first, j.off, j.size)
    requires 0 <= AddressOf(j.first, j.off, c.pageSize) == j.a
    requires j.size > 0 ==> CanVisit(c, j.s0, j.pid, j.first)
    ensures Underway(c, j, write, j.s0, 0, j.first, j.off, [])
  {
    CursorStart(c, j.pages, j.first, j.off, j.size);
    SamePagesChain(j.s0.tables, j.s0.tables, j.s0.tables);
    PageRoundTrip(j.first, j.off, c.pageSize);
  }

  lemma {:induction false} UnderwayHere(c: Config, j: Job, write: bool, s: State, done: nat, page: nat, off: nat,
                                        ss: seq<State>)
    requires Underway(c, j, write, s, done, page, off, ss) && done < j.size
    ensures HasPage(s.tables, j.pid, page) && off < c.pageSize && CanVisit(c, s, j.pid, page)
    ensures j.first <= page < EndPage(c, j) && AddressOf(page, off, c.pageSize) == j.a + done
    ensures done == 0 ==> s == j.s0 && page == j.first && off == j.off
    ensures OnePage(c, j) ==> done == 0 && j.size <= c.pageSize - off
    ensures page == j.first + |ss| && if |ss| == 0 then done == 0 && off == j.off else off == 0
  {
    CursorHere(c.pageSize, j.pages, j.a, done, j.size - done, page, off);
    SamePagesHave(j.s0.tables, s.tables, j.pid);
    if done == 0 { assert (ss + [s])[0] == s; }
  }

  lemma {:induction false} UnderwayStep(c: Config, j: Job, write: bool, s: State, done: nat, page: nat, off: nat,
                                        ss: seq<State>,
                                        n: nat, h: int, v: Visit, s': State)
    requires Underway(c, j, write, s, done, page, off, ss) && done < j.size
    requires n == if j.size - done < c.pageSize - off then j.size - done else c.pageSize - off
    requires !Mistaken(s, j.pid, page) && VisitedTo(c, s, h, j.pid, page, write, v, s')
    requires Inv(c, s') && SamePages(s.tables, s'.tables) && Resident(s'.tables, j.pid, page)
    ensures n > 0 && done + n <= j.size
    ensures Underway(c, j, write, s', done + n, page + 1, 0, ss + [s])
  {
    hide Inv, Trail, SamePages, VisitedTo, CanLoad, Mistaken, Cursor;
    UnderwayHere(c, j, write, s, done, page, off, ss);
    CursorNext(c.pageSize, j.pages, j.a, done, j.size - done, page, off, n);
    SamePagesChain(j.s0.tables, s.tables, s'.tables);
    LoadAgain(c, s', j.pid, page);
    assert Follows(c, s, j.pid, j.first + |ss|, write, s');
    TrailGrows(c, ss, s, s', j.pid, j.first, write);
    if done + n == j.size { LastPageOf(c, j, page, off, done); }
  }

  /** The page of the last byte. */
  lemma {:induction false} LastPageOf(c: Config, j: Job, page: nat, off: nat, done: nat)
    requires off < c.pageSize && done < j.size && AddressOf(page, off, c.pageSize) == j.a + done
    requires j.size - done <= c.pageSize - off
    ensures page + 1 == EndPage(c, j)
  {
    PageRoundTrip(page, off + (j.size - done) - 1, c.pageSize);
  }

  lemma {:induction false} UnderwayCut(c: Config, j: Job, write: bool, s: State, done: nat, page: nat, off: nat,
                                       ss: seq<State>)
    requires Underway(c, j, write, s, done, page, off, ss) && done < j.size && Mistaken(s, j.pid, page)
    ensures Journey(c, j.s0, j.pid, j.first, EndPage(c, j), write, ss, s, true)
    ensures j.a + done == if |ss| == 0 then j.a else (j.first + |ss|) * c.pageSize
    ensures SamePages(j.s0.tables, s.tables)
  {
    UnderwayHere(c, j, write, s, done, page, off, ss);
  }

  lemma {:induction false} UnderwayDone(c: Config, j: Job, write: bool, s: State, page: nat, off: nat, ss: seq<State>)
    requires Underway(c, j, write, s, j.size, page, off, ss)
    ensures Journey(c, j.s0, j.pid, j.first, EndPage(c, j), write, ss, s, false) && SamePages(j.s0.tables, s.tables)
  {
  }

  /** What a write under way has done to the written bytes, and when they are safe. */
  ghost predicate Writing(c: Config, j: Job, data: seq<Byte>, log0: Log, s: State, log: Log, done: nat)
    requires Inv(c, s) && Inv(c, j.s0) && c.pageSize > 0
  {
    && |data| == j.size && done <= j.size && log == Wrote(log0, j.pid, j.a, data[..done], c.pageSize)
    && (Safe(c, j.s0, log0, j.pid, j.first, EndPage(c, j)) ==> Safe(c, s, log, j.pid, j.first, EndPage(c, j)))
    && (OnePage(c, j) && WriteBack(c, j.s0, log0) && done > 0 ==>
          (WriteBack(c, s, log) <==> StoreSafe(c, j.s0, j.pid, j.first, j.off, data)))
  }

  /** What a caller can check before a write inside one page. */
  ghost predicate StoreSafe(c: Config, s: State, pid: int, i: int, off: int, data: seq<Byte>) {
    HasPage(s.tables, pid, i) &&
    (WriteSafe(c, s, pid, i) ||
     ((pid, i) in s.swap && 0 <= off && off + |data| <= |s.swap[(pid, i)]| &&
      s.swap[(pid, i)][off..off + |data|] == data))
  }

  lemma {:induction false} WritingStarts(c: Config, j: Job, data: seq<Byte>, log0: Log)
    requires Inv(c, j.s0) && |data| == j.size && c.pageSize > 0
    ensures Writing(c, j, data, log0, j.s0, log0, 0) && Settled(c, j, data, log0, j.s0, log0, [])
  {
    WroteNothing(log0, j.pid, j.a, c.pageSize);
  }

  lemma {:induction false} WritingStep(c: Config, j: Job, data: seq<Byte>, log0: Log, s: State, log: Log, done: nat,
                                       page: nat, off: nat,
                                       piece: seq<Byte>, s': State, log': Log)
    requires Inv(c, s) && Inv(c, j.s0) && Inv(c, s') && off < c.pageSize && Writing(c, j, data, log0, s, log, done)
    requires done + |piece| <= j.size && off + |piece| <= c.pageSize && piece == data[done..done + |piece|] &&
             |piece| > 0
    requires AddressOf(page, off, c.pageSize) == j.a + done && log' == LogAt(log, j.pid, page, off, piece)
    requires var fin := EndPage(c, j); Safe(c, s, log, j.pid, j.first, fin) ==> Safe(c, s', log', j.pid, j.first, fin)
    requires done == 0 ==> s == j.s0 && page == j.first && off == j.off
    requires OnePage(c, j) ==> done == 0 && |piece| == j.size
    requires WriteBack(c, s, log) ==> (WriteBack(c, s', log') <==> StoreSafe(c, s, j.pid, page, off, piece))
    ensures Writing(c, j, data, log0, s', log', done + |piece|)
  {
    hide Inv, WriteBack, Safe, StoreSafe, Wrote, LogAt;
    PrefixGrows(data, done, |piece|);
    WroteMore(log0, j.pid, j.a, data[..done], page, off, piece, c.pageSize);
    if done == 0 { WroteNothing(log0, j.pid, j.a, c.pageSize); }
    assert OnePage(c, j) ==> piece == data;
  }

  lemma {:induction false} WritingMeans(c: Config, j: Job, data: seq<Byte>, log0: Log, s: State, log: Log, done: nat)
    requires Inv(c, s) && Inv(c, j.s0) && c.pageSize > 0 && Writing(c, j, data, log0, s, log, done)
    ensures done <= |data| && log == Wrote(log0, j.pid, j.a, data[..done], c.pageSize)
    ensures WriteBack(c, j.s0, log0) && (c.repaired || AllIn(j.s0.tables, j.pid, j.first, EndPage(c, j))) ==>
              WriteBack(c, s, log)
    ensures OnePage(c, j) && WriteBack(c, j.s0, log0) && done > 0 ==>
              (WriteBack(c, s, log) <==> StoreSafe(c, j.s0, j.pid, j.first, j.off, data))
  {
  }

  /** What a read under way has found, and when the written bytes stay safe. */
  ghost predicate Fetching(c: Config, j: Job, cached: bool, log: Log, s: State, data: seq<Byte>, page: int)
    requires Inv(c, s) && Inv(c, j.s0) && c.pageSize > 0
  {
    (WriteBack(c, j.s0, log) ==>
       Agrees(log, j.pid, j.a, data, c.pageSize) && Reading(c, s, log, j.pid, j.first, page)) &&
    (WriteBack(c, j.s0, log) && OnePage(c, j) && data != [] ==>
       (WriteBack(c, s, log) <==> LookSafe(c, j.s0, log, j.pid, j.first, cached)))
  }

  lemma {:induction false} FetchingStarts(c: Config, j: Job, cached: bool, log: Log)
    requires Inv(c, j.s0) && c.pageSize > 0
    ensures Fetching(c, j, cached, log, j.s0, [], j.first) && Looked(c, j, log, j.s0, [])
  {
    ReadingStarts(c, j.s0, log, j.pid, j.first);
    AgreesNothing(log, j.pid, j.a, c.pageSize);
  }

  lemma {:induction false} FetchingMeans(c: Config, j: Job, cached: bool, log: Log, s: State, data: seq<Byte>,
                                         page: int)
    requires Inv(c, s) && Inv(c, j.s0) && c.pageSize > 0 && Fetching(c, j, cached, log, s, data, page)
    ensures WriteBack(c, j.s0, log) ==>
              Agrees(log, j.pid, j.a, data, c.pageSize) && (ReadsKeep(c) ==> WriteBack(c, s, log))
    ensures WriteBack(c, j.s0, log) && OnePage(c, j) && data != [] ==>
              (WriteBack(c, s, log) <==> LookSafe(c, j.s0, log, j.pid, j.first, cached))
  {
  }

  lemma {:induction false} FetchingStep(c: Config, j: Job, cached: bool, log: Log, s: State, h: int, v: Visit,
                                        data: seq<Byte>,
                                        page: nat, off: nat, piece: seq<Byte>, now: bool, s': State)
    requires Inv(c, s) && Inv(c, j.s0) && Inv(c, s') && off < c.pageSize && Fetching(c, j, cached, log, s, data, page)
    requires VisitOk(c, s, h, j.pid, page, v) && s' == AfterVisit(c, s, h, j.pid, page, false, v) && j.first <= page
    requires Resident(s'.tables, j.pid, page) && 0 <= s'.tables[j.pid][page].frame < |s'.ram|
    requires off + |piece| <= c.pageSize == |s'.ram[s'.tables[j.pid][page].frame]| &&
             AddressOf(page, off, c.pageSize) == j.a + |data|
    requires piece == s'.ram[s'.tables[j.pid][page].frame][off..off + |piece|]
    requires data == [] ==> s == j.s0 && page == j.first && (cached <==> now)
    requires OnePage(c, j) ==> data == []
    requires WriteBack(c, s, log) ==> (WriteBack(c, s', log) <==> LookSafe(c, s, log, j.pid, page, now))
    ensures Fetching(c, j, cached, log, s', data + piece, page + 1)
  {
    hide Inv, WriteBack, AfterVisit, LookSafe, Agrees, PieceAgrees, LogWithout;
    if WriteBack(c, j.s0, log) {
      VisitShowsPiece(c, s, log, h, j.pid, page, v, j.first, off, |piece|);
      PieceIs(log, j.pid, page, off, piece);
      AgreesMore(log, j.pid, j.a, data, page, off, piece, c.pageSize);
      LookKeeps(c, s, log, j.pid, page, now);
    }
  }

  lemma {:induction false} PieceIs(log: Log, pid: int, page: int, off: int, piece: seq<Byte>)
    requires forall o :: off <= o < off + |piece| && (pid, page, o) in log ==> piece[o - off] == log[(pid, page, o)]
    ensures PieceAgrees(log, pid, page, off, piece)
  {
  }

  lemma {:induction false} LookKeeps(c: Config, s: State, log: Log, pid: int, i: int, cached: bool)
    requires Inv(c, s) && HasPage(s.tables, pid, i)
    ensures ReadsKeep(c) ==> LookSafe(c, s, log, pid, i, cached)
  {
  }

  /** What a caller can check before a read inside one page. */
  ghost predicate LookSafe(c: Config, s: State, log: Log, pid: int, i: int, cached: bool)
    requires Inv(c, s)
  {
    HasPage(s.tables, pid, i) && (ReadSafe(c, s, pid, i, cached) || SwapAgrees(c, s, log, pid, i))
  }

  /** A visit, and what may be stored then. */
  lemma {:induction false} VisitedBy(c: Config, s: State, h: int, pid: int, i: int, v: Visit, off: int,
                                     data: seq<Byte>)
    requires Inv(c, s) && VisitOk(c, s, h, pid, i, v)
    ensures VisitedTo(c, s, h, pid, i, false, v, AfterVisit(c, s, h, pid, i, false, v))
    ensures var s1 := AfterVisit(c, s, h, pid, i, true, v);
      && Resident(s1.tables, pid, i) && 0 <= s1.tables[pid][i].frame < |s1.ram|
      && var f := s1.tables[pid][i].frame;
         0 <= off && off + |data| <= |s1.ram[f]| ==>
           var s2 := Store(s1, f, off, data);
           VisitedTo(c, s, h, pid, i, true, v, s2) && s2.tables == s1.tables && s2.swap == s1.swap
  {
    VisitInv(c, s, h, pid, i, true, v);
  }

  /** The pages seen are the pages recorded. */
  lemma {:induction false} PagesSeen(tlb: seq<Reg>, ps: Paginas, pid: int, i: int)
    ensures HasPage(Views(tlb, ps), pid, i) <==> HasPag(ps, pid, i)
    ensures pid in ps ==> pid in Views(tlb, ps) && |Views(tlb, ps)[pid]| == |ps[pid]|
  {
  }

  lemma {:induction false} WritingRound(c: Config, j: Job, data: seq<Byte>, log0: Log, s: State, log: Log, h: int,
                                        v: Visit, done: nat,
                                        page: nat, off: nat, piece: seq<Byte>, s': State, log': Log)
    requires Inv(c, s) && Inv(c, j.s0) && Inv(c, s') && off < c.pageSize && Writing(c, j, data, log0, s, log, done)
    requires VisitOk(c, s, h, j.pid, page, v) && s'.tables == AfterVisit(c, s, h, j.pid, page, true, v).tables
    requires done + |piece| <= |data| && off + |piece| <= c.pageSize && piece == data[done..done + |piece|] &&
             |piece| > 0
    requires AddressOf(page, off, c.pageSize) == j.a + done && log' == LogAt(log, j.pid, page, off, piece)
    requires j.first <= page < EndPage(c, j)
    requires done == 0 ==> s == j.s0 && page == j.first && off == j.off
    requires OnePage(c, j) ==> done == 0 && |piece| == j.size
    requires (j.pid, page) in s.swap && off + |piece| <= |s.swap[(j.pid, page)]|
    requires WriteBack(c, s, log) ==>
               (WriteBack(c, s', log') <==>
                WriteSafe(c, s, j.pid, page) || s.swap[(j.pid, page)][off..off + |piece|] == piece)
    ensures Writing(c, j, data, log0, s', log', done + |piece|)
  {
    hide Inv, WriteBack, AfterVisit, Wrote, LogAt;
    var fin := EndPage(c, j);
    assert Safe(c, s, log, j.pid, j.first, fin) ==> Safe(c, s', log', j.pid, j.first, fin) by {
      if AllIn(s.tables, j.pid, j.first, fin) { StaysIn(c, s, h, j.pid, page, v, j.first, fin); }
      RepairedSafe(c, s, j.pid, page);
    }
    WritingStep(c, j, data, log0, s, log, done, page, off, piece, s', log');
  }

  /** The bytes that go to page first + k of a request. */
  ghost function PieceAt(c: Config, j: Job, data: seq<Byte>, k: nat): seq<Byte> {
    var from := if k == 0 then 0 else (j.first + k) * c.pageSize - j.a;
    var to := (j.first + k + 1) * c.pageSize - j.a;
    if 0 <= from <= to <= |data| then data[from..to] else if 0 <= from <= |data| then data[from..] else []
  }

  /** The k-th page is written safely, as memory is when its turn comes. */
  ghost predicate PieceSafe(c: Config, j: Job, data: seq<Byte>, s: State, k: nat) {
    StoreSafe(c, s, j.pid, j.first + k, if k == 0 then j.off else 0, PieceAt(c, j, data, k))
  }

  ghost predicate AllStored(c: Config, j: Job, data: seq<Byte>, ss: seq<State>) {
    forall k :: 0 <= k < |ss| ==> PieceSafe(c, j, data, ss[k], k)
  }

  ghost predicate LostAt(s: State, log: Log, j: Job, i: int, x: int) {
    j.first <= i && Stale(s, log, j.pid, i, x)
  }

  /** No page on the way forgot a mark that was needed; ss are the memories from before the
      first page of the request to after the last one read. */
  ghost predicate AllLooked(c: Config, log: Log, pid: int, first: int, ss: seq<State>) {
    forall k :: 0 <= k < |ss| - 1 ==> LookedAt(c, log, pid, first, ss, k)
  }

  ghost predicate LookedAt(c: Config, log: Log, pid: int, first: int, ss: seq<State>, k: int)
    requires 0 <= k && k + 1 < |ss|
  {
    MarkKept(c, ss[k], ss[k + 1], log, pid, first + k)
  }

  /** So far all written bytes are safe if every page was read safely, and else some byte
      of a page passed is lost for good. */
  ghost predicate Looked(c: Config, j: Job, log: Log, s: State, ss: seq<State>)
    requires Inv(c, s) && Inv(c, j.s0)
  {
    WriteBack(c, j.s0, log) ==>
      if AllLooked(c, log, j.pid, j.first, ss + [s]) then WriteBack(c, s, log)
      else exists i, x :: i < j.first + |ss| && LostAt(s, log, j, i, x)
  }

  lemma {:induction false} LookedMeans(c: Config, j: Job, log: Log, s: State, ss: seq<State>)
    requires Inv(c, s) && Inv(c, j.s0) && Looked(c, j, log, s, ss)
    ensures WriteBack(c, j.s0, log) ==> (WriteBack(c, s, log) <==> AllLooked(c, log, j.pid, j.first, ss + [s]))
  {
    if WriteBack(c, j.s0, log) && !AllLooked(c, log, j.pid, j.first, ss + [s]) {
      var i, x :| i < j.first + |ss| && LostAt(s, log, j, i, x);
      StaleIsLost(c, s, log, j.pid, i, x);
    }
  }

  lemma {:induction false} AllLookedMore(c: Config, log: Log, pid: int, first: int, ss: seq<State>, s: State, s': State)
    ensures AllLooked(c, log, pid, first, ss + [s] + [s']) <==>
            AllLooked(c, log, pid, first, ss + [s]) && MarkKept(c, s, s', log, pid, first + |ss|)
  {
    hide MarkKept;
    var a, b := ss + [s], ss + [s] + [s'];
    forall k | 0 <= k < |ss| ensures LookedAt(c, log, pid, first, a, k) <==> LookedAt(c, log, pid, first, b, k) {
      var n := k + 1;
      assert b[k] == a[k] && b[n] == a[n];
    }
    assert LookedAt(c, log, pid, first, b, |ss|) <==> MarkKept(c, s, s', log, pid, first + |ss|);
    if AllLooked(c, log, pid, first, b) {
      forall k | 0 <= k < |a| - 1 ensures LookedAt(c, log, pid, first, a, k) {
        assert LookedAt(c, log, pid, first, b, k);
      }
      assert LookedAt(c, log, pid, first, b, |ss|);
    }
  }

  lemma {:induction false} LookedStep(c: Config, j: Job, log: Log, s: State, ss: seq<State>, h: int, v: Visit,
                                      s': State)
    requires Inv(c, s) && Inv(c, j.s0) && Inv(c, s') && Looked(c, j, log, s, ss)
    requires VisitOk(c, s, h, j.pid, j.first + |ss|, v)
    requires s' == AfterVisit(c, s, h, j.pid, j.first + |ss|, false, v)
    ensures Looked(c, j, log, s', ss + [s])
  {
    hide Inv, WriteBack, AfterVisit, VisitOk, MarkKept, AllLooked, Stale;
    var i := j.first + |ss|;
    AllLookedMore(c, log, j.pid, j.first, ss, s, s');
    var x := ForgottenGoesStale(c, s, log, h, j.pid, i, v);
    if WriteBack(c, j.s0, log) {
      if !AllLooked(c, log, j.pid, j.first, ss + [s]) {
        var m, y :| m < i && LostAt(s, log, j, m, y);
        StaleStays(c, s, h, j.pid, i, false, v, log, m, y);
        assert LostAt(s', log, j, m, y);
      } else if !MarkKept(c, s, s', log, j.pid, i) {
        assert LostAt(s', log, j, i, x);
      }
    }
  }

  /** So far all written bytes are safe if every page was written safely, and else some
      byte of a page passed is lost for good. */
  ghost predicate Settled(c: Config, j: Job, data: seq<Byte>, log0: Log, s: State, log: Log, ss: seq<State>)
    requires Inv(c, s) && Inv(c, j.s0)
  {
    WriteBack(c, j.s0, log0) ==>
      if AllStored(c, j, data, ss) then WriteBack(c, s, log)
      else exists i, x :: i < j.first + |ss| && LostAt(s, log, j, i, x)
  }

  lemma {:induction false} SettledMeans(c: Config, j: Job, data: seq<Byte>, log0: Log, s: State, log: Log,
                                        ss: seq<State>)
    requires Inv(c, s) && Inv(c, j.s0) && Settled(c, j, data, log0, s, log, ss)
    ensures WriteBack(c, j.s0, log0) ==> (WriteBack(c, s, log) <==> AllStored(c, j, data, ss))
  {
    if WriteBack(c, j.s0, log0) && !AllStored(c, j, data, ss) {
      var i, x :| i < j.first + |ss| && LostAt(s, log, j, i, x);
      StaleIsLost(c, s, log, j.pid, i, x);
    }
  }

  /** The next piece is what is left of the page or of the request. */
  lemma {:induction false} PieceHere(c: Config, j: Job, data: seq<Byte>, done: nat, page: nat, off: nat, n: nat, k: nat)
    requires page == j.first + k && done < j.size == |data| && off < c.pageSize &&
             AddressOf(page, off, c.pageSize) == j.a + done
    requires n == (if j.size - done < c.pageSize - off then j.size - done else c.pageSize - off)
    requires if k == 0 then done == 0 && off == j.off else off == 0
    ensures done + n <= |data| && PieceAt(c, j, data, k) == data[done..done + n]
  {
    assert (page + 1) * c.pageSize == page * c.pageSize + c.pageSize;
  }

  lemma {:induction false} SettledStep(c: Config, j: Job, data: seq<Byte>, log0: Log, s: State, log: Log,
                                       ss: seq<State>,
                                       h: int, v: Visit, off: nat, piece: seq<Byte>, s': State, log': Log)
    requires Inv(c, s) && Inv(c, j.s0) && Inv(c, s') && Settled(c, j, data, log0, s, log, ss)
    requires VisitOk(c, s, h, j.pid, j.first + |ss|, v) && log' == LogAt(log, j.pid, j.first + |ss|, off, piece)
    requires var s1 := AfterVisit(c, s, h, j.pid, j.first + |ss|, true, v); s'.tables == s1.tables && s'.swap == s1.swap
    requires piece == PieceAt(c, j, data, |ss|) && off == if |ss| == 0 then j.off else 0
    requires var i := j.first + |ss|; (j.pid, i) in s.swap && off + |piece| <= |s.swap[(j.pid, i)]|
    requires WriteBack(c, s, log) ==> (WriteBack(c, s', log') <==> PieceSafe(c, j, data, s, |ss|))
    ensures Settled(c, j, data, log0, s', log', ss + [s])
  {
    hide Inv, WriteBack, PieceAt, AfterVisit, PieceSafe, VisitOk, LogAt, LostAt, AllStored;
    var i := j.first + |ss|;
    AllStoredMore(c, j, data, ss, s);
    if WriteBack(c, j.s0, log0) {
      if !AllStored(c, j, data, ss) {
        var m, x :| m < i && LostAt(s, log, j, m, x);
        LostStays(c, j, s, log, h, v, i, off, piece, s', log', m, x);
      } else if !PieceSafe(c, j, data, s, |ss|) {
        var x := PieceLost(c, j, data, s, log, h, v, |ss|, off, piece, s', log');
      }
    }
  }

  lemma {:induction false} AllStoredMore(c: Config, j: Job, data: seq<Byte>, ss: seq<State>, s: State)
    ensures AllStored(c, j, data, ss + [s]) <==> AllStored(c, j, data, ss) && PieceSafe(c, j, data, s, |ss|)
  {
    hide PieceSafe;
    var all := ss + [s];
    assert all[|ss|] == s && forall k :: 0 <= k < |ss| ==> all[k] == ss[k];
    if AllStored(c, j, data, all) {
      forall k | 0 <= k < |ss| ensures PieceSafe(c, j, data, ss[k], k) {
        assert PieceSafe(c, j, data, all[k], k);
      }
    }
  }

  lemma {:induction false} LostStays(c: Config, j: Job, s: State, log: Log, h: int, v: Visit, i: int, off: nat,
                                     piece: seq<Byte>, s': State, log': Log, m: int, x: int)
    requires Inv(c, s) && VisitOk(c, s, h, j.pid, i, v) && log' == LogAt(log, j.pid, i, off, piece)
    requires var s1 := AfterVisit(c, s, h, j.pid, i, true, v); s'.tables == s1.tables && s'.swap == s1.swap
    requires m < i && LostAt(s, log, j, m, x)
    ensures LostAt(s', log', j, m, x)
  {
    hide Inv, AfterVisit, VisitOk, LogAt, Stale;
    var s1 := AfterVisit(c, s, h, j.pid, i, true, v);
    StaleStays(c, s, h, j.pid, i, true, v, log, m, x);
    StaleLogged(s1, log, j.pid, m, x, i, off, piece);
    StaleSame(s1, s', log', j.pid, m, x);
  }

  lemma {:induction false} PieceLost(c: Config, j: Job, data: seq<Byte>, s: State, log: Log, h: int, v: Visit, k: nat,
                                     off: nat, piece: seq<Byte>, s': State, log': Log) returns (x: int)
    requires Inv(c, s) && VisitOk(c, s, h, j.pid, j.first + k, v) && log' == LogAt(log, j.pid, j.first + k, off, piece)
    requires var s1 := AfterVisit(c, s, h, j.pid, j.first + k, true, v); s'.tables == s1.tables && s'.swap == s1.swap
    requires piece == PieceAt(c, j, data, k) && off == if k == 0 then j.off else 0
    requires var i := j.first + k; (j.pid, i) in s.swap && off + |piece| <= |s.swap[(j.pid, i)]|
    requires !PieceSafe(c, j, data, s, k)
    ensures LostAt(s', log', j, j.first + k, x)
  {
    hide Inv, AfterVisit, PieceAt, LogAt, Stale, WriteSafe;
    var i := j.first + k;
    assert HasPage(s.tables, j.pid, i);
    hide VisitOk;
    PieceIsSafe(c, j, data, s, k);
    hide PieceSafe;
    x := UnsafeGoesStale(c, s, log, h, j.pid, i, v, off, piece);
    StaleSame(AfterVisit(c, s, h, j.pid, i, true, v), s', log', j.pid, i, x);
  }

  lemma {:induction false} SettledRound(c: Config, j: Job, data: seq<Byte>, log0: Log, s: State, log: Log,
                                        ss: seq<State>,
                                        h: int, v: Visit, done: nat, page: nat, off: nat, piece: seq<Byte>, s': State,
                                        log': Log)
    requires Inv(c, s) && Inv(c, j.s0) && Inv(c, s') && Settled(c, j, data, log0, s, log, ss)
    requires Underway(c, j, true, s, done, page, off, ss) && done < j.size == |data|
    requires |piece| == if j.size - done < c.pageSize - off then j.size - done else c.pageSize - off
    requires done + |piece| <= |data| && piece == data[done..done + |piece|]
    requires VisitOk(c, s, h, j.pid, page, v) && log' == LogAt(log, j.pid, page, off, piece)
    requires var s1 := AfterVisit(c, s, h, j.pid, page, true, v); s'.tables == s1.tables && s'.swap == s1.swap
    requires (j.pid, page) in s.swap && off + |piece| <= |s.swap[(j.pid, page)]|
    requires WriteBack(c, s, log) ==>
               (WriteBack(c, s', log') <==>
                WriteSafe(c, s, j.pid, page) || s.swap[(j.pid, page)][off..off + |piece|] == piece)
    ensures Settled(c, j, data, log0, s', log', ss + [s])
  {
    hide Inv, Settled, WriteBack, AfterVisit, VisitOk, PieceAt, Underway, WriteSafe, PieceSafe, CanVisit, AddressOf,
         Store, LogAt;
    UnderwayHere(c, j, true, s, done, page, off, ss);
    PieceHere(c, j, data, done, page, off, |piece|, |ss|);
    PieceIsSafe(c, j, data, s, |ss|);
    SettledStep(c, j, data, log0, s, log, ss, h, v, off, piece, s', log');
  }

  lemma {:induction false} StaleSame(s: State, s': State, log: Log, pid: int, i: int, x: int)
    requires Stale(s, log, pid, i, x) && s'.tables == s.tables && s'.swap == s.swap
    ensures Stale(s', log, pid, i, x)
  {
  }

  lemma {:induction false} StaleLogged(s: State, log: Log, pid: int, i: int, x: int, p: int, off: int, data: seq<Byte>)
    requires Stale(s, log, pid, i, x) && i != p
    ensures Stale(s, LogAt(log, pid, p, off, data), pid, i, x)
  {
  }

  lemma {:induction false} PieceIsSafe(c: Config, j: Job, data: seq<Byte>, s: State, k: nat)
    requires HasPage(s.tables, j.pid, j.first + k) && (j.pid, j.first + k) in s.swap
    ensures var i, piece, off := j.first + k, PieceAt(c, j, data, k), if k == 0 then j.off else 0;
      off + |piece| <= |s.swap[(j.pid, i)]| ==>
        (PieceSafe(c, j, data, s, k) <==>
         WriteSafe(c, s, j.pid, i) || s.swap[(j.pid, i)][off..off + |piece|] == piece)
  {
  }

  lemma {:induction false} SpliceNext(bytes: seq<Byte>, data: seq<Byte>, at: nat, k: nat)
    requires at + |data| <= |bytes| && k < |data|
    ensures (bytes[..at] + data[..k] + bytes[at + k..])[at + k := data[k]] ==
            bytes[..at] + data[..k + 1] + bytes[at + (k + 1)..]
  {
    assert data[..k + 1] == data[..k] + [data[k]];
    assert bytes[at + k..] == [bytes[at + k]] + bytes[at + (k + 1)..];
  }

  /** A swap copy for a page that the process does not have changes nothing for a reader. */
  lemma {:induction false} GrantHarmless(c: Config, s: State, log: Log, pid: int, i: int, content: seq<Byte>)
    requires Inv(c, s) && !HasPage(s.tables, pid, i) && |content| == c.pageSize
    ensures var s' := s.(swap := s.swap[(pid, i) := content]);
      Inv(c, s') && (WriteBack(c, s, log) ==> WriteBack(c, s', log))
  {
    var s' := s.(swap := s.swap[(pid, i) := content]);
    forall q, n | HasPage(s.tables, q, n) ensures (q, n) != (pid, i) {}
    if WriteBack(c, s, log) {
      forall k | k in log ensures Holds(c, s', k.0, k.1, k.2, log[k]) {
        assert Holds(c, s, k.0, k.1, k.2, log[k]);
      }
    }
  }

  class Memoria {
    const c: Config
    const ram: array<Byte>
    var marcos: seq<Frame>
    var paginas: Paginas
    var lista: seq<int>
    var pClock: map<int, int>
    var tlb: seq<Reg>
    var swap: Swap
    var lruC: int
    var algTlb: int
    var clockPuntero: int
    ghost var escrito: Log
    ghost var accesos: seq<(int, int)>
    ghost var inserciones: seq<(int, int)>

    /** iniciar_paginacion and the cache's start: everything empty. */
    constructor (conf: Config)
      requires conf.Ok()
      ensures Valid() && Intacto() && c == conf && fresh(ram)
      ensures paginas == map[] && escrito == map[] && FreeFrames(marcos) == Below(c.frameCount)
      ensures |tlb| == c.tlbSize && forall v :: 0 <= v < |tlb| ==> tlb[v].pid == FREE
      ensures lista == [] && swap == map[] && clockPuntero == 0 && accesos == [] && inserciones == []
    {
      c := conf;
      MulGrows(0, conf.frameCount, conf.pageSize);
      ram := new Byte[conf.frameCount * conf.pageSize](_ => 0);
      marcos := seq(conf.frameCount, _ => Frame(FREE, NONE));
      paginas, lista, pClock := map[], [], map[];
      tlb := seq(conf.tlbSize, _ => Reg(FREE, NONE, NONE, false, 0, 0));
      swap, lruC, algTlb, clockPuntero := map[], 0, 0, 0;
      escrito, accesos, inserciones := map[], [], [];
    }

    /** The page tables as everybody sees them. */
    ghost function T(): (t: Tables)
      reads this
    {
      Views(tlb, paginas)
    }

    ghost function S(): State
      reads this, ram
      requires ram.Length == c.frameCount * c.pageSize
    {
      State(Cut(ram[..], c.frameCount, c.pageSize), marcos, T(), swap)
    }

    ghost predicate Stamps()
      reads this
    {
      StampsOk(c, tlb, algTlb, lruC, inserciones)
    }

    ghost predicate Hands()
      reads this
    {
      HandsOk(c, clockPuntero, pClock, lista, paginas.Keys)
    }

    ghost predicate Valid()
      reads this, ram
    {
      && ram.Length == c.frameCount * c.pageSize
      && Coherent(tlb, paginas)
      && Inv(c, S())
      && Stamps() && Hands()
      && (!c.clock ==> Recency(T(), accesos, lruC))
    }

    /** Every byte ever written is where a reader will find it. */
    ghost predicate Intacto()
      reads this, ram
      requires Valid()
    {
      WriteBack(c, S(), escrito)
    }

    // ------------------------------------------------- the translation cache

    /** buscar_reg_en_tlb, tlb_obtener_registro */
    method BuscarReg(pid: int, pagina: int) returns (v: int)
      requires Unique(tlb) && pid != FREE
      ensures v == Find(tlb, pid, pagina)
    {
      v := 0;
      while v < |tlb|
        invariant 0 <= v <= |tlb|
        invariant forall w :: 0 <= w < v ==> !Is(tlb[w], pid, pagina)
      {
        if Is(tlb[v], pid, pagina) {
          FindAt(tlb, v, pid, pagina);
          return;
        }
        v := v + 1;
      }
      v := NONE;
    }

    method TlbLugarLibre() returns (v: int)
      ensures v == NONE <==> forall w :: 0 <= w < |tlb| ==> tlb[w].pid != FREE
      ensures v != NONE ==> 0 <= v < |tlb| && tlb[v].pid == FREE && forall w :: 0 <= w < v ==> tlb[w].pid != FREE
    {
      v := 0;
      while v < |tlb|
        invariant 0 <= v <= |tlb|
        invariant forall w :: 0 <= w < v ==> tlb[w].pid != FREE
      {
        if tlb[v].pid == FREE { return; }
        v := v + 1;
      }
      v := NONE;
    }

    /** fifo_tlb: the register with the least stamp. */
    method FifoTlb() returns (victima: int)
      requires 0 < |tlb| && forall v :: 0 <= v < |tlb| ==> tlb[v].algTlb < lruC
      ensures 0 <= victima < |tlb|
      ensures forall w :: 0 <= w < |tlb| ==> tlb[victima].algTlb <= tlb[w].algTlb
    {
      var minimo := lruC;
      victima := NONE;
      for i := 0 to |tlb|
        invariant minimo <= lruC && (victima == NONE ==> minimo == lruC && i == 0)
        invariant victima != NONE ==> 0 <= victima < |tlb| && minimo == tlb[victima].algTlb
        invariant forall w :: 0 <= w < i ==> minimo <= tlb[w].algTlb
      {
        if tlb[i].algTlb < minimo {
          victima := i;
          minimo := tlb[i].algTlb;
        }
      }
    }

    /** tlb_obtener_victima: a free register if there is one; else, under FIFO,
        the one filled longest ago. */
    method TlbObtenerVictima() returns (v: int)
      requires 0 < |tlb| && Stamps() && Unique(tlb)
      ensures 0 <= v < |tlb| && GivesWay(c, tlb, inserciones, v)
      ensures tlb[v].pid != FREE ==> forall w :: 0 <= w < |tlb| ==> tlb[v].algTlb <= tlb[w].algTlb
    {
      v := TlbLugarLibre();
      if v != NONE { return; }
      v := FifoTlb();
      if c.tlbFifo {
        forall w | 0 <= w < |tlb| && w != v
          ensures Last(inserciones, (tlb[v].pid, tlb[v].pagina)) < Last(inserciones, (tlb[w].pid, tlb[w].pagina))
        {
          assert !Is(tlb[w], tlb[v].pid, tlb[v].pagina);
          assert Last(inserciones, (tlb[v].pid, tlb[v].pagina)) != Last(inserciones, (tlb[w].pid, tlb[w].pagina));
        }
      }
    }

    method AlgComportamiento() returns (u: int)
      requires 0 <= lruC
      modifies `lruC
      ensures if c.clock then u == 1 && lruC == old(lruC) else u == old(lruC) && lruC == old(lruC) + 1
    {
      if c.clock {
        u := 1;
      } else {
        u := lruC;
        lruC := lruC + 1;
      }
    }

    /** tlb_insert_page. Whatever register gives way is written back to its page
        record, so that the view is unchanged until (pid, pagina)'s own record
        is flagged; tlb0 is the cache with that register emptied. */
    method TlbInsertPage(pid: int, pagina: int, marco: int, modificado: bool)
      returns (ghost v: int, ghost tlb0: seq<Reg>)
      requires 0 < c.tlbSize && Coherent(tlb, paginas) && Stamps()
      requires HasPag(paginas, pid, pagina) && Find(tlb, pid, pagina) < 0
      modifies `tlb, `paginas, `lruC, `inserciones
      ensures Stamps() && old(lruC) < lruC
      ensures |tlb0| == |tlb| && 0 <= v < |tlb| && tlb0[v].pid == FREE && tlb == tlb0[v := tlb[v]]
      ensures Is(tlb[v], pid, pagina) && tlb[v].marco == marco && tlb[v].modificado == modificado && 0 <= tlb[v].alg
      ensures UseNow(c, tlb[v].alg, old(lruC), lruC) && tlb[v].algTlb == old(lruC)
      ensures GivesWay(c, old(tlb), old(inserciones), v)
      ensures old(tlb)[v].pid != FREE ==> forall w :: 0 <= w < |tlb| ==> old(tlb)[v].algTlb <= old(tlb)[w].algTlb
      ensures |tlb| == |old(tlb)| && tlb == old(tlb)[v := tlb[v]] && inserciones == old(inserciones) + [(pid, pagina)]
      ensures Coherent(tlb0, paginas) && Views(tlb0, paginas) == old(T()) && Find(tlb0, pid, pagina) < 0
      ensures paginas.Keys == old(paginas.Keys) && HasPag(paginas, pid, pagina)
      ensures paginas[pid][pagina] == old(paginas[pid][pagina])
    {
      assert pid != FREE && Unique(tlb);
      hide InsertionOrder, Coherent, Views, StampsOk, Stamped;
      var k := TlbObtenerVictima();
      v := k;
      tlb0 := Emptied(tlb, k);
      GiveWay(tlb, paginas, k, pid, pagina);
      StampBounds(c, tlb, algTlb, lruC, inserciones);
      if tlb[k].pid != FREE {
        paginas := WrittenBack(paginas, tlb[k]);
      }
      var estampa := lruC;
      lruC := lruC + 1;
      var alg := AlgComportamiento();
      StampsFill(c, tlb, algTlb, estampa, inserciones, k, Reg(pid, pagina, marco, modificado, estampa, alg), lruC);
      tlb := tlb[k := Reg(pid, pagina, marco, modificado, estampa, alg)];
      inserciones := inserciones + [(pid, pagina)];
      assert tlb == tlb0[k := tlb[k]];
    }

    // ---------------------------------------------- access to a present page

    /** tlb_page_use and the rest of a hit: the register's stamps, use value and modified bit. */
    method UsarRegistro(v: int, write: bool) returns (ghost use: int)
      requires Coherent(tlb, paginas) && Stamps() && 0 <= v < |tlb| && tlb[v].pid != FREE
      modifies `tlb, `lruC, `algTlb
      ensures Coherent(tlb, paginas) && Stamps() && old(lruC) <= lruC && UseNow(c, use, old(lruC), lruC)
      ensures SamePlaces(old(tlb), tlb) && tlb == old(tlb)[v := tlb[v]]
      ensures if c.tlbFifo then tlb[v].algTlb == old(tlb)[v].algTlb && algTlb == old(algTlb)
              else tlb[v].algTlb == old(algTlb) && algTlb == old(algTlb) + 1
      ensures HasPage(old(T()), old(tlb[v]).pid, old(tlb[v]).pagina)
      ensures var r := old(tlb[v]); T() == SetPage(old(T()), r.pid, r.pagina, In(r.marco, write || r.modificado, use))
    {
      hide InsertionOrder, Coherent, Views, SetPage, StampsOk;
      RegView(tlb, paginas, v);
      StampBounds(c, tlb, algTlb, lruC, inserciones);
      var r := tlb[v];
      if !c.tlbFifo {
        r := r.(algTlb := algTlb);
        algTlb := algTlb + 1;
        r := r.(alg := lruC);
        lruC := lruC + 1;
      }
      if write { r := r.(modificado := true); }
      var alg := AlgComportamiento();
      r := r.(alg := alg);
      use := alg;
      EditReg(tlb, paginas, v, r);
      StampsTick(c, tlb, tlb[v := r], old(algTlb), algTlb, old(lruC), lruC, inserciones);
      tlb := tlb[v := r];
    }

    /** The cache hit of nro_marco: the register takes the access. */
    method TlbAcierto(v: int, write: bool) returns (ghost use: int)
      requires Valid() && 0 <= v < |tlb| && tlb[v].pid != FREE
      modifies `tlb, `lruC, `algTlb, `accesos
      ensures Valid()
      ensures old(Resident(T(), tlb[v].pid, tlb[v].pagina))
      ensures var r := old(tlb[v]);
        S() == Touch(old(S()), r.pid, r.pagina, NewDirty(c, write, old(T()[r.pid][r.pagina].dirty), true), use)
      ensures UseNow(c, use, old(lruC), lruC)
      ensures accesos == old(accesos) + [(old(tlb[v]).pid, old(tlb[v]).pagina)]
      ensures SamePlaces(old(tlb), tlb)
    {
      hide SamePlaces, Inv, Recency, InsertionOrder, Coherent, Views, SetPage, Touch, Cut, HandsOk, StampsOk;
      ghost var s, r := S(), tlb[v];
      RegView(tlb, paginas, v);
      use := UsarRegistro(v, write);
      accesos := accesos + [(r.pid, r.pagina)];
      Accessed(c, s, old(accesos), old(lruC), lruC, r.pid, r.pagina, write || r.modificado, use);
      assert S() == Touch(s, r.pid, r.pagina, write || r.modificado, use);
    }

    /** An uncached page becomes present in a frame, cached if there is a cache:
        tlb_insert_page followed by the update of the page record. */
    method Registrar(pid: int, pagina: int, marco: int, enReg: bool, enTabla: bool) returns (ghost use: int)
      requires Coherent(tlb, paginas) && Stamps()
      requires HasPag(paginas, pid, pagina) && Find(tlb, pid, pagina) < 0
      requires paginas[pid][pagina].tlb ==> c.tlbSize > 0
      modifies `tlb, `paginas, `lruC, `inserciones
      ensures Coherent(tlb, paginas) && Stamps() && paginas.Keys == old(paginas.Keys)
      ensures T() == SetPage(old(T()), pid, pagina, In(marco, if c.tlbSize > 0 then enReg else enTabla, use))
      ensures old(lruC) <= lruC && UseNow(c, use, old(lruC), lruC)
      ensures Cached(c, old(tlb), old(inserciones), tlb, inserciones, pid, pagina)
    {
      hide GivesWay, Cached, SamePlaces, InsertionOrder, Coherent, Views, SetPage, StampsOk;
      StampBounds(c, tlb, algTlb, lruC, inserciones);
      if c.tlbSize > 0 {
        ghost var v, tlb0 := TlbInsertPage(pid, pagina, marco, enReg);
        CachedIn(c, old(tlb), old(inserciones), tlb, pid, pagina, v);
        StampBounds(c, tlb, algTlb, lruC, inserciones);
        ghost var before := lruC;
        var alg := AlgComportamiento();
        StampsTick(c, tlb, tlb, algTlb, algTlb, before, lruC, inserciones);
        Cache(tlb0, paginas, v, tlb[v], Pag(marco, true, enTabla, alg, true));
        paginas := SetPag(paginas, pid, pagina, Pag(marco, true, enTabla, alg, true));
        use := tlb[v].alg;
      } else {
        var alg := AlgComportamiento();
        StampsTick(c, tlb, tlb, algTlb, algTlb, old(lruC), lruC, inserciones);
        EditUncached(tlb, paginas, pid, pagina, Pag(marco, true, enTabla, alg, false));
        paginas := SetPag(paginas, pid, pagina, Pag(marco, true, enTabla, alg, false));
        use := alg;
        NotKept(c, tlb, inserciones, pid, pagina);
      }
    }

    /** The page-table hit of nro_marco: the page is cached, if there is a cache. */
    method TablaAcierto(pid: int, pagina: int, write: bool) returns (ghost use: int)
      requires Valid() && HasPag(paginas, pid, pagina) && paginas[pid][pagina].presente
      requires Find(tlb, pid, pagina) < 0
      modifies `tlb, `paginas, `lruC, `inserciones, `accesos
      ensures Valid()
      ensures old(Resident(T(), pid, pagina))
      ensures S() == Touch(old(S()), pid, pagina, NewDirty(c, write, old(T()[pid][pagina].dirty), false), use)
      ensures UseNow(c, use, old(lruC), lruC)
      ensures accesos == old(accesos) + [(pid, pagina)]
      ensures Cached(c, old(tlb), old(inserciones), tlb, inserciones, pid, pagina)
    {
      hide Cached, Inv, Recency, InsertionOrder, Coherent, Views, SetPage, Touch, Cut, HandsOk, StampsOk;
      ghost var s, bytes := S(), ram[..];
      var p := paginas[pid][pagina];
      RecordView(tlb, paginas, pid, pagina);
      use := Registrar(pid, pagina, p.marco, write || (c.repaired && p.modificado), write || p.modificado);
      accesos := accesos + [(pid, pagina)];
      Accessed(c, s, old(accesos), old(lruC), lruC, pid, pagina, NewDirty(c, write, p.modificado, false), use);
      assert ram[..] == bytes;
      assert S() == Touch(s, pid, pagina, NewDirty(c, write, p.modificado, false), use);
    }

    // ------------------------------------------------------- RAM and frames

    /** memcpy into frame f, from offset off on. */
    method Memcpy(f: int, off: int, data: seq<Byte>)
      requires ram.Length == c.frameCount * c.pageSize
      requires 0 <= f < c.frameCount && 0 <= off && off + |data| <= c.pageSize
      modifies ram
      ensures var before := old(Cut(ram[..], c.frameCount, c.pageSize));
        Cut(ram[..], c.frameCount, c.pageSize) ==
          before[f := before[f][..off] + data + before[f][off + |data|..]]
    {
      hide Cut;
      FrameFits(c.frameCount, c.pageSize, f);
      ghost var bytes := ram[..];
      var at := f * c.pageSize + off;
      for k := 0 to |data|
        invariant ram[..] == bytes[..at] + data[..k] + bytes[at + k..]
      {
        SpliceNext(bytes, data, at, k);
        ghost var was := ram[..];
        ram[at + k] := data[k];
        assert ram[..] == was[at + k := data[k]];
      }
      assert data[..|data|] == data;
      CutUpdate(bytes, ram[..], c.frameCount, c.pageSize, f, off, data);
    }

    /** memcpy out of frame f. */
    method LeerRam(f: int, off: int, n: int) returns (data: seq<Byte>)
      requires ram.Length == c.frameCount * c.pageSize
      requires 0 <= f < c.frameCount && 0 <= off && 0 <= n && off + n <= c.pageSize
      ensures data == Cut(ram[..], c.frameCount, c.pageSize)[f][off..off + n]
    {
      FrameFits(c.frameCount, c.pageSize, f);
      var at := f * c.pageSize;
      data := ram[at + off..at + off + n];
      assert Cut(ram[..], c.frameCount, c.pageSize)[f] == ram[..][at..at + c.pageSize];
      SliceOfSlice(ram[..], at, at + c.pageSize, off, off + n);
    }

    /** marco_libre: the first free frame, or -1. */
    method MarcoLibre() returns (f: int)
      ensures f == NONE <==> FreeFrames(marcos) == {}
      ensures f != NONE ==> 0 <= f < |marcos| && marcos[f].pid == FREE &&
                            forall g :: 0 <= g < f ==> marcos[g].pid != FREE
    {
      f := 0;
      while f < |marcos|
        invariant 0 <= f <= |marcos|
        invariant forall g :: 0 <= g < f ==> marcos[g].pid != FREE
      {
        if marcos[f].pid == FREE {
          assert f in FreeFrames(marcos);
          return;
        }
        f := f + 1;
      }
      f := NONE;
    }

    /** paginas_presentes, marcos_asginados_a_proceso and the count inside proceso_puede_iniciar. */
    method PaginasPresentes(pid: int) returns (n: int)
      requires pid in paginas
      ensures n == |PresentOf(T()[pid])|
    {
      n := 0;
      ghost var counted: set<int> := {};
      for i := 0 to |paginas[pid]|
        invariant counted == set j | 0 <= j < i && paginas[pid][j].presente
        invariant n == |counted|
      {
        if paginas[pid][i].presente {
          n := n + 1;
          counted := counted + {i};
        }
      }
      assert counted == PresentOf(T()[pid]) by {
        assert forall j :: HasPag(paginas, pid, j) ==> (T()[pid][j].In? <==> paginas[pid][j].presente);
        assert forall j :: j in counted <==> HasPag(paginas, pid, j) && paginas[pid][j].presente;
      }
    }

    // ------------------------------------------------ bringing a page in

    /** The common end of buscar_en_swap and reemplazar_pagina: s0 is the memory
        with frame f free, whose entry in marcos already names the new page. */
    method Instalar(pid: int, pagina: int, f: int, contenido: Option<seq<Byte>>, write: bool, ghost s0: State)
      returns (ghost use: int)
      requires ram.Length == c.frameCount * c.pageSize && c.Ok() && 0 <= f < c.frameCount
      requires Coherent(tlb, paginas) && Stamps() && HasPag(paginas, pid, pagina) && !paginas[pid][pagina].presente
      requires contenido.Some? ==> |contenido.value| == c.pageSize
      requires |s0.frames| == c.frameCount && marcos == s0.frames[f := Frame(pid, pagina)]
      requires s0.ram == Cut(ram[..], c.frameCount, c.pageSize) && s0.tables == T() && s0.swap == swap
      modifies ram, `tlb, `paginas, `lruC, `inserciones
      ensures Coherent(tlb, paginas) && Stamps() && paginas.Keys == old(paginas.Keys)
      ensures old(lruC) <= lruC && UseNow(c, use, old(lruC), lruC)
      ensures S() == Load(s0, pid, pagina, f, contenido, FaultDirty(c, write, old(paginas[pid][pagina].modificado)),
                          use)
      ensures Cached(c, old(tlb), old(inserciones), tlb, inserciones, pid, pagina)
    {
      hide Cached, InsertionOrder, Coherent, Views, SetPage, StampsOk;
      NotCached(tlb, paginas, pid, pagina);
      RecordFlag(tlb, paginas, pid, pagina);
      StampBounds(c, tlb, algTlb, lruC, inserciones);
      if contenido.Some? {
        Memcpy(f, 0, contenido.value);
        assert s0.ram[f][..0] + contenido.value + s0.ram[f][|contenido.value|..] == contenido.value;
      }
      var arreglo := c.repaired && write;
      use := Registrar(pid, pagina, f, arreglo, arreglo || paginas[pid][pagina].modificado);
    }

    // --------------------------------------------------- choosing a victim

    /** pagina_obtener_datos_de_tlb: brings a present page's record up to date. */
    method Mirar(pid: int, pagina: int) returns (v: int)
      requires Coherent(tlb, paginas) && HasPag(paginas, pid, pagina) && paginas[pid][pagina].presente
      modifies `paginas
      ensures Coherent(tlb, paginas) && T() == old(T()) && paginas.Keys == old(paginas.Keys)
      ensures Fresh(tlb, paginas, pid, pagina)
      ensures if paginas[pid][pagina].tlb then v == Find(tlb, pid, pagina) && v >= 0 else v == NONE
      ensures SameFlags(old(paginas), paginas)
      ensures forall q, j :: HasPag(old(paginas), q, j) && (q, j) != (pid, pagina) ==>
                HasPag(paginas, q, j) && paginas[q][j] == old(paginas[q][j])
      ensures forall q, j :: Fresh(tlb, old(paginas), q, j) ==> Fresh(tlb, paginas, q, j)
    {
      var p := paginas[pid][pagina];
      if !p.tlb {
        v := NONE;
        NotCached(tlb, paginas, pid, pagina);
        RecordView(tlb, paginas, pid, pagina);
        return;
      }
      v := BuscarReg(pid, pagina);
      Sync(tlb, paginas, pid, pagina);
      ghost var synced := Synced(tlb, paginas, pid, pagina);
      paginas := SetPag(paginas, pid, pagina,
                        p.(algoritmo := tlb[v].alg, modificado := tlb[v].modificado, marco := tlb[v].marco));
      assert paginas == synced;
      RegView(tlb, paginas, v);
    }

    /** The use bit is cleared in the record and, if cached, in the register. */
    method Enfriar(pid: int, pagina: int, v: int)
      requires Coherent(tlb, paginas) && Stamps() && HasPag(paginas, pid, pagina) && paginas[pid][pagina].presente
      requires if paginas[pid][pagina].tlb then v == Find(tlb, pid, pagina) && v >= 0 else v == NONE
      modifies `paginas, `tlb
      ensures Coherent(tlb, paginas) && Stamps() && paginas.Keys == old(paginas.Keys)
      ensures old(Resident(T(), pid, pagina))
      ensures T() == SetPage(old(T()), pid, pagina, In(old(T()[pid][pagina].frame), old(T()[pid][pagina].dirty), 0))
      ensures SameFlags(old(paginas), paginas) && SamePlaces(old(tlb), tlb)
    {
      hide InsertionOrder, Coherent, Views, SetPage;
      Cool(tlb, paginas, pid, pagina);
      if paginas[pid][pagina].tlb {
        StampsTick(c, tlb, tlb[v := tlb[v].(alg := 0)], algTlb, algTlb, lruC, lruC, inserciones);
        tlb := tlb[v := tlb[v].(alg := 0)];
      }
      paginas := Cleared(paginas, pid, pagina);
    }

    /** The body of buscar_00: is the page in this frame unused and unmodified? */
    method Probar00(posicion: int, ghost cand: set<int>) returns (hit: bool)
      requires Coherent(tlb, paginas) && Occupied(marcos, T(), cand) && posicion in cand
      modifies `paginas
      ensures Coherent(tlb, paginas) && T() == old(T()) && SameFlags(old(paginas), paginas)
      ensures Fresh(tlb, paginas, marcos[posicion].pid, marcos[posicion].page)
      ensures hit <==> ClassOf(marcos, T(), cand, posicion) == 0
    {
      var m := marcos[posicion];
      PresentIsSeen(tlb, paginas, m.pid, m.page);
      var _ := Mirar(m.pid, m.page);
      hit := paginas[m.pid][m.page].algoritmo == 0 && !paginas[m.pid][m.page].modificado;
    }

    /** The body of buscar_01: is it unused but modified? If not, clear its use bit. */
    method Probar01(posicion: int, ghost cand: set<int>) returns (hit: bool)
      requires Coherent(tlb, paginas) && Stamps() && Occupied(marcos, T(), cand) && posicion in cand
      modifies `paginas, `tlb
      ensures Coherent(tlb, paginas) && Stamps() && SameFlags(old(paginas), paginas) && SamePlaces(old(tlb), tlb)
      ensures hit <==> ClassOf(marcos, old(T()), cand, posicion) == 1
      ensures hit ==> T() == old(T()) && Fresh(tlb, paginas, marcos[posicion].pid, marcos[posicion].page)
      ensures !hit ==> T() == SetPage(old(T()), marcos[posicion].pid, marcos[posicion].page,
                                      In(posicion, PageIn(marcos, old(T()), cand, posicion).dirty, 0))
    {
      var m := marcos[posicion];
      PresentIsSeen(tlb, paginas, m.pid, m.page);
      var k := Mirar(m.pid, m.page);
      hit := paginas[m.pid][m.page].algoritmo == 0 && paginas[m.pid][m.page].modificado;
      if !hit { Enfriar(m.pid, m.page, k); }
    }

    /** buscar_00: one turn of the hand for a page unused and unmodified. */
    method Buscar00() returns (v: int)
      requires Coherent(tlb, paginas) && Linked(marcos, T()) && 0 <= clockPuntero < |marcos|
      requires Occupied(marcos, T(), Below(|marcos|))
      modifies `paginas, `clockPuntero
      ensures Coherent(tlb, paginas) && T() == old(T()) && SameFlags(old(paginas), paginas)
      ensures v == NONE ==> NoneOf(marcos, T(), Below(|marcos|), 0) && clockPuntero == old(clockPuntero)
      ensures v != NONE ==> FirstOf(marcos, T(), Below(|marcos|), old(clockPuntero), 0, v) &&
                            clockPuntero == Advance(v, |marcos|) && Fresh(tlb, paginas, marcos[v].pid, marcos[v].page)
    {
      hide Coherent, Views, Linked, Occupied, NoneBefore, NoneOf, FirstOf, Fresh, ClassOf, SameFlags;
      var posicion, iteracion := clockPuntero, 0;
      ghost var h, t, n, all := clockPuntero, T(), |marcos|, Below(|marcos|);
      NoneAtStart(marcos, t, all, h, 0);
      SameFlagsChain(paginas, paginas, paginas);
      v := NONE;
      while iteracion < |marcos| && v == NONE
        invariant 0 <= iteracion <= n
        invariant Coherent(tlb, paginas) && T() == t && SameFlags(old(paginas), paginas)
        invariant v == NONE ==> posicion == Wrap(h, iteracion, n) && NoneBefore(marcos, t, all, h, 0, iteracion)
        invariant v != NONE ==> 0 <= v < n && FirstOf(marcos, t, all, h, 0, v) && posicion == Advance(v, n) &&
                                Fresh(tlb, paginas, marcos[v].pid, marcos[v].page)
      {
        WrapStep(h, iteracion, n);
        NoneStep(marcos, t, all, h, 0, iteracion, posicion);
        ghost var p0 := paginas;
        var hit := Probar00(posicion, all);
        SameFlagsChain(old(paginas), p0, paginas);
        if hit { v := posicion; }
        posicion := Advance(posicion, |marcos|);
        iteracion := iteracion + 1;
      }
      clockPuntero := posicion;
      if v == NONE { NoneAtAll(marcos, t, all, h, 0, n); }
    }

    /** buscar_01: one turn of the hand for a page unused but modified, clearing
        the use bit of every page it passes over. */
    method Buscar01() returns (v: int)
      requires Coherent(tlb, paginas) && Stamps() && Linked(marcos, T()) && 0 <= clockPuntero < |marcos|
      requires Occupied(marcos, T(), Below(|marcos|))
      modifies `paginas, `tlb, `clockPuntero
      ensures Coherent(tlb, paginas) && Stamps() && SameFlags(old(paginas), paginas) && SamePlaces(old(tlb), tlb)
      ensures v == NONE ==> NoneOf(marcos, old(T()), Below(|marcos|), 1) && clockPuntero == old(clockPuntero) &&
                            T() == Cooled(old(T()), Below(|marcos|), old(clockPuntero), |marcos|, |marcos|)
      ensures v != NONE ==> FirstOf(marcos, old(T()), Below(|marcos|), old(clockPuntero), 1, v) &&
                            clockPuntero == Advance(v, |marcos|) &&
                            Fresh(tlb, paginas, marcos[v].pid, marcos[v].page) &&
                            T() == Cooled(old(T()), Below(|marcos|), old(clockPuntero), |marcos|,
                                          Dist(old(clockPuntero), v, |marcos|))
    {
      hide Coherent, Views, Linked, Occupied, NoneBefore, NoneOf, FirstOf, Fresh, ClassOf, StampsOk, Cooled, SetPage,
           PageIn, Dist, Wrap, Advance, SameFlags, SamePlaces, Swept;
      var posicion, iteracion := clockPuntero, 0;
      ghost var h, t, n, all := clockPuntero, T(), |marcos|, Below(|marcos|);
      SweepStarts(marcos, t, all, h);
      WrapEnds(h, n);
      SameFlagsChain(paginas, paginas, paginas);
      SamePlacesChain(tlb, tlb, tlb);
      v := NONE;
      while iteracion < |marcos| && v == NONE
        invariant 0 <= iteracion <= n
        invariant Coherent(tlb, paginas) && Stamps() && SameFlags(old(paginas), paginas) && SamePlaces(old(tlb), tlb)
        invariant v == NONE ==> posicion == Wrap(h, iteracion, n) && Swept(marcos, t, all, h, iteracion, T())
        invariant v != NONE ==> 0 <= v < n && FirstOf(marcos, t, all, h, 1, v) && posicion == Advance(v, n) &&
                                Fresh(tlb, paginas, marcos[v].pid, marcos[v].page) &&
                                T() == Cooled(t, all, h, n, Dist(h, v, n))
      {
        WrapStep(h, iteracion, n);
        SweepStep(marcos, t, all, h, iteracion, T(), posicion);
        ghost var p0, r0 := paginas, tlb;
        var hit := Probar01(posicion, all);
        SameFlagsChain(old(paginas), p0, paginas);
        SamePlacesChain(old(tlb), r0, tlb);
        if hit { v := posicion; }
        posicion := Advance(posicion, |marcos|);
        iteracion := iteracion + 1;
      }
      clockPuntero := posicion;
      if v == NONE { SweepEnds(marcos, t, all, h, n, T()); }
    }

    /** cd: the clock over all frames. At most four turns of the hand. */
    method Cd() returns (v: int)
      requires Coherent(tlb, paginas) && Stamps() && Linked(marcos, T()) && 0 <= clockPuntero < |marcos|
      requires Occupied(marcos, T(), Below(|marcos|))
      modifies `paginas, `tlb, `clockPuntero
      ensures Coherent(tlb, paginas) && Stamps() && SameFlags(old(paginas), paginas) && SamePlaces(old(tlb), tlb)
      ensures v in Below(|marcos|) && ClockVictim(marcos, old(T()), Below(|marcos|), old(clockPuntero), v)
      ensures T() == AfterClock(marcos, old(T()), Below(|marcos|), old(clockPuntero), v)
      ensures clockPuntero == Advance(v, |marcos|) && Fresh(tlb, paginas, marcos[v].pid, marcos[v].page)
    {
      hide Coherent, Views, NoneBefore, NoneOf, FirstOf, Fresh, ClassOf, StampsOk, Cooled, SetPage, PageIn, Dist,
           Wrap, Advance,
           ClockVictim, AfterClock, SameOrder, Linked, Occupied, SameFlags, SamePlaces, Turned, Below;
      ghost var h, t, n, all := clockPuntero, T(), |marcos|, Below(|marcos|);
      ghost var vuelta := 0;
      v := NONE;
      TurnedStart(marcos, t, all, h);
      SameFlagsChain(paginas, paginas, paginas);
      SamePlacesChain(tlb, tlb, tlb);
      while v == NONE
        invariant 0 <= vuelta <= 2 && (v == NONE ==> vuelta <= 1)
        invariant Coherent(tlb, paginas) && Stamps() && SameFlags(old(paginas), paginas) && SamePlaces(old(tlb), tlb)
        invariant v == NONE ==> clockPuntero == h && Turned(marcos, t, all, h, h, T(), vuelta)
        invariant v != NONE ==>
                    v in all && ClockVictim(marcos, t, all, h, v) && T() == AfterClock(marcos, t, all, h, v) &&
                                clockPuntero == Advance(v, n) && Fresh(tlb, paginas, marcos[v].pid, marcos[v].page)
        decreases 2 - vuelta
      {
        ghost var t' := T();
        ghost var p0, r0 := paginas, tlb;
        TurnedFacts(marcos, t, all, h, h, t', vuelta);
        v := Buscar00();
        ghost var p1 := paginas;
        SameFlagsChain(old(paginas), p0, p1);
        if v != NONE {
          TurnHits00(marcos, t, all, h, h, t', vuelta, v);
          break;
        }
        v := Buscar01();
        SameFlagsChain(old(paginas), p1, paginas);
        SamePlacesChain(old(tlb), r0, tlb);
        if v != NONE {
          TurnHits01(marcos, t, all, h, h, h, t', vuelta, v);
        } else {
          TurnMisses(marcos, t, all, h, h, h, t', vuelta, 0);
        }
        vuelta := vuelta + 1;
      }
    }

    /** pagina_siguiente_en_memoria_por_pid: the process's hand moves to the next
        of its own frames, and past it. It ends because there is one. */
    method SiguientePropio(pid: int) returns (f: int)
      requires pid in pClock && 0 <= pClock[pid] < |marcos| && OwnFrames(marcos, pid) != {}
      modifies `pClock
      ensures pClock == old(pClock)[pid := Advance(f, |marcos|)] && 0 <= pClock[pid] < |marcos|
      ensures f in OwnFrames(marcos, pid)
      ensures forall g :: g in OwnFrames(marcos, pid) ==>
                Dist(old(pClock)[pid], f, |marcos|) <= Dist(old(pClock)[pid], g, |marcos|)
    {
      ghost var h, n, own, paso := pClock[pid], |marcos|, OwnFrames(marcos, pid), 0;
      ghost var meta :| meta in own;
      f := NONE;
      while f == NONE
        invariant pid in pClock && pClock == old(pClock)[pid := pClock[pid]] && 0 <= paso <= n
        invariant f == NONE ==>
                    pClock[pid] == Wrap(h, paso, n) && paso < n && forall g :: g in own ==> paso <= Dist(h, g, n)
        invariant f != NONE ==> f in own && pClock[pid] == Advance(f, n) &&
                                forall g :: g in own ==> Dist(h, f, n) <= Dist(h, g, n)
        decreases n - paso, f == NONE
      {
        WrapStep(h, paso, n);
        if marcos[pClock[pid]].pid == pid { f := pClock[pid]; }
        pClock := pClock[pid := Advance(pClock[pid], |marcos|)];
        if f == NONE {
          assert meta in own && Dist(h, meta, n) != paso;
          paso := paso + 1;
        }
      }
    }

    /** buscar_00_cf: as buscar_00, over the frames of one process. */
    method Buscar00Fijo(pid: int) returns (v: int)
      requires Coherent(tlb, paginas) && pid in paginas && pid in pClock && 0 <= pClock[pid] < |marcos|
      requires Occupied(marcos, T(), OwnFrames(marcos, pid))
      requires |OwnFrames(marcos, pid)| == |PresentOf(T()[pid])| > 0
      modifies `paginas, `pClock
      ensures Coherent(tlb, paginas) && T() == old(T()) && SameFlags(old(paginas), paginas)
      ensures pid in pClock && pClock == old(pClock)[pid := pClock[pid]] && 0 <= pClock[pid] < |marcos|
      ensures v == NONE ==> NoneOf(marcos, T(), OwnFrames(marcos, pid), 0) &&
                            SameOrder(OwnFrames(marcos, pid), old(pClock)[pid], pClock[pid], |marcos|)
      ensures v != NONE ==> FirstOf(marcos, T(), OwnFrames(marcos, pid), old(pClock)[pid], 0, v) &&
                            v in OwnFrames(marcos, pid) &&
                            pClock[pid] == Advance(v, |marcos|) && Fresh(tlb, paginas, pid, marcos[v].page)
    {
      hide Coherent, Views, Linked, Occupied, NoneBefore, NoneOf, FirstOf, Fresh, ClassOf, SameFlags, SameOrder, Dist,
           Wrap, Advance, Passed, PresentOf;
      ghost var h, t, n, own := pClock[pid], T(), |marcos|, OwnFrames(marcos, pid);
      var iteracion := 0;
      var asignados := PaginasPresentes(pid);
      ghost var s := 0;
      NoneAtStart(marcos, t, own, h, 0);
      PassedStart(own, h, n);
      SameFlagsChain(paginas, paginas, paginas);
      v := NONE;
      while iteracion < asignados && v == NONE
        invariant 0 <= iteracion <= asignados && 0 <= s <= n
        invariant Coherent(tlb, paginas) && T() == t && SameFlags(old(paginas), paginas)
        invariant pid in pClock && pClock == old(pClock)[pid := pClock[pid]] && 0 <= pClock[pid] < |marcos|
        invariant v == NONE ==> pClock[pid] == Wrap(h, s, n) && NoneBefore(marcos, t, own, h, 0, s) &&
                                |Passed(own, h, n, s)| == iteracion
        invariant v != NONE ==> v in own && FirstOf(marcos, t, own, h, 0, v) && pClock[pid] == Advance(v, n) &&
                                Fresh(tlb, paginas, pid, marcos[v].page)
      {
        var f := SiguientePropio(pid);
        NextCandidate(own, h, n, s, f);
        NoneStep(marcos, t, own, h, 0, s, f);
        ghost var p0 := paginas;
        var hit := Probar00(f, own);
        SameFlagsChain(old(paginas), p0, paginas);
        if hit { v := f; }
        s := Dist(h, f, n) + 1;
        iteracion := iteracion + 1;
      }
      if v == NONE {
        EveryPassed(own, h, n, s);
        NoneAtAll(marcos, t, own, h, 0, s);
        FullTurn(own, h, n, s);
      }
    }

    /** buscar_01_cf: as buscar_01, over the frames of one process. */
    method Buscar01Fijo(pid: int) returns (v: int)
      requires Coherent(tlb, paginas) && Stamps() && Linked(marcos, T())
      requires pid in paginas && pid in pClock && 0 <= pClock[pid] < |marcos|
      requires Occupied(marcos, T(), OwnFrames(marcos, pid))
      requires |OwnFrames(marcos, pid)| == |PresentOf(T()[pid])| > 0
      modifies `paginas, `tlb, `pClock
      ensures Coherent(tlb, paginas) && Stamps() && SameFlags(old(paginas), paginas) && SamePlaces(old(tlb), tlb)
      ensures pid in pClock && pClock == old(pClock)[pid := pClock[pid]] && 0 <= pClock[pid] < |marcos|
      ensures v == NONE ==> NoneOf(marcos, old(T()), OwnFrames(marcos, pid), 1) &&
                            SameOrder(OwnFrames(marcos, pid), old(pClock)[pid], pClock[pid], |marcos|) &&
                            T() == Cooled(old(T()), OwnFrames(marcos, pid), old(pClock)[pid], |marcos|, |marcos|)
      ensures v != NONE ==> FirstOf(marcos, old(T()), OwnFrames(marcos, pid), old(pClock)[pid], 1, v) &&
                            v in OwnFrames(marcos, pid) &&
                            pClock[pid] == Advance(v, |marcos|) && Fresh(tlb, paginas, pid, marcos[v].page) &&
                            T() == Cooled(old(T()), OwnFrames(marcos, pid), old(pClock)[pid], |marcos|,
                                          Dist(old(pClock)[pid], v, |marcos|))
    {
      hide Coherent, Views, Linked, Occupied, NoneBefore, NoneOf, FirstOf, Fresh, ClassOf, SameFlags, SameOrder, Dist,
           Wrap, Advance, Passed, PresentOf, StampsOk, Cooled, SetPage, PageIn, Swept, SamePlaces;
      ghost var h, t, n, own := pClock[pid], T(), |marcos|, OwnFrames(marcos, pid);
      var iteracion := 0;
      var asignados := PaginasPresentes(pid);
      ghost var s := 0;
      SweepStarts(marcos, t, own, h);
      PassedStart(own, h, n);
      SameFlagsChain(paginas, paginas, paginas);
      SamePlacesChain(tlb, tlb, tlb);
      v := NONE;
      while iteracion < asignados && v == NONE
        invariant 0 <= iteracion <= asignados && 0 <= s <= n
        invariant Coherent(tlb, paginas) && Stamps() && SameFlags(old(paginas), paginas) && SamePlaces(old(tlb), tlb)
        invariant pid in pClock && pClock == old(pClock)[pid := pClock[pid]] && 0 <= pClock[pid] < |marcos|
        invariant v == NONE ==> pClock[pid] == Wrap(h, s, n) && Swept(marcos, t, own, h, s, T()) &&
                                |Passed(own, h, n, s)| == iteracion
        invariant v != NONE ==> v in own && FirstOf(marcos, t, own, h, 1, v) && pClock[pid] == Advance(v, n) &&
                                Fresh(tlb, paginas, pid, marcos[v].page) && T() == Cooled(t, own, h, n, Dist(h, v, n))
      {
        var f := SiguientePropio(pid);
        NextCandidate(own, h, n, s, f);
        SweepStep(marcos, t, own, h, s, T(), f);
        ghost var p0, r0 := paginas, tlb;
        var hit := Probar01(f, own);
        SameFlagsChain(old(paginas), p0, paginas);
        SamePlacesChain(old(tlb), r0, tlb);
        if hit { v := f; }
        s := Dist(h, f, n) + 1;
        iteracion := iteracion + 1;
      }
      if v == NONE {
        EveryPassed(own, h, n, s);
        SweepEnds(marcos, t, own, h, s, T());
        FullTurn(own, h, n, s);
      }
    }

    /** One turn of clock_fijo's loop: the (0,0) sweep, then the (0,1) sweep. */
    method VueltaFija(pid: int, ghost t: Tables, ghost h: int, ghost vuelta: int) returns (v: int)
      requires Coherent(tlb, paginas) && Stamps() && Linked(marcos, t)
      requires pid in paginas && pid in pClock && 0 <= pClock[pid] < |marcos|
      requires |OwnFrames(marcos, pid)| == |PresentOf(T()[pid])| > 0
      requires Turned(marcos, t, OwnFrames(marcos, pid), h, pClock[pid], T(), vuelta)
      modifies `paginas, `tlb, `pClock
      ensures Coherent(tlb, paginas) && Stamps() && SameFlags(old(paginas), paginas) && SamePlaces(old(tlb), tlb)
      ensures pid in pClock && pClock == old(pClock)[pid := pClock[pid]] && 0 <= pClock[pid] < |marcos|
      ensures v == NONE ==> vuelta == 0 && Turned(marcos, t, OwnFrames(marcos, pid), h, pClock[pid], T(), 1)
      ensures v != NONE ==> v in OwnFrames(marcos, pid) && ClockVictim(marcos, t, OwnFrames(marcos, pid), h, v)
      ensures v != NONE ==> T() == AfterClock(marcos, t, OwnFrames(marcos, pid), h, v)
      ensures v != NONE ==> pClock[pid] == Advance(v, |marcos|) && Fresh(tlb, paginas, pid, marcos[v].page)
    {
      hide Coherent, Views, NoneBefore, NoneOf, FirstOf, Fresh, ClassOf, StampsOk, Cooled, SetPage, PageIn, Dist,
           Wrap, Advance,
           ClockVictim, AfterClock, SameOrder, Linked, Occupied, SameFlags, SamePlaces, Turned, PresentOf;
      ghost var own, t', p0, h0 := OwnFrames(marcos, pid), T(), paginas, pClock[pid];
      ghost var alguno :| alguno in own;
      TurnedFacts(marcos, t, own, h, h0, t', vuelta);
      SamePlacesChain(tlb, tlb, tlb);
      v := Buscar00Fijo(pid);
      ghost var p1, h1 := paginas, pClock[pid];
      if v != NONE {
        TurnHits00(marcos, t, own, h, h0, t', vuelta, v);
        return;
      }
      SamePresent(tlb, p0, tlb, p1, pid);
      v := Buscar01Fijo(pid);
      SameFlagsChain(p0, p1, paginas);
      SamePlacesChain(old(tlb), tlb, tlb);
      if v != NONE {
        TurnHits01(marcos, t, own, h, h0, h1, t', vuelta, v);
      } else {
        TurnMisses(marcos, t, own, h, h0, h1, t', vuelta, alguno);
        TurnGoesOn(marcos, t, own, h, h1, pClock[pid], T(), 1);
      }
    }

    /** clock_fijo: the clock over the process's own frames, with its own hand. */
    method ClockFijo(pid: int) returns (v: int)
      requires Coherent(tlb, paginas) && Stamps() && Linked(marcos, T())
      requires pid in paginas && pid in pClock && 0 <= pClock[pid] < |marcos|
      requires Occupied(marcos, T(), OwnFrames(marcos, pid))
      requires |OwnFrames(marcos, pid)| == |PresentOf(T()[pid])| > 0
      modifies `paginas, `tlb, `pClock
      ensures Coherent(tlb, paginas) && Stamps() && SameFlags(old(paginas), paginas) && SamePlaces(old(tlb), tlb)
      ensures pid in pClock && pClock == old(pClock)[pid := pClock[pid]] && 0 <= pClock[pid] < |marcos|
      ensures v in OwnFrames(marcos, pid)
      ensures ClockVictim(marcos, old(T()), OwnFrames(marcos, pid), old(pClock)[pid], v)
      ensures T() == AfterClock(marcos, old(T()), OwnFrames(marcos, pid), old(pClock)[pid], v)
      ensures pClock[pid] == Advance(v, |marcos|) && Fresh(tlb, paginas, pid, marcos[v].page)
    {
      hide Coherent, Views, Fresh, ClassOf, StampsOk, Cooled, Advance, ClockVictim, AfterClock, SameOrder, Linked,
           Occupied,
           SameFlags, SamePlaces, Turned, PresentOf;
      ghost var h, t, own := pClock[pid], T(), OwnFrames(marcos, pid);
      ghost var vuelta := 0;
      v := NONE;
      TurnedStart(marcos, t, own, h);
      SameFlagsChain(paginas, paginas, paginas);
      SamePlacesChain(tlb, tlb, tlb);
      while v == NONE
        invariant 0 <= vuelta <= 2 && (v == NONE ==> vuelta <= 1)
        invariant Coherent(tlb, paginas) && Stamps() && SameFlags(old(paginas), paginas) && SamePlaces(old(tlb), tlb)
        invariant pid in pClock && pClock == old(pClock)[pid := pClock[pid]] && 0 <= pClock[pid] < |marcos|
        invariant v == NONE ==> Turned(marcos, t, own, h, pClock[pid], T(), vuelta)
        invariant v != NONE ==>
                    v in own && ClockVictim(marcos, t, own, h, v) && T() == AfterClock(marcos, t, own, h, v) &&
                                pClock[pid] == Advance(v, |marcos|) && Fresh(tlb, paginas, pid, marcos[v].page)
        decreases 2 - vuelta
      {
        ghost var p0, r0 := paginas, tlb;
        SamePresent(old(tlb), old(paginas), tlb, paginas, pid);
        v := VueltaFija(pid, t, h, vuelta);
        SameFlagsChain(old(paginas), p0, paginas);
        SamePlacesChain(old(tlb), r0, tlb);
        vuelta := vuelta + 1;
      }
    }

    /** lru_en_pag_table: the least use value among the process's present pages,
        each looked up in the cache first. */
    method LruFijo(pid: int) returns (victima: int)
      requires Coherent(tlb, paginas) && pid in paginas && PresentOf(T()[pid]) != {}
      requires forall p, i :: Resident(T(), p, i) ==> T()[p][i].use < lruC
      modifies `paginas
      ensures Coherent(tlb, paginas) && T() == old(T()) && SameFlags(old(paginas), paginas)
      ensures LeastUse(T(), true, pid, pid, victima) && Fresh(tlb, paginas, pid, victima)
    {
      hide Coherent, Views, SameFlags;
      ghost var t := T();
      ghost var alguna :| alguna in PresentOf(t[pid]);
      assert Resident(t, pid, alguna);
      SameFlagsChain(paginas, paginas, paginas);
      var minimo := lruC;
      victima := NONE;
      var i := 0;
      while i < |paginas[pid]|
        invariant pid in paginas && |paginas[pid]| == |t[pid]| && 0 <= i <= |t[pid]|
        invariant Coherent(tlb, paginas) && T() == t && SameFlags(old(paginas), paginas)
        invariant minimo <= lruC && forall j :: 0 <= j < i && t[pid][j].In? ==> minimo <= t[pid][j].use
        invariant victima == NONE ==> minimo == lruC
        invariant victima != NONE ==> Resident(t, pid, victima) && minimo == t[pid][victima].use &&
                                      Fresh(tlb, paginas, pid, victima)
      {
        PresentIsSeen(tlb, paginas, pid, i);
        if paginas[pid][i].presente {
          ghost var p0 := paginas;
          var _ := Mirar(pid, i);
          SameFlagsChain(old(paginas), p0, paginas);
          assert Resident(t, pid, i) && t[pid][i].use == paginas[pid][i].algoritmo;
          if paginas[pid][i].algoritmo < minimo {
            minimo := paginas[pid][i].algoritmo;
            victima := i;
          }
        }
        i := i + 1;
      }
    }

    /** lru_dinamico: the same over all processes, later pages winning ties. */
    method LruDinamico() returns (pidVictima: int, victima: int)
      requires Coherent(tlb, paginas) && forall pid :: pid in lista <==> pid in paginas
      requires exists p, i :: Resident(T(), p, i)
      requires forall p, i :: Resident(T(), p, i) ==> T()[p][i].use < lruC
      modifies `paginas
      ensures Coherent(tlb, paginas) && T() == old(T()) && SameFlags(old(paginas), paginas)
      ensures LeastUse(T(), false, 0, pidVictima, victima) && Fresh(tlb, paginas, pidVictima, victima)
    {
      hide Coherent, Views, SameFlags, NoneLess, Fresh;
      ghost var t := T();
      SameFlagsChain(paginas, paginas, paginas);
      var minimo := lruC;
      pidVictima, victima := NONE, NONE;
      var k := 0;
      while k < |lista|
        invariant 0 <= k <= |lista| && paginas.Keys == t.Keys
        invariant Coherent(tlb, paginas) && T() == t && SameFlags(old(paginas), paginas)
        invariant minimo <= lruC
        invariant forall m :: 0 <= m < k ==> NoneLess(t, lista[m], |t[lista[m]]|, minimo)
        invariant victima == NONE ==> minimo == lruC
        invariant victima != NONE ==> Resident(t, pidVictima, victima) && minimo == t[pidVictima][victima].use &&
                                      Fresh(tlb, paginas, pidVictima, victima)
      {
        var pid := lista[k];
        var i := 0;
        NoneYet(t, pid, minimo);
        while i < |paginas[pid]|
          invariant 0 <= i <= |t[pid]| && paginas.Keys == t.Keys && |paginas[pid]| == |t[pid]|
          invariant Coherent(tlb, paginas) && T() == t && SameFlags(old(paginas), paginas)
          invariant minimo <= lruC && NoneLess(t, pid, i, minimo)
          invariant forall m :: 0 <= m < k ==> NoneLess(t, lista[m], |t[lista[m]]|, minimo)
          invariant victima == NONE ==> minimo == lruC
          invariant victima != NONE ==> Resident(t, pidVictima, victima) && minimo == t[pidVictima][victima].use &&
                                        Fresh(tlb, paginas, pidVictima, victima)
        {
          PresentIsSeen(tlb, paginas, pid, i);
          ghost var antes := minimo;
          if paginas[pid][i].presente {
            ghost var p0 := paginas;
            var _ := Mirar(pid, i);
            SameFlagsChain(old(paginas), p0, paginas);
            FreshUse(tlb, paginas, pid, i);
            if paginas[pid][i].algoritmo <= minimo {
              NoneLower(t, paginas[pid][i].algoritmo, minimo);
              minimo := paginas[pid][i].algoritmo;
              pidVictima, victima := pid, i;
            }
          }
          NoneMore(t, pid, i, minimo, antes);
          i := i + 1;
        }
        k := k + 1;
      }
      NoneLeft(t, lista, minimo);
    }

    /** The clock over all frames, as the configured algorithm. */
    method PorCd(pid: int) returns (f: int)
      requires Valid() && CanTake(c, S(), pid) && c.clock && !c.fixed
      modifies `paginas, `tlb, `clockPuntero
      ensures Coherent(tlb, paginas) && Stamps() && SameFlags(old(paginas), paginas) && SamePlaces(old(tlb), tlb)
      ensures 0 <= f < |marcos| && Fresh(tlb, paginas, marcos[f].pid, marcos[f].page)
      ensures Chosen(c, old(S()), old(HandOf(c, clockPuntero, pClock, pid)), pid, T(), marcos[f].pid, marcos[f].page)
      ensures T()[marcos[f].pid][marcos[f].page].frame == f
      ensures HandOf(c, clockPuntero, pClock, pid) == Advance(f, |marcos|)
      ensures HandsOk(c, clockPuntero, pClock, lista, paginas.Keys)
    {
      hide Inv, Recency, InsertionOrder, Coherent, Views, Cut, StampsOk, ClockVictim, AfterClock, Linked, Occupied,
           SameFlags, SamePlaces, OwnFrames, PresentOf, Fresh, Chosen, SameButUse, HandsOk, CanTake, Below;
      ghost var s, h := S(), HandOf(c, clockPuntero, pClock, pid);
      TakeFacts(c, s, pid);
      HandsFacts(c, clockPuntero, pClock, lista, paginas.Keys, pid);
      f := Cd();
      KeysKept(old(paginas), paginas);
      HandMoves(c, old(clockPuntero), old(pClock), clockPuntero, pClock, lista, paginas.Keys, pid);
      ClockChosen(c, s, h, pid, T(), f);
      ChosenSame(c, s, h, pid, T(), marcos[f].pid, marcos[f].page);
    }

    /** The clock over the process's own frames, as the configured algorithm. */
    method PorClockFijo(pid: int) returns (f: int)
      requires Valid() && CanTake(c, S(), pid) && c.clock && c.fixed
      modifies `paginas, `tlb, `pClock
      ensures Coherent(tlb, paginas) && Stamps() && SameFlags(old(paginas), paginas) && SamePlaces(old(tlb), tlb)
      ensures 0 <= f < |marcos| && Fresh(tlb, paginas, marcos[f].pid, marcos[f].page)
      ensures Chosen(c, old(S()), old(HandOf(c, clockPuntero, pClock, pid)), pid, T(), marcos[f].pid, marcos[f].page)
      ensures T()[marcos[f].pid][marcos[f].page].frame == f
      ensures HandOf(c, clockPuntero, pClock, pid) == Advance(f, |marcos|)
      ensures HandsOk(c, clockPuntero, pClock, lista, paginas.Keys)
    {
      hide Inv, Recency, InsertionOrder, Coherent, Views, Cut, StampsOk, ClockVictim, AfterClock, Linked, Occupied,
           SameFlags, SamePlaces, OwnFrames, PresentOf, Fresh, Chosen, SameButUse, HandsOk, CanTake, Below;
      ghost var s, h := S(), HandOf(c, clockPuntero, pClock, pid);
      TakeFacts(c, s, pid);
      HandsFacts(c, clockPuntero, pClock, lista, paginas.Keys, pid);
      f := ClockFijo(pid);
      KeysKept(old(paginas), paginas);
      HandMoves(c, old(clockPuntero), old(pClock), clockPuntero, pClock, lista, paginas.Keys, pid);
      ClockChosen(c, s, h, pid, T(), f);
      ChosenSame(c, s, h, pid, T(), marcos[f].pid, marcos[f].page);
    }

    /** The least recently used page, of all or of the process's own. */
    method AlgoritmoLru(pid: int) returns (vp: int, vi: int)
      requires Valid() && CanTake(c, S(), pid) && !c.clock
      modifies `paginas
      ensures Coherent(tlb, paginas) && SameFlags(old(paginas), paginas) && Fresh(tlb, paginas, vp, vi)
      ensures Chosen(c, old(S()), old(HandOf(c, clockPuntero, pClock, pid)), pid, T(), vp, vi)
    {
      hide Inv, Recency, InsertionOrder, Coherent, Views, Cut, StampsOk, LeastUse, Linked, Occupied, SameFlags,
           FreeFrames, OwnFrames, Fresh, Chosen;
      ghost var s, h := S(), HandOf(c, clockPuntero, pClock, pid);
      TakeFacts(c, s, pid);
      RecencyBounds(T(), accesos, lruC);
      if c.fixed {
        vp := pid;
        vi := LruFijo(pid);
        LruChosen(c, s, h, pid, pid, vp, vi);
      } else {
        vp, vi := LruDinamico();
        LruChosen(c, s, h, pid, 0, vp, vi);
      }
    }

    /** algoritmo_mmu: the configured algorithm chooses a page and marks its record
        as gone; ps are the page records just before that mark. */
    method AlgoritmoMmu(pid: int) returns (v: Victim, ghost ps: Paginas)
      requires Valid() && CanTake(c, S(), pid)
      modifies `paginas, `tlb, `clockPuntero, `pClock
      ensures Coherent(tlb, ps) && Stamps() && SameFlags(old(paginas), ps) && SamePlaces(old(tlb), tlb) &&
              Describes(v, tlb, ps)
      ensures paginas == Marked(ps, v.pid, v.pagina)
      ensures Chosen(c, old(S()), old(HandOf(c, clockPuntero, pClock, pid)), pid, Views(tlb, ps), v.pid, v.pagina)
      ensures HandOf(c, clockPuntero, pClock, pid) ==
                if c.clock then Advance(v.marco, |marcos|) else old(HandOf(c, clockPuntero, pClock, pid))
      ensures HandsOk(c, clockPuntero, pClock, lista, ps.Keys)
    {
      hide Inv, Recency, InsertionOrder, Coherent, Views, Cut, StampsOk, SameFlags, SamePlaces, Fresh, Chosen, CanTake;
      SamePlacesChain(tlb, tlb, tlb);
      var vp, vi;
      if c.clock {
        var f;
        if c.fixed {
          f := PorClockFijo(pid);
        } else {
          f := PorCd(pid);
        }
        vp, vi := marcos[f].pid, marcos[f].page;
      } else {
        vp, vi := AlgoritmoLru(pid);
      }
      ps := paginas;
      KeysKept(old(paginas), ps);
      FreshIs(tlb, ps, vp, vi);
      FreshUse(tlb, ps, vp, vi);
      var p := paginas[vp][vi];
      v := Victim(vp, vi, p.marco, p.modificado, p.tlb);
      paginas := Marked(paginas, vp, vi);
    }

    // -------------------------------------------------------- replacement

    /** tlb_limpiar_registro, tlb_actualizar_entrada_vieja. */
    method LimpiarRegistro(pid: int, pagina: int)
      requires Unique(tlb) && pid != FREE
      modifies `tlb
      ensures tlb == Forgotten(old(tlb), pid, pagina)
    {
      var i := 0;
      while i < |tlb|
        invariant 0 <= i <= |tlb| == |old(tlb)|
        invariant forall w :: 0 <= w < |tlb| ==>
                    tlb[w] == if w < i && Is(old(tlb)[w], pid, pagina) then old(tlb)[w].(pid := FREE) else old(tlb)[w]
      {
        if Is(tlb[i], pid, pagina) { tlb := tlb[i := tlb[i].(pid := FREE)]; }
        i := i + 1;
      }
      ForgottenIs(old(tlb), tlb, pid, pagina);
    }

    /** enviar_pagina_a_swap: the frame's content becomes the page's swap copy. */
    method EnviarPaginaASwap(pid: int, pagina: int, marco: int)
      requires Unique(tlb) && pid != FREE
      requires ram.Length == c.frameCount * c.pageSize && 0 <= marco < c.frameCount
      modifies `tlb, `swap
      ensures tlb == Forgotten(old(tlb), pid, pagina)
      ensures swap == old(swap)[(pid, pagina) := Cut(ram[..], c.frameCount, c.pageSize)[marco]]
    {
      hide Cut, Forgotten, Unique;
      var contenido := LeerRam(marco, 0, c.pageSize);
      assert contenido == Cut(ram[..], c.frameCount, c.pageSize)[marco];
      swap := swap[(pid, pagina) := contenido];
      LimpiarRegistro(pid, pagina);
    }

    /** The victim's part of reemplazar_pagina: its register is emptied, its frame handed over, its
        content saved if modified. s is the memory as it was when the victim was chosen, before
        its record was marked. */
    method Desalojar(v: Victim, pid: int, pagina: int, ghost ps: Paginas, ghost s: State)
      requires ram.Length == c.frameCount * c.pageSize && Inv(c, s) && Coherent(tlb, ps) && Stamps()
      requires s == State(Cut(ram[..], c.frameCount, c.pageSize), marcos, Views(tlb, ps), swap)
      requires Describes(v, tlb, ps) && paginas == Marked(ps, v.pid, v.pagina)
      modifies `tlb, `marcos, `swap
      ensures Coherent(tlb, paginas) && Stamps() && tlb == Forgotten(old(tlb), v.pid, v.pagina)
      ensures Resident(s.tables, v.pid, v.pagina) && s.tables[v.pid][v.pagina].frame == v.marco &&
              0 <= v.marco < |s.frames| == |s.ram| == c.frameCount
      ensures var s1 := Evict(s, v.pid, v.pagina, false);
        && |s1.frames| == c.frameCount && marcos == s1.frames[v.marco := Frame(pid, pagina)]
        && s1.ram == s.ram && s1.tables == T() && s1.swap == swap
    {
      hide Inv, InsertionOrder, Coherent, Views, SetPage, StampsOk, Cut, Evict, Forgotten, Fresh, Unique;
      VictimSeen(c, s, tlb, ps, v.pid, v.pagina);
      GoneIs(s, v.pid, v.pagina, Frame(pid, pagina));
      FallAsleep(tlb, ps, v.pid, v.pagina, paginas[v.pid][v.pagina]);
      StampsForget(c, tlb, algTlb, lruC, inserciones, v.pid, v.pagina);
      if v.tlb { LimpiarRegistro(v.pid, v.pagina); }
      marcos := marcos[v.marco := Frame(pid, pagina)];
      if v.modificado { EnviarPaginaASwap(v.pid, v.pagina, v.marco); }
    }

    /** reemplazar_pagina: the victim leaves, then the new page moves in. */
    method ReemplazarPagina(v: Victim, contenido: Option<seq<Byte>>, pid: int, pagina: int, write: bool,
                            ghost ps: Paginas, ghost s: State)
      returns (ghost use: int)
      requires ram.Length == c.frameCount * c.pageSize && Inv(c, s) && Coherent(tlb, ps) && Stamps()
      requires s == State(Cut(ram[..], c.frameCount, c.pageSize), marcos, Views(tlb, ps), swap)
      requires Describes(v, tlb, ps) && paginas == Marked(ps, v.pid, v.pagina)
      requires HasPag(ps, pid, pagina) && !ps[pid][pagina].presente
      requires contenido.Some? ==> |contenido.value| == c.pageSize
      modifies ram, `tlb, `paginas, `marcos, `swap, `lruC, `inserciones
      ensures Coherent(tlb, paginas) && Stamps() && paginas.Keys == ps.Keys
      ensures old(lruC) <= lruC && UseNow(c, use, old(lruC), lruC)
      ensures Resident(s.tables, v.pid, v.pagina) && s.tables[v.pid][v.pagina].frame == v.marco &&
              0 <= v.marco < |s.frames| == |s.ram|
      ensures S() == Load(Evict(s, v.pid, v.pagina, false), pid, pagina, v.marco, contenido,
                          FaultDirty(c, write, ps[pid][pagina].modificado), use)
      ensures Cached(c, Forgotten(old(tlb), v.pid, v.pagina), old(inserciones), tlb, inserciones, pid, pagina)
    {
      hide Inv, InsertionOrder, Coherent, Views, SetPage, StampsOk, Cut, Evict, Load, Forgotten, Fresh, Unique,
           UseNow, Cached;
      VictimSeen(c, s, tlb, ps, v.pid, v.pagina);
      Desalojar(v, pid, pagina, ps, s);
      use := Instalar(pid, pagina, v.marco, contenido, write, Evict(s, v.pid, v.pagina, false));
    }

    /** The decision of buscar_en_swap and pagina_iniciar: does a free frame go to this process? */
    method HayMarco(pid: int) returns (f: int)
      requires Coherent(tlb, paginas) && pid in paginas && ram.Length == c.frameCount * c.pageSize
      ensures f == NONE <==> !MayGrow(c, S(), pid)
      ensures f != NONE ==> RoomMade(c, S(), HandOf(c, clockPuntero, pClock, pid), pid, Spare(f)) && 0 <= f < |marcos|
    {
      f := MarcoLibre();
      if c.fixed {
        var asignados := PaginasPresentes(pid);
        if !(asignados + 1 <= c.ownMax) { f := NONE; }
      }
    }

    /** reemplazar_pagina on the victim of algoritmo_mmu. */
    method Robar(pid: int, pagina: int, contenido: Option<seq<Byte>>, write: bool)
      returns (f: int, ghost room: Room, ghost use: int)
      requires Valid() && CanTake(c, S(), pid) && HasPag(paginas, pid, pagina) && !paginas[pid][pagina].presente
      requires contenido.Some? ==> |contenido.value| == c.pageSize
      modifies ram, `tlb, `paginas, `marcos, `swap, `lruC, `inserciones, `clockPuntero, `pClock
      ensures Coherent(tlb, paginas) && Stamps() && Hands() && paginas.Keys == old(paginas.Keys)
      ensures old(lruC) <= lruC && UseNow(c, use, old(lruC), lruC)
      ensures Stolen(c, old(S()), old(HandOf(c, clockPuntero, pClock, pid)), pid, pagina, contenido, write, f, room,
                     use, S())
      ensures Cached(c, RoomTlb(old(tlb), room), old(inserciones), tlb, inserciones, pid, pagina)
      ensures HandOf(c, clockPuntero, pClock, pid) ==
                if c.clock then Advance(f, c.frameCount) else old(HandOf(c, clockPuntero, pClock, pid))
    {
      hide Inv, Recency, InsertionOrder, Coherent, Views, Cut, StampsOk, SameFlags, Chosen, CanTake, HandsOk, SetPage,
           Describes, SamePlaces, Cached, Forgotten, Unique, RoomTlb, Stolen;
      ghost var s, h := S(), HandOf(c, clockPuntero, pClock, pid);
      RecordFlag(tlb, paginas, pid, pagina);
      var v, ps := AlgoritmoMmu(pid);
      KeysKept(old(paginas), ps);
      FlagKept(old(paginas), ps, pid, pagina);
      ghost var t, r0 := Views(tlb, ps), tlb;
      VictimLeaves(c, s, h, pid, pagina, t, v.pid, v.pagina);
      RecordFlag(tlb, ps, pid, pagina);
      room := Taken(t, v.pid, v.pagina);
      use := ReemplazarPagina(v, contenido, pid, pagina, write, ps, s.(tables := t));
      f := v.marco;
      StolenIs(c, s, h, pid, pagina, contenido, write, t, v.pid, v.pagina, use, S());
      StolenCached(c, old(tlb), old(paginas), r0, ps, room, old(inserciones), tlb, inserciones, pid, pagina);
    }

    /** Can a page of this process be brought in? When not, the server hangs or aborts. */
    method PuedeCargar(pid: int) returns (b: bool)
      requires Valid() && pid in paginas
      ensures b <==> CanLoad(c, S(), pid)
    {
      if !c.fixed { return true; }
      var f := MarcoLibre();
      var n := PaginasPresentes(pid);
      b := f != NONE || n > 0;
    }

    /** The two ways in of buscar_en_swap and pagina_iniciar: into the free frame f, or
        into one taken from a victim. */
    method Alojar(pid: int, pagina: int, libre: int, contenido: Option<seq<Byte>>, write: bool)
      returns (f: int, ghost room: Room, ghost use: int)
      requires Valid() && HasPag(paginas, pid, pagina) && !paginas[pid][pagina].presente
      requires contenido.Some? ==> |contenido.value| == c.pageSize
      requires if libre == NONE then !MayGrow(c, S(), pid) && CanTake(c, S(), pid)
               else RoomMade(c, S(), HandOf(c, clockPuntero, pClock, pid), pid, Spare(libre))
      modifies ram, `tlb, `paginas, `marcos, `swap, `lruC, `inserciones, `clockPuntero, `pClock
      ensures Coherent(tlb, paginas) && Stamps() && Hands() && paginas.Keys == old(paginas.Keys)
      ensures old(lruC) <= lruC && UseNow(c, use, old(lruC), lruC)
      ensures HandNow(c, old(HandOf(c, clockPuntero, pClock, pid)), HandOf(c, clockPuntero, pClock, pid), Some(room))
      ensures Cached(c, RoomTlb(old(tlb), room), old(inserciones), tlb, inserciones, pid, pagina)
      ensures Brought(c, old(S()), old(HandOf(c, clockPuntero, pClock, pid)), pid, pagina, contenido, write, f, room,
                      use, S())
    {
      hide Inv, Recency, InsertionOrder, Coherent, Views, Cut, StampsOk, HandsOk, CanTake, MayGrow, WithRoom, SetPage,
           RoomMade, Cached, Forgotten;
      ghost var s, h := S(), HandOf(c, clockPuntero, pClock, pid);
      RecordFlag(tlb, paginas, pid, pagina);
      TakeOrNot(c, s, pid);
      f := libre;
      if f != NONE {
        room := Spare(f);
        SpareRoom(s, f);
        SpareInside(c, s, h, pid, f);
        marcos := marcos[f := Frame(pid, pagina)];
        use := Instalar(pid, pagina, f, contenido, write, s);
      } else {
        f, room, use := Robar(pid, pagina, contenido, write);
        TakenRoom(c, s, h, pid, room);
      }
      RoomKeeps(c, s, h, pid, pagina, room);
      SameSize(c, WithRoom(s, room));
    }

    /** buscar_en_swap: the page comes from swap, in the room made for it, unless the
        swap store's answer is that there is none. */
    method BuscarEnSwap(pid: int, pagina: int, write: bool) returns (f: int, ghost v: Visit)
      requires Valid() && HasPag(paginas, pid, pagina) && !paginas[pid][pagina].presente &&
               CanVisit(c, S(), pid, pagina)
      modifies ram, `tlb, `paginas, `marcos, `swap, `lruC, `inserciones, `clockPuntero, `pClock, `accesos
      ensures Valid() && (f == NONE <==> old(Mistaken(S(), pid, pagina))) && f != INVALID_PAGE
      ensures f == NONE ==>
                S() == old(S()) && HandOf(c, clockPuntero, pClock, pid) == old(HandOf(c, clockPuntero, pClock, pid))
      ensures f != NONE ==> v.Fault? && accesos == old(accesos) + [(pid, pagina)] && UseNow(c, v.use, old(lruC), lruC)
      ensures f != NONE ==>
                HandNow(c, old(HandOf(c, clockPuntero, pClock, pid)), HandOf(c, clockPuntero, pClock, pid),
                        Some(v.room))
      ensures f != NONE ==> VisitOk(c, old(S()), old(HandOf(c, clockPuntero, pClock, pid)), pid, pagina, v)
      ensures f != NONE ==>
                S() == AfterVisit(c, old(S()), old(HandOf(c, clockPuntero, pClock, pid)), pid, pagina, write, v)
      ensures if f == NONE then tlb == old(tlb) && inserciones == old(inserciones)
              else CachedBy(c, old(tlb), old(inserciones), tlb, inserciones, pid, pagina, v)
      ensures f != NONE ==> Resident(T(), pid, pagina) && f == T()[pid][pagina].frame && 0 <= f
    {
      hide Inv, Recency, InsertionOrder, Coherent, Views, Cut, StampsOk, Chosen, CanTake, CanLoad, MayGrow, RoomMade,
           WithRoom, SetPage,
           HandsOk, HandNow, Brought, AfterVisit, HandOf, TakesRegister, RoomTlb;
      ghost var s, h := S(), HandOf(c, clockPuntero, pClock, pid);
      RecordFlag(tlb, paginas, pid, pagina);
      SwapHas(c, s, pid, pagina);
      var contenido := swap[(pid, pagina)];
      v := Hit(false, 0);
      if LooksMissing(contenido) { return NONE, v; }
      LoadFacts(c, s, pid, pagina);
      f := HayMarco(pid);
      ghost var room, use;
      f, room, use := Alojar(pid, pagina, f, Some(contenido), write);
      v := Fault(room, use);
      accesos := accesos + [(pid, pagina)];
      BroughtVisit(c, s, h, pid, pagina, write, f, room, use, S());
      VisitInv(c, s, h, pid, pagina, write, v);
      FrameOf(c, S(), pid, pagina);
      if !c.clock { VisitRecency(c, s, h, pid, pagina, write, v, old(accesos), old(lruC), lruC); }
    }

    /** Whether a page can be had, or its fault ends before a frame is looked for. */
    method PuedeVisitar(pid: int, pagina: int) returns (b: bool)
      requires Valid() && pid in paginas && 0 <= pagina
      ensures b <==> CanVisit(c, S(), pid, pagina)
    {
      hide Inv, Recency, InsertionOrder, Coherent, Views, Cut, StampsOk, HandsOk, CanLoad;
      b := PuedeCargar(pid);
      if |paginas[pid]| <= pagina {
        PagesSeen(tlb, paginas, pid, pagina);
        return;
      }
      RecordFlag(tlb, paginas, pid, pagina);
      PresentIsSeen(tlb, paginas, pid, pagina);
      SwapHas(c, S(), pid, pagina);
      b := b || (!paginas[pid][pagina].presente && LooksMissing(swap[(pid, pagina)]));
    }

    /** The first two places where nro_marco looks: the cache, then the page table; -1 if the page
        is in neither. */
    method EnMemoria(pid: int, pagina: int, write: bool) returns (f: int, ghost v: Visit)
      requires Valid() && HasPag(paginas, pid, pagina)
      modifies `tlb, `paginas, `lruC, `algTlb, `inserciones, `accesos
      ensures Valid() && (f == NONE <==> !old(paginas)[pid][pagina].presente) && f != INVALID_PAGE
      ensures f == NONE ==> paginas == old(paginas) && tlb == old(tlb) && inserciones == old(inserciones)
      ensures f == NONE ==> lruC == old(lruC) && algTlb == old(algTlb) && accesos == old(accesos)
      ensures f != NONE ==>
                && v.Hit? && VisitOk(c, old(S()), HandOf(c, clockPuntero, pClock, pid), pid, pagina, v)
                && S() == AfterVisit(c, old(S()), HandOf(c, clockPuntero, pClock, pid), pid, pagina, write, v)
                && accesos == old(accesos) + [(pid, pagina)] && UseNow(c, v.use, old(lruC), lruC)
                && (v.cached <==> old(Find(tlb, pid, pagina)) >= 0)
                && CachedBy(c, old(tlb), old(inserciones), tlb, inserciones, pid, pagina, v)
                && f == old(T())[pid][pagina].frame
    {
      hide Inv, Recency, InsertionOrder, Coherent, Views, Cut, StampsOk, HandsOk, CanLoad, SetPage, SamePlaces,
           AfterVisit, VisitOk, UseNow, Touch, NewDirty, Cached, CachedBy;
      ghost var s, h := S(), HandOf(c, clockPuntero, pClock, pid);
      CacheFacts(tlb, paginas, pid, pagina);
      v := Hit(false, 0);
      var r := BuscarReg(pid, pagina);
      if r != NONE {
        RegView(tlb, paginas, r);
        FrameOf(c, s, pid, pagina);
        f := tlb[r].marco;
        ghost var use := TlbAcierto(r, write);
        CachedByHit(c, old(tlb), inserciones, tlb, pid, pagina, use);
        v := Hit(true, use);
        HitVisit(c, s, h, pid, pagina, write, true, use);
      } else if paginas[pid][pagina].presente {
        RecordView(tlb, paginas, pid, pagina);
        FrameOf(c, s, pid, pagina);
        f := paginas[pid][pagina].marco;
        ghost var use := TablaAcierto(pid, pagina, write);
        CachedByTable(c, old(tlb), old(inserciones), tlb, inserciones, pid, pagina, use);
        v := Hit(false, use);
        HitVisit(c, s, h, pid, pagina, write, false, use);
      } else {
        f := NONE;
      }
    }

    /** nro_marco: the frame of a page, brought in if it was out of memory. */
    method NroMarco(pid: int, pagina: int, write: bool) returns (f: int, ghost v: Visit)
      requires Valid() && pid in paginas && 0 <= pagina
      requires pagina < |paginas[pid]| ==> CanVisit(c, S(), pid, pagina)
      modifies ram, `tlb, `paginas, `marcos, `swap, `lruC, `algTlb, `inserciones, `clockPuntero, `pClock, `accesos
      ensures Valid() && SamePages(old(T()), T())
      ensures f == INVALID_PAGE <==> |old(paginas)[pid]| <= pagina
      ensures f == NONE <==> old(Mistaken(S(), pid, pagina))
      ensures f == INVALID_PAGE || f == NONE ==> S() == old(S())
      ensures f != INVALID_PAGE && f != NONE ==>
                VisitOk(c, old(S()), old(HandOf(c, clockPuntero, pClock, pid)), pid, pagina, v) &&
                S() == AfterVisit(c, old(S()), old(HandOf(c, clockPuntero, pClock, pid)), pid, pagina, write, v) &&
                Resident(T(), pid, pagina) && f == T()[pid][pagina].frame && 0 <= f < c.frameCount &&
                accesos == old(accesos) + [(pid, pagina)] && UseNow(c, v.use, old(lruC), lruC) &&
                (v.Hit? ==> (v.cached <==> old(Find(tlb, pid, pagina)) >= 0))
      ensures if f != INVALID_PAGE && f != NONE
              then CachedBy(c, old(tlb), old(inserciones), tlb, inserciones, pid, pagina, v)
              else tlb == old(tlb) && inserciones == old(inserciones)
      ensures HandNow(c, old(HandOf(c, clockPuntero, pClock, pid)), HandOf(c, clockPuntero, pClock, pid),
                      if f != INVALID_PAGE && f != NONE && v.Fault? then Some(v.room) else Option.None)
      ensures f != INVALID_PAGE && f != NONE ==>
                && HandOf(c, clockPuntero, pClock, pid) ==
                   (if c.clock && v.Fault? && v.room.Taken? then (f + 1) % c.frameCount
                    else old(HandOf(c, clockPuntero, pClock, pid)))
                && (if c.clock then T()[pid][pagina].use == 1 else old(lruC) <= T()[pid][pagina].use < lruC)
    {
      hide Inv, Recency, InsertionOrder, Coherent, Views, Cut, StampsOk, HandsOk, CanLoad, MayGrow, WithRoom, SetPage,
           RoomTlb, SamePlaces,
           AfterVisit, VisitOk, HandNow, UseNow, RoomAt, Touch, NewDirty, Cached, CachedBy;
      v := Hit(false, 0);
      HandStays(c, HandOf(c, clockPuntero, pClock, pid));
      if |paginas[pid]| <= pagina {
        f := INVALID_PAGE;
        PagesSeen(tlb, paginas, pid, pagina);
        return;
      }
      ghost var s, h := S(), HandOf(c, clockPuntero, pClock, pid);
      PresentIsSeen(tlb, paginas, pid, pagina);
      SamePagesChain(s.tables, s.tables, s.tables);
      f, v := EnMemoria(pid, pagina, write);
      if f == NONE {
        f, v := BuscarEnSwap(pid, pagina, write);
        if f == NONE { return; }
      }
      VisitInv(c, s, h, pid, pagina, write, v);
      HitFrame(c, s, h, pid, pagina, write, v);
      HandMeans(c, h, HandOf(c, clockPuntero, pClock, pid), v, f, old(lruC), lruC);
    }

    // ----------------------------------------------- reading and writing bytes

    /** One round of memoria_leer's loop. */
    method LeerEnPagina(pid: int, pagina: int, off: int, n: int) returns (r: Option<seq<Byte>>, ghost v: Visit)
      requires Valid() && HasPag(paginas, pid, pagina) && CanVisit(c, S(), pid, pagina)
      requires 0 <= off && 0 <= n && off + n <= c.pageSize
      modifies ram, `tlb, `paginas, `marcos, `swap, `lruC, `algTlb, `inserciones, `clockPuntero, `pClock, `accesos
      ensures Valid() && SamePages(old(T()), T())
      ensures r.None? <==> old(Mistaken(S(), pid, pagina))
      ensures r.None? ==> S() == old(S())
      ensures r.Some? ==> VisitOk(c, old(S()), old(HandOf(c, clockPuntero, pClock, pid)), pid, pagina, v)
      ensures r.Some? ==>
                S() == AfterVisit(c, old(S()), old(HandOf(c, clockPuntero, pClock, pid)), pid, pagina, false, v)
      ensures r.Some? ==> Resident(T(), pid, pagina) && 0 <= T()[pid][pagina].frame < c.frameCount
      ensures r.Some? ==> r.value == S().ram[T()[pid][pagina].frame][off..off + n]
      ensures old(Intacto()) ==>
                (Intacto() <==> r.None? || old(ReadSafe(c, S(), pid, pagina, Find(tlb, pid, pagina) >= 0) ||
                                               SwapAgrees(c, S(), escrito, pid, pagina)))
    {
      hide Inv, Recency, InsertionOrder, Coherent, Views, Cut, StampsOk, HandsOk, CanLoad, SetPage, AfterVisit,
           VisitOk, WriteBack,
           SwapAgrees, Mistaken;
      ghost var s, h := S(), HandOf(c, clockPuntero, pClock, pid);
      var f;
      f, v := NroMarco(pid, pagina, false);
      if f == NONE { return Option.None, v; }
      var data := LeerRam(f, off, n);
      if WriteBack(c, s, escrito) { VisitExact(c, s, escrito, h, pid, pagina, false, v); }
      VisitCached(c, s, h, pid, pagina, v, old(Find(tlb, pid, pagina)) >= 0);
      r := Some(data);
    }

    /** One round of memoria_escribir's loop. */
    method EscribirEnPagina(pid: int, pagina: int, off: int, data: seq<Byte>) returns (ok: bool, ghost v: Visit)
      requires Valid() && HasPag(paginas, pid, pagina) && CanVisit(c, S(), pid, pagina)
      requires 0 <= off && off + |data| <= c.pageSize
      modifies ram, `tlb, `paginas, `marcos, `swap, `lruC, `algTlb, `inserciones, `clockPuntero, `pClock, `accesos,
               `escrito
      ensures Valid() && SamePages(old(T()), T())
      ensures ok <==> !old(Mistaken(S(), pid, pagina))
      ensures !ok ==> S() == old(S()) && escrito == old(escrito)
      ensures ok ==> VisitOk(c, old(S()), old(HandOf(c, clockPuntero, pClock, pid)), pid, pagina, v)
      ensures ok ==> Resident(T(), pid, pagina) && 0 <= T()[pid][pagina].frame < c.frameCount
      ensures ok ==>
        var s1 := AfterVisit(c, old(S()), old(HandOf(c, clockPuntero, pClock, pid)), pid, pagina, true, v);
        && T() == s1.tables && marcos == s1.frames && swap == s1.swap && |s1.ram| == c.frameCount
        && |s1.ram[T()[pid][pagina].frame]| == c.pageSize
        && S() == Store(s1, T()[pid][pagina].frame, off, data)
      ensures ok ==> escrito == LogAt(old(escrito), pid, pagina, off, data)
      ensures (pid, pagina) in old(swap) && off + |data| <= |old(swap)[(pid, pagina)]|
      ensures ok && old(Intacto()) ==>
                (Intacto() <==>
                 old(WriteSafe(c, S(), pid, pagina)) || old(swap)[(pid, pagina)][off..off + |data|] == data)
    {
      hide Inv, Recency, InsertionOrder, Coherent, Views, Cut, StampsOk, HandsOk, CanLoad, SetPage, AfterVisit,
           VisitOk, WriteBack,
           SwapAgrees, LogAt, Mistaken;
      ghost var s, h, log := S(), HandOf(c, clockPuntero, pClock, pid), escrito;
      CacheFacts(tlb, paginas, pid, pagina);
      SwapHas(c, s, pid, pagina);
      var f;
      f, v := NroMarco(pid, pagina, true);
      if f == NONE { return false, v; }
      ghost var s1 := S();
      FrameSized(c, s1, f);
      Memcpy(f, off, data);
      escrito := LogAt(escrito, pid, pagina, off, data);
      StoreInv(c, s1, pid, pagina, off, data);
      assert S() == Store(s1, f, off, data);
      if WriteBack(c, s, log) { WriteExact(c, s, log, h, pid, pagina, v, off, data); }
      ok := true;
    }

    /** The same, as one round of a request. */
    method RondaDeLectura(ghost j: Job, ghost cached: bool, pid: int, pagina: nat, off: nat, n: nat,
                          ghost hecho: seq<Byte>,
                          ghost ss: seq<State>) returns (r: Option<seq<Byte>>)
      requires Valid() && j.pid == pid && Underway(c, j, false, S(), |hecho|, pagina, off, ss) && |hecho| < j.size
      requires Inv(c, j.s0) && c.pageSize > 0 && Fetching(c, j, cached, escrito, S(), hecho, pagina)
      requires Looked(c, j, escrito, S(), ss)
      requires n == if j.size - |hecho| < c.pageSize - off then j.size - |hecho| else c.pageSize - off
      requires hecho == [] ==> (cached <==> Find(tlb, pid, pagina) >= 0)
      modifies ram, `tlb, `paginas, `marcos, `swap, `lruC, `algTlb, `inserciones, `clockPuntero, `pClock, `accesos
      ensures Valid() && (r.None? <==> old(Mistaken(S(), pid, pagina)))
      ensures r.None? ==> S() == old(S())
      ensures r.Some? ==> |r.value| == n > 0 && Underway(c, j, false, S(), |hecho| + n, pagina + 1, 0, ss + [old(S())])
      ensures r.Some? ==> Fetching(c, j, cached, escrito, S(), hecho + r.value, pagina + 1)
      ensures r.Some? ==> Looked(c, j, escrito, S(), ss + [old(S())])
    {
      hide Inv, Recency, InsertionOrder, Coherent, Views, Cut, StampsOk, HandsOk, CanLoad, AfterVisit, VisitOk,
           WriteBack, LogWithout, SwapAgrees, Mistaken, Underway, Fetching, CanVisit, Looked;
      ghost var s, h, v := S(), HandOf(c, clockPuntero, pClock, pid), Hit(false, 0);
      UnderwayHere(c, j, false, s, |hecho|, pagina, off, ss);
      PagesSeen(tlb, paginas, pid, pagina);
      r, v := LeerEnPagina(pid, pagina, off, n);
      if r.None? { return; }
      FrameSized(c, S(), T()[pid][pagina].frame);
      VisitedBy(c, s, h, pid, pagina, v, 0, []);
      UnderwayStep(c, j, false, s, |hecho|, pagina, off, ss, n, h, v, S());
      FetchingStep(c, j, cached, escrito, s, h, v, hecho, pagina, off, r.value, old(Find(tlb, pid, pagina)) >= 0, S());
      LookedStep(c, j, escrito, s, ss, h, v, S());
    }

    /** memoria_leer: a request of tam bytes at (pagina0, off0), page after page. A
        page read earlier may be evicted by a later fault; the bytes are right
        nevertheless, even where the code as written forgets a modified bit. All written
        bytes stay safe exactly if no page forgets one that its swap copy needs. */
    method MemoriaLeer(pid: int, pagina0: nat, off0: nat, tam: nat)
      returns (r: Outcome, leido: seq<Byte>, ghost ss: seq<State>)
      requires Valid() && pid in paginas && off0 < c.pageSize
      requires tam > 0 ==> CanVisit(c, S(), pid, pagina0)
      requires Accepted(c, |paginas[pid]|, pagina0, off0, tam) ==> Fits(c, |paginas[pid]|, pagina0, off0, tam)
      modifies ram, `tlb, `paginas, `marcos, `swap, `lruC, `algTlb, `inserciones, `clockPuntero, `pClock, `accesos
      ensures Valid() && SamePages(old(T()), T()) && 0 <= AddressOf(pagina0, off0, c.pageSize)
      ensures r.OutOfRange? <==> !Fits(c, |old(paginas)[pid]|, pagina0, off0, tam)
      ensures r.OutOfRange? ==> S() == old(S())
      ensures !r.OutOfRange? ==>
                Journey(c, old(S()), pid, pagina0, PageEnd(AddressOf(pagina0, off0, c.pageSize), tam, c.pageSize),
                        false, ss, S(), r.NotFound?)
      ensures r.Completed? ==> |leido| == tam
      ensures old(Intacto()) ==> Agrees(escrito, pid, AddressOf(pagina0, off0, c.pageSize), leido, c.pageSize)
      ensures old(Intacto()) && ReadsKeep(c) ==> Intacto()
      ensures r.Completed? && old(Intacto()) && 0 < tam <= c.pageSize - off0 ==>
                (Intacto() <==> old(LookSafe(c, S(), escrito, pid, pagina0, Find(tlb, pid, pagina0) >= 0)))
      ensures !r.OutOfRange? && old(Intacto()) ==>
                (Intacto() <==> AllLooked(c, escrito, pid, pagina0, ss + [S()]))
    {
      hide Inv, Recency, InsertionOrder, Coherent, Views, Cut, StampsOk, HandsOk, CanLoad, CanVisit, WriteBack,
           LookSafe, ReadsKeep, Agrees, AddressOf, PageEnd, SamePages, Fits, Accepted, Journey, Underway, Fetching,
           Looked, AllLooked;
      BoundsTest(c, |paginas[pid]|, pagina0, off0);
      PageRoundTrip(pagina0, off0, c.pageSize);
      SamePagesChain(T(), T(), T());
      leido, ss := [], [];
      AgreesNothing(escrito, pid, AddressOf(pagina0, off0, c.pageSize), c.pageSize);
      if !Accepted(c, |paginas[pid]|, pagina0, off0, tam) { return OutOfRange, [], []; }
      ghost var j := Job(pid, |paginas[pid]|, pagina0, off0, AddressOf(pagina0, off0, c.pageSize), tam, S());
      ghost var cached := Find(tlb, pid, pagina0) >= 0;
      PagesSeen(tlb, paginas, pid, 0);
      UnderwayStarts(c, j, false);
      FetchingStarts(c, j, cached, escrito);
      var pagina: nat, off: nat := pagina0, off0;
      while |leido| < tam
        invariant Valid() && |leido| <= tam && Underway(c, j, false, S(), |leido|, pagina, off, ss)
        invariant Fetching(c, j, cached, escrito, S(), leido, pagina) && Looked(c, j, escrito, S(), ss)
        invariant leido == [] ==> pagina == pagina0 && off == off0 && (cached <==> Find(tlb, pid, pagina) >= 0)
        invariant off < c.pageSize
      {
        ghost var s := S();
        var leer := if tam - |leido| < c.pageSize - off then tam - |leido| else c.pageSize - off;
        var piece := RondaDeLectura(j, cached, pid, pagina, off, leer, leido, ss);
        if piece.None? {
          UnderwayCut(c, j, false, S(), |leido|, pagina, off, ss);
          FetchingMeans(c, j, cached, escrito, S(), leido, pagina);
          LookedMeans(c, j, escrito, S(), ss);
          return NotFound, leido, ss;
        }
        leido := leido + piece.value;
        ss := ss + [s];
        off := 0;
        pagina := pagina + 1;
      }
      UnderwayDone(c, j, false, S(), pagina, off, ss);
      FetchingMeans(c, j, cached, escrito, S(), leido, pagina);
      LookedMeans(c, j, escrito, S(), ss);
      r := Completed;
    }

    /** The same for a write. */
    method RondaDeEscritura(ghost j: Job, ghost data: seq<Byte>, ghost log0: Log, pid: int, pagina: nat, off: nat,
                            piece: seq<Byte>,
                            ghost hechos: nat, ghost ss: seq<State>) returns (ok: bool)
      requires Valid() && j.pid == pid && Underway(c, j, true, S(), hechos, pagina, off, ss) &&
               hechos < j.size == |data|
      requires Inv(c, j.s0) && c.pageSize > 0 && Writing(c, j, data, log0, S(), escrito, hechos)
      requires Settled(c, j, data, log0, S(), escrito, ss)
      requires |piece| == if j.size - hechos < c.pageSize - off then j.size - hechos else c.pageSize - off
      requires hechos + |piece| <= |data| && piece == data[hechos..hechos + |piece|]
      modifies ram, `tlb, `paginas, `marcos, `swap, `lruC, `algTlb, `inserciones, `clockPuntero, `pClock, `accesos,
               `escrito
      ensures Valid() && (ok <==> !old(Mistaken(S(), pid, pagina)))
      ensures !ok ==> S() == old(S()) && escrito == old(escrito)
      ensures ok ==> |piece| > 0 && Underway(c, j, true, S(), hechos + |piece|, pagina + 1, 0, ss + [old(S())])
      ensures ok ==> Writing(c, j, data, log0, S(), escrito, hechos + |piece|)
      ensures ok ==> Settled(c, j, data, log0, S(), escrito, ss + [old(S())])
    {
      hide Inv, Recency, InsertionOrder, Coherent, Views, Cut, StampsOk, HandsOk, CanLoad, AfterVisit, VisitOk,
           WriteBack, AllIn, LogAt, WriteSafe, Store, Mistaken, Underway, Writing, CanVisit, Settled;
      ghost var s, h, log, v := S(), HandOf(c, clockPuntero, pClock, pid), escrito, Hit(false, 0);
      UnderwayHere(c, j, true, s, hechos, pagina, off, ss);
      PagesSeen(tlb, paginas, pid, pagina);
      ok, v := EscribirEnPagina(pid, pagina, off, piece);
      if !ok { return; }
      VisitedBy(c, s, h, pid, pagina, v, off, piece);
      UnderwayStep(c, j, true, s, hechos, pagina, off, ss, |piece|, h, v, S());
      WritingRound(c, j, data, log0, s, log, h, v, hechos, pagina, off, piece, S(), escrito);
      SettledRound(c, j, data, log0, s, log, ss, h, v, hechos, pagina, off, piece, S(), escrito);
    }

    /** memoria_escribir. Written bytes stay safe exactly if each page of the request is in
        memory when its turn comes, or keeps its mark, or swap has those bytes already; as
        all pages in memory at the start will be. A faulting write as written is unmarked. */
    method MemoriaEscribir(pid: int, pagina0: nat, off0: nat, contenido: seq<Byte>)
      returns (r: Outcome, escritos: nat, ghost ss: seq<State>)
      requires Valid() && pid in paginas && off0 < c.pageSize
      requires |contenido| > 0 ==> CanVisit(c, S(), pid, pagina0)
      requires Accepted(c, |paginas[pid]|, pagina0, off0, |contenido|) ==>
                 Fits(c, |paginas[pid]|, pagina0, off0, |contenido|)
      modifies ram, `tlb, `paginas, `marcos, `swap, `lruC, `algTlb, `inserciones, `clockPuntero, `pClock, `accesos,
               `escrito
      ensures Valid() && SamePages(old(T()), T()) && 0 <= AddressOf(pagina0, off0, c.pageSize)
      ensures r.OutOfRange? <==> !Fits(c, |old(paginas)[pid]|, pagina0, off0, |contenido|)
      ensures r.OutOfRange? ==> S() == old(S()) && escritos == 0
      ensures !r.OutOfRange? ==>
                Journey(c, old(S()), pid, pagina0,
                        PageEnd(AddressOf(pagina0, off0, c.pageSize), |contenido|, c.pageSize), true,
                        ss, S(), r.NotFound?)
      ensures escritos <= |contenido| && (r.Completed? ==> escritos == |contenido|)
      ensures r.NotFound? ==>
                AddressOf(pagina0, off0, c.pageSize) + escritos ==
                if |ss| == 0 then AddressOf(pagina0, off0, c.pageSize) else (pagina0 + |ss|) * c.pageSize
      ensures escrito == Wrote(old(escrito), pid, AddressOf(pagina0, off0, c.pageSize), contenido[..escritos],
                               c.pageSize)
      ensures old(Intacto()) &&
              (c.repaired || AllIn(old(T()), pid, pagina0,
                                   PageEnd(AddressOf(pagina0, off0, c.pageSize), |contenido|, c.pageSize))) ==>
                Intacto()
      ensures r.Completed? && old(Intacto()) && 0 < |contenido| <= c.pageSize - off0 ==>
                (Intacto() <==> old(StoreSafe(c, S(), pid, pagina0, off0, contenido)))
      ensures !r.OutOfRange? && old(Intacto()) ==>
                (Intacto() <==>
                 var a := AddressOf(pagina0, off0, c.pageSize);
                 AllStored(c, Job(pid, |old(paginas)[pid]|, pagina0, off0, a, |contenido|, old(S())), contenido, ss))
    {
      hide Inv, Recency, InsertionOrder, Coherent, Views, Cut, StampsOk, HandsOk, CanLoad, CanVisit, WriteBack, AllIn,
           StoreSafe, Wrote, AddressOf, PageEnd, SamePages, Fits, Accepted, Journey, Underway, Writing, Settled,
           AllStored;
      BoundsTest(c, |paginas[pid]|, pagina0, off0);
      PageRoundTrip(pagina0, off0, c.pageSize);
      SamePagesChain(T(), T(), T());
      WroteNothing(escrito, pid, AddressOf(pagina0, off0, c.pageSize), c.pageSize);
      assert contenido[..0] == [];
      if !Accepted(c, |paginas[pid]|, pagina0, off0, |contenido|) { return OutOfRange, 0, []; }
      ghost var j := Job(pid, |paginas[pid]|, pagina0, off0, AddressOf(pagina0, off0, c.pageSize), |contenido|, S());
      ghost var log := escrito;
      PagesSeen(tlb, paginas, pid, 0);
      UnderwayStarts(c, j, true);
      WritingStarts(c, j, contenido, log);
      ghost var fin, off;
      r, escritos, ss, fin, off := EscribirPaginas(j, log, pid, pagina0, off0, contenido);
      WritingMeans(c, j, contenido, log, S(), escrito, escritos);
      SettledMeans(c, j, contenido, log, S(), escrito, ss);
      if r == NotFound {
        UnderwayCut(c, j, true, S(), escritos, fin, off, ss);
      } else {
        UnderwayDone(c, j, true, S(), fin, off, ss);
        assert contenido[..escritos] == contenido;
      }
    }

    /** The loop of memoria_escribir. */
    method EscribirPaginas(ghost j: Job, ghost log: Log, pid: int, pagina0: nat, off0: nat, contenido: seq<Byte>)
      returns (r: Outcome, escritos: nat, ghost ss: seq<State>, ghost fin: nat, ghost off: nat)
      requires Valid() && pid == j.pid && off0 < c.pageSize && |contenido| == j.size && Inv(c, j.s0)
      requires Underway(c, j, true, S(), 0, pagina0, off0, []) && Writing(c, j, contenido, log, S(), escrito, 0)
      requires Settled(c, j, contenido, log, S(), escrito, [])
      modifies ram, `tlb, `paginas, `marcos, `swap, `lruC, `algTlb, `inserciones, `clockPuntero, `pClock, `accesos,
               `escrito
      ensures Valid() && Underway(c, j, true, S(), escritos, fin, off, ss) &&
              Writing(c, j, contenido, log, S(), escrito, escritos)
      ensures Settled(c, j, contenido, log, S(), escrito, ss)
      ensures r in {Completed, NotFound} && (r == Completed <==> escritos == |contenido|) && escritos <= |contenido|
      ensures r == NotFound ==> Mistaken(S(), pid, fin)
    {
      hide Inv, Recency, InsertionOrder, Coherent, Views, Cut, StampsOk, HandsOk, CanVisit, WriteBack, Mistaken,
           Underway, Writing, Settled;
      escritos, ss := 0, [];
      var pagina: nat, resto: nat := pagina0, off0;
      while escritos < |contenido|
        invariant Valid() && escritos <= |contenido| && Underway(c, j, true, S(), escritos, pagina, resto, ss)
        invariant Writing(c, j, contenido, log, S(), escrito, escritos) && resto < c.pageSize
        invariant Settled(c, j, contenido, log, S(), escrito, ss)
      {
        ghost var s := S();
        var cabe := if |contenido| - escritos < c.pageSize - resto then |contenido| - escritos else c.pageSize - resto;
        var ok := RondaDeEscritura(j, contenido, log, pid, pagina, resto, contenido[escritos..escritos + cabe],
                                   escritos, ss);
        if !ok { return NotFound, escritos, ss, pagina, resto; }
        escritos := escritos + cabe;
        ss := ss + [s];
        resto := 0;
        pagina := pagina + 1;
      }
      return Completed, escritos, ss, pagina, resto;
    }

    // ---------------------------------------------- processes and their pages

    /** The swap store grants a page that the process does not have; what it holds is arbitrary. */
    method ConcederPagina(pid: int, pagina: int, contenido: seq<Byte>)
      requires Valid() && !HasPag(paginas, pid, pagina) && |contenido| == c.pageSize
      modifies `swap
      ensures Valid() && swap == old(swap)[(pid, pagina) := contenido]
      ensures old(Intacto()) ==> Intacto()
    {
      hide Inv, Recency, InsertionOrder, Coherent, Views, Cut, StampsOk, HandsOk, WriteBack;
      PagesSeen(tlb, paginas, pid, pagina);
      GrantHarmless(c, S(), escrito, pid, pagina, contenido);
      swap := swap[(pid, pagina) := contenido];
    }

    /** new_instance_comportamiento, once the swap store accepted the process. */
    method CrearProceso(pid: int)
      requires Valid() && pid !in paginas && pid != FREE
      modifies `paginas, `lista, `pClock
      ensures Valid() && S() == Started(old(S()), pid)
      ensures lista == old(lista) + [pid] && pClock == old(pClock)[pid := if c.fixed then 0 else NONE]
      ensures old(Intacto()) ==> Intacto()
    {
      hide Inv, InsertionOrder, Coherent, Views, Cut, StampsOk, WriteBack, HandsOk, Recency;
      StartedKeeps(c, S(), pid);
      StartedUses(S(), pid);
      HandsGrow(c, clockPuntero, pClock, lista, paginas.Keys, pid);
      assert paginas[pid := []].Keys == paginas.Keys + {pid};
      NewTable(tlb, paginas, pid);
      if !c.clock { RecencyShrinks(T(), T()[pid := []], accesos, lruC, lruC); }
      paginas := paginas[pid := []];
      lista := lista + [pid];
      pClock := pClock[pid := if c.fixed then 0 else NONE];
    }

    /** crear_pagina */
    method CrearPagina(pid: int)
      requires Valid() && Granted(c, S(), pid)
      modifies `paginas
      ensures Valid() && S() == NewPage(old(S()), pid) && pid in old(paginas)
      ensures paginas == WithNewPag(old(paginas), pid)
    {
      hide Inv, InsertionOrder, Coherent, Views, Cut, StampsOk;
      NewPag(tlb, paginas, pid);
      NewPageInv(c, S(), pid);
      NewPageUses(S(), pid);
      if !c.clock { RecencyShrinks(T(), NewPage(S(), pid).tables, accesos, lruC, lruC); }
      paginas := WithNewPag(paginas, pid);
    }

    /** The new last page, whose record s did not have yet, gets its frame. */
    method AlojarNueva(pid: int, pagina: int, libre: int, ghost s: State) returns (ghost room: Room, ghost use: int)
      requires Valid() && Inv(c, s) && Granted(c, s, pid) && S() == NewPage(s, pid)
      requires !c.clock ==> Recency(s.tables, accesos, lruC)
      requires pagina == |s.tables[pid]| && HasPag(paginas, pid, pagina) && !paginas[pid][pagina].presente
      requires if libre == NONE then !MayGrow(c, S(), pid) && CanTake(c, S(), pid)
               else RoomMade(c, S(), HandOf(c, clockPuntero, pClock, pid), pid, Spare(libre))
      modifies ram, `tlb, `paginas, `marcos, `swap, `lruC, `inserciones, `clockPuntero, `pClock, `accesos
      ensures Valid() && CreateOk(c, s, old(HandOf(c, clockPuntero, pClock, pid)), pid, room)
      ensures S() == Created(c, s, old(HandOf(c, clockPuntero, pClock, pid)), pid, room, use)
      ensures UseNow(c, use, old(lruC), lruC) && accesos == old(accesos) + [(pid, pagina)]
      ensures HandNow(c, old(HandOf(c, clockPuntero, pClock, pid)), HandOf(c, clockPuntero, pClock, pid), Some(room))
      ensures SamePages(NewPage(s, pid).tables, T())
      ensures Cached(c, RoomTlb(old(tlb), room), old(inserciones), tlb, inserciones, pid, pagina)
      ensures WriteBack(c, s, escrito) ==> Intacto()
    {
      hide Inv, Recency, InsertionOrder, Coherent, Views, Cut, StampsOk, HandsOk, CanLoad, MayGrow, WithRoom, SetPage,
           WriteBack, RoomMade,
           SamePages, HandOf, HandNow, Brought, CanTake, Created, CreateOk, NewPage, Cached, RoomTlb;
      ghost var h := HandOf(c, clockPuntero, pClock, pid);
      var f;
      f, room, use := Alojar(pid, pagina, libre, Option.None, false);
      BroughtCreated(c, s, h, pid, f, room, use, S());
      accesos := accesos + [(pid, pagina)];
      CreatedKeeps(c, s, h, pid, room, use);
      if !c.clock { CreatedRecency(c, s, h, pid, room, use, old(accesos), old(lruC), lruC); }
    }

    /** pagina_iniciar: a new last page. Under local replacement, with neither a free
        frame nor one of its own, it stays out of memory and the answer is -1. */
    method PaginaIniciar(pid: int) returns (r: int, ghost room: Room, ghost use: int)
      requires Valid() && Granted(c, S(), pid)
      modifies ram, `tlb, `paginas, `marcos, `swap, `lruC, `inserciones, `clockPuntero, `pClock, `accesos
      ensures Valid() && r in {0, -1} && (r == 0 <==> old(CanLoad(c, S(), pid)))
      ensures r == -1 ==> S() == NewPage(old(S()), pid)
      ensures r == 0 ==> CreateOk(c, old(S()), old(HandOf(c, clockPuntero, pClock, pid)), pid, room)
      ensures r == 0 ==> S() == Created(c, old(S()), old(HandOf(c, clockPuntero, pClock, pid)), pid, room, use)
      ensures r == 0 ==> UseNow(c, use, old(lruC), lruC) && accesos == old(accesos) + [(pid, |old(S()).tables[pid]|)]
      ensures HandNow(c, old(HandOf(c, clockPuntero, pClock, pid)), HandOf(c, clockPuntero, pClock, pid),
                      if r == 0 then Some(room) else Option.None)
      ensures SamePages(NewPage(old(S()), pid).tables, T())
      ensures r == 0 ==> Cached(c, RoomTlb(old(tlb), room), old(inserciones), tlb, inserciones, pid,
                                |old(S()).tables[pid]|)
      ensures old(Intacto()) ==> Intacto()
    {
      hide Inv, Recency, InsertionOrder, Coherent, Views, Cut, StampsOk, HandsOk, CanLoad, MayGrow, WithRoom, SetPage,
           WriteBack, RoomMade, SamePages,
           HandOf, HandNow, CanTake, Created, CreateOk, UseNow, Cached, RoomTlb;
      ghost var s, h := S(), HandOf(c, clockPuntero, pClock, pid);
      NewPageInv(c, s, pid);
      NewPageLogs(c, s, pid);
      SamePagesChain(NewPage(s, pid).tables, NewPage(s, pid).tables, NewPage(s, pid).tables);
      CreateFacts(c, s, pid);
      HandStays(c, h);
      CrearPagina(pid);
      ghost var s1 := S();
      TakeOrNot(c, s1, pid);
      var pagina := |paginas[pid]| - 1;
      r, room, use := 0, Spare(0), 0;
      var f := HayMarco(pid);
      if f == NONE && c.fixed {
        var propias := PaginasPresentes(pid);
        if propias == 0 {
          r := -1;
          return;
        }
      }
      room, use := AlojarNueva(pid, pagina, f, s);
    }

    // -------------------------------------- suspension, flush, pages given back

    /** The page, its record up to date, is saved if modified, its frame freed, its
        register emptied. A saved page keeps its cached flag. */
    method SoltarPagina(pid: int, i: int)
      requires ram.Length == c.frameCount * c.pageSize && Inv(c, S())
      requires Coherent(tlb, paginas) && Stamps() && Fresh(tlb, paginas, pid, i)
      modifies `tlb, `paginas, `marcos, `swap
      ensures Coherent(tlb, paginas) && Stamps() && old(Resident(T(), pid, i))
      ensures 0 <= old(T()[pid][i]).frame < |old(S()).frames| == |old(S()).ram|
      ensures S() == Evict(old(S()), pid, i, old(T()[pid][i]).dirty)
      ensures paginas.Keys == old(paginas.Keys) && pid in paginas && |paginas[pid]| == |old(paginas)[pid]|
    {
      hide Inv, InsertionOrder, Coherent, Views, Cut, StampsOk, SetPage, Forgotten, Fresh, Evict;
      ghost var s := S();
      VictimSeen(c, s, tlb, paginas, pid, i);
      CacheFacts(tlb, paginas, pid, i);
      var p := paginas[pid][i];
      FrameOf(c, s, pid, i);
      EvictIs(s, pid, i, p.modificado);
      StampsForget(c, tlb, algTlb, lruC, inserciones, pid, i);
      ForgottenFinds(tlb, pid, i);
      FallAsleep(tlb, paginas, pid, i, p.(presente := false, tlb := p.tlb && p.modificado));
      if p.modificado { EnviarPaginaASwap(pid, i, p.marco); }
      marcos := marcos[p.marco := marcos[p.marco].(pid := FREE)];
      p := p.(presente := false);
      if p.tlb {
        var v := BuscarReg(pid, i);
        if v != NONE {
          LimpiarRegistro(pid, i);
          p := p.(tlb := false);
        }
      }
      paginas := SetPag(paginas, pid, i, p);
    }

    /** The loop body of SUSPENCION, for a page in memory. */
    method DormirPagina(pid: int, i: int)
      requires Valid() && HasPag(paginas, pid, i) && paginas[pid][i].presente
      modifies `tlb, `paginas, `marcos, `swap
      ensures Valid() && old(Resident(T(), pid, i))
      ensures 0 <= old(T()[pid][i]).frame < |old(S()).frames| == |old(S()).ram|
      ensures S() == Evict(old(S()), pid, i, old(T()[pid][i]).dirty)
      ensures paginas.Keys == old(paginas.Keys) && |paginas[pid]| == |old(paginas)[pid]|
    {
      hide Inv, Recency, InsertionOrder, Coherent, Views, Cut, StampsOk, HandsOk, SetPage, SameFlags, Fresh, Evict;
      ghost var s := S();
      var _ := Mirar(pid, i);
      FlagKept(old(paginas), paginas, pid, i);
      KeysKept(old(paginas), paginas);
      VictimSeen(c, s, tlb, paginas, pid, i);
      EvictInv(c, s, pid, i, s.tables[pid][i].dirty);
      SoltarPagina(pid, i);
      if !c.clock { EvictUses(s, pid, i, s.tables[pid][i].dirty); RecencyShrinks(s.tables, T(), accesos, lruC, lruC); }
    }

    /** SUSPENCION: every page of the process leaves memory. As written it stops dead
        at a page that is not in memory. */
    method Suspender(pid: int) returns (ok: bool)
      requires Valid() && pid in paginas
      modifies `tlb, `paginas, `marcos, `swap
      ensures Valid() && (ok <==> c.repaired || old(AllIn(T(), pid, 0, |paginas[pid]|)))
      ensures ok ==> PresentOf(T()[pid]) == {} && pid in old(S()).tables
      ensures ok ==>
                forall i :: Resident(old(S()).tables, pid, i) ==> 0 <= old(S()).tables[pid][i].frame < |old(S()).ram|
      ensures ok ==> S() == Suspended(old(S()), pid, |old(S()).tables[pid]|)
      ensures old(Intacto()) ==> Intacto()
    {
      hide Inv, Recency, InsertionOrder, Coherent, Views, Cut, StampsOk, HandsOk, SetPage, Suspended, WriteBack, Evict;
      ghost var s, n := S(), |paginas[pid]|;
      PagesSeen(tlb, paginas, pid, 0);
      FramesInRam(c, s, pid);
      SuspendedNone(c, s, pid);
      var i := 0;
      while i < |paginas[pid]|
        invariant Valid() && pid in paginas && |paginas[pid]| == n && 0 <= i <= n
        invariant S() == Suspended(s, pid, i)
        invariant WriteBack(c, s, escrito) ==> WriteBack(c, S(), escrito)
        invariant !c.repaired ==> AllIn(s.tables, pid, 0, i)
      {
        SuspendOne(c, s, pid, i);
        SuspendStep(c, s, pid, i);
        PresentIsSeen(tlb, paginas, pid, i);
        if paginas[pid][i].presente {
          DormirPagina(pid, i);
        } else if !c.repaired {
          assert !Resident(s.tables, pid, i) && i < old(|paginas[pid]|);
          return false;
        }
        i := i + 1;
      }
      SuspendedAll(s, pid);
      return true;
    }

    /** limpiar_TLB: every register is written back to its record and emptied. */
    method LimpiarTlb()
      requires Valid()
      modifies `tlb, `paginas
      ensures Valid() && S() == old(S())
      ensures forall v :: 0 <= v < |tlb| ==> tlb[v].pid == FREE
    {
      hide Inv, Recency, InsertionOrder, Coherent, Views, Cut, StampsOk, HandsOk;
      var i := 0;
      while i < |tlb|
        invariant 0 <= i <= |tlb|
        invariant Coherent(tlb, paginas) && Stamps() && T() == old(T()) && paginas.Keys == old(paginas.Keys)
        invariant forall w :: 0 <= w < i ==> tlb[w].pid == FREE
      {
        var r := tlb[i];
        var vacio := Reg(FREE, NONE, NONE, false, algTlb, r.alg);
        StampsEmpty(c, tlb, algTlb, lruC, inserciones, i, vacio);
        if r.pid != FREE {
          WriteBackReg(tlb, paginas, i, vacio);
          RegRecord(tlb, paginas, i);
          paginas := SetPag(paginas, r.pid, r.pagina,
                            paginas[r.pid][r.pagina].(algoritmo := r.alg, modificado := r.modificado, tlb := false));
        } else {
          EmptyReg(tlb, paginas, i, vacio);
        }
        tlb := tlb[i := vacio];
        i := i + 1;
      }
    }

    /** list_remove and pagina_liberar on the last page. */
    method QuitarUltima(pid: int) returns (ok: bool)
      requires ram.Length == c.frameCount * c.pageSize && Inv(c, S())
      requires Coherent(tlb, paginas) && Stamps() && pid in paginas && |paginas[pid]| > 0
      modifies `tlb, `paginas, `marcos
      ensures ok <==> c.repaired || old(Find(tlb, pid, |paginas[pid]| - 1)) < 0
      ensures |old(S()).tables[pid]| == |old(paginas)[pid]|
      ensures var p := old(S()).tables[pid][|old(paginas)[pid]| - 1]; p.In? ==> 0 <= p.frame < |old(S()).frames|
      ensures ok ==>
                Coherent(tlb, paginas) && Stamps() && paginas.Keys == old(paginas.Keys) &&
                    S() == DropLast(old(S()), pid)
    {
      hide Inv, InsertionOrder, Coherent, Views, Cut, StampsOk, Forgotten, DropLast;
      ghost var s := S();
      var n := |paginas[pid]| - 1;
      var p := paginas[pid][n];
      CacheFacts(tlb, paginas, pid, n);
      LastFrame(c, s, tlb, paginas, pid);
      DropLastIs(s, pid);
      LastPagGoes(tlb, paginas, pid);
      StampsForget(c, tlb, algTlb, lruC, inserciones, pid, n);
      ForgottenFinds(tlb, pid, n);
      if p.presente { marcos := marcos[p.marco := marcos[p.marco].(pid := FREE)]; }
      paginas := paginas[pid := paginas[pid][..n]];
      var v := BuscarReg(pid, n);
      if v != NONE {
        if !c.repaired { return false; }
        LimpiarRegistro(pid, n);
      }
      return true;
    }

    /** The page release of memfree: the process's last page is given back unsaved.
        As written it reads that page's record again after removing it, if cached. */
    method LiberarUltima(pid: int) returns (ok: bool)
      requires Valid() && pid in paginas && |paginas[pid]| > 0
      modifies `tlb, `paginas, `marcos, `escrito
      ensures ok <==> c.repaired || old(Find(tlb, pid, |paginas[pid]| - 1)) < 0
      ensures ok ==> Valid() && |old(S()).tables[pid]| == |old(paginas)[pid]|
      ensures ok ==> var p := old(S()).tables[pid][|old(paginas)[pid]| - 1]; p.In? ==> 0 <= p.frame < |old(S()).frames|
      ensures ok ==> S() == DropLast(old(S()), pid) && escrito == LogBelow(old(escrito), pid, |old(paginas)[pid]| - 1)
      ensures ok && old(Intacto()) ==> Intacto()
    {
      hide Inv, Recency, InsertionOrder, Coherent, Views, Cut, StampsOk, HandsOk, Forgotten, WriteBack, LogBelow,
           DropLast;
      ghost var s, log := S(), escrito;
      var n := |paginas[pid]| - 1;
      ok := QuitarUltima(pid);
      if !ok { return; }
      DropLastInv(c, s, pid);
      if WriteBack(c, s, log) { DropLastKeeps(c, s, log, pid); }
      escrito := LogBelow(escrito, pid, n);
      if !c.clock { DropUses(s, pid); RecencyShrinks(s.tables, T(), accesos, lruC, lruC); }
    }

    method TlbEliminarProceso(pid: int)
      modifies `tlb
      ensures tlb == WithoutProcess(old(tlb), pid)
    {
      var i := 0;
      while i < |tlb|
        invariant 0 <= i <= |tlb| == |old(tlb)|
        invariant forall w :: 0 <= w < |tlb| ==>
                    tlb[w] == if w < i && old(tlb)[w].pid == pid then old(tlb)[w].(pid := FREE) else old(tlb)[w]
      {
        if tlb[i].pid == pid { tlb := tlb[i := tlb[i].(pid := FREE)]; }
        i := i + 1;
      }
    }

    /** The frame part of eliminar_proceso_i. */
    method EntregarMarcos(pid: int)
      requires |marcos| == c.frameCount && ram.Length == c.frameCount * c.pageSize
      modifies `marcos
      ensures marcos == Removed(c, old(S()), pid).frames
    {
      ghost var frames, goal := marcos, Removed(c, S(), pid).frames;
      var f := 0;
      while f < |marcos|
        invariant 0 <= f <= |marcos| == |frames|
        invariant forall g :: 0 <= g < |marcos| ==> marcos[g] == if g < f then goal[g] else frames[g]
      {
        if marcos[f].pid == pid { marcos := marcos[f := marcos[f].(pid := if c.repaired then FREE else 0)]; }
        f := f + 1;
      }
    }

    /** clock_puntero_actualizar, then the removal from the list of tables: under the
        clock the next process's hand, in the list's circular order, goes back to 0. */
    method SacarDeLista(pid: int) returns (k: int)
      requires Hands() && pid in paginas
      modifies `lista, `pClock
      ensures HandsOk(c, clockPuntero, pClock, lista, paginas.Keys - {pid})
      ensures 0 <= k < |old(lista)| && old(lista)[k] == pid && pid in old(pClock)
      ensures lista == old(lista)[..k] + old(lista)[k + 1..]
      ensures pClock == (if c.clock && old(pClock)[pid] != NONE
                         then old(pClock)[old(lista)[if k + 1 == |old(lista)| then 0 else k + 1] := 0]
                         else old(pClock)) - {pid}
    {
      hide HandsOk;
      HandsFacts(c, clockPuntero, pClock, lista, paginas.Keys, pid);
      HandsShrink(c, clockPuntero, pClock, lista, paginas.Keys, pid);
      k := 0;
      while lista[k] != pid
        invariant 0 <= k < |lista| && pid in lista[k..]
        decreases |lista| - k
      {
        k := k + 1;
      }
      if c.clock && pClock[pid] != NONE {
        var siguiente := if k == |lista| - 1 then 0 else k + 1;
        pClock := pClock[lista[siguiente] := 0];
      }
      lista := lista[..k] + lista[k + 1..];
      pClock := pClock - {pid};
    }

    /** tablas_eliminar_proceso and tlb_eliminar_proceso, the swap store told as well. */
    method QuitarProceso(pid: int)
      requires ram.Length == c.frameCount * c.pageSize && Inv(c, S()) && Coherent(tlb, paginas) && Stamps() &&
               pid in paginas
      modifies `tlb, `paginas, `marcos, `swap
      ensures Coherent(tlb, paginas) && Stamps() && paginas == old(paginas) - {pid} && S() == Removed(c, old(S()), pid)
    {
      hide Inv, InsertionOrder, Coherent, Views, Cut, StampsOk, Removed;
      ghost var s := S();
      RemovedIs(c, s, pid);
      SameSize(c, s);
      TableGoes(tlb, paginas, pid);
      StampsWithout(c, tlb, algTlb, lruC, inserciones, pid);
      EntregarMarcos(pid);
      paginas := paginas - {pid};
      TlbEliminarProceso(pid);
      swap := map q | q in swap && q.0 != pid :: swap[q];
    }

    /** cliente_terminar: the process's table, frames and registers go; the next
        process's clock hand starts over. As written its frames go to process 0. */
    method EliminarProceso(pid: int)
      requires Valid() && pid in paginas
      modifies `tlb, `paginas, `marcos, `swap, `lista, `pClock, `escrito
      ensures S() == Removed(c, old(S()), pid) && escrito == LogOfOthers(old(escrito), pid)
      ensures Valid() <==> c.repaired || old(PresentOf(T()[pid])) == {}
      ensures old(Intacto()) && Valid() ==> Intacto()
    {
      hide Inv, Recency, InsertionOrder, Coherent, Views, Cut, StampsOk, HandsOk, WriteBack, LogOfOthers, PresentOf,
           Removed;
      ghost var s := S();
      RemovedExact(c, s, pid);
      RemovedUses(c, s, pid);
      if !c.clock { RecencyShrinks(s.tables, Removed(c, s, pid).tables, accesos, lruC, lruC); }
      var _ := SacarDeLista(pid);
      assert paginas.Keys - {pid} == (paginas - {pid}).Keys;
      QuitarProceso(pid);
      escrito := LogOfOthers(escrito, pid);
    }
  }
}
