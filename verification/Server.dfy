/** Whole runs of the memory server: any sequence of requests, over any number of
    processes, is answered as a flat map of bytes per process would answer it. */
module Server {
  import opened Base
  import opened Vm
  import opened Access
  import opened Linear
  import opened Lifecycle
  import opened Paging

  /** The requests of ejecutar_proceso, page by page where memory grows or shrinks. */
  datatype Op =
    | Start(pid: int)
    | Grow(pid: int, granted: seq<Byte>)
    | Read(pid: int, dir: nat, n: nat)
    | Write(pid: int, dir: nat, data: seq<Byte>)
    | Suspend(pid: int)
    | Flush
    | Shrink(pid: int)
    | Exit(pid: int)

  /** `Stuck`: the server found no frame it may use, and would hang or abort. `Aborted`: it
      aborted at a page the swap store did not hand back. Either ends a real server; runs
      are followed beyond, as every part of a run is a run. */
  datatype Answer = Done | Bytes(data: seq<Byte>) | Refused | Stuck | Aborted

  /** The reference: how many pages each process has, and the bytes ever written. */
  datatype Flat = Flat(pages: map<int, nat>, bytes: Log)

  /** Memory before and after a request, and in between before each page it visits. */
  datatype Trace = Trace(before: State, visits: seq<State>, after: State)

  predicate InBounds(c: Config, f: Flat, pid: int, dir: nat, n: nat) {
    pid in f.pages && dir + n <= f.pages[pid] * c.pageSize
  }

  /** A request of n bytes is stuck: exactly if its first page's copy would be handed
      back but no frame can be had for it. */
  ghost predicate NoFrame(c: Config, s: State, pid: int, dir: nat, n: nat)
    requires c.Ok()
  {
    n > 0 && !CanVisit(c, s, pid, PageOf(dir, c.pageSize))
  }

  /** A request in bounds, and not stuck, goes from page to page until the end, or to the
      first page that is out of memory with a copy that is mistaken for missing. */
  ghost predicate Passes(c: Config, log: Log, pid: int, dir: nat, n: nat, write: bool, tr: Trace, aborted: bool)
    requires c.Ok()
  {
    var first := PageOf(dir, c.pageSize);
    && Journey(c, tr.before, pid, first, PageEnd(dir, n, c.pageSize), write, tr.visits, tr.after, aborted)
    && (aborted ==> MaySpellMissing(log, pid, first + |tr.visits|))
  }

  /** How many bytes of an aborted write were stored: those of the pages before. */
  function Stored(c: Config, dir: nat, pages: nat): int
    requires c.Ok()
  {
    if pages == 0 then 0 else (PageOf(dir, c.pageSize) + pages) * c.pageSize - dir
  }

  /** One request answered by the reference. */
  ghost predicate Step(c: Config, f: Flat, op: Op, a: Answer, f': Flat, tr: Trace)
    requires c.Ok()
  {
    match op
    case Start(pid) =>
      if pid in f.pages || pid == FREE then a == Refused && f' == f
      else a == Done && f' == f.(pages := f.pages[pid := 0])
    case Grow(pid, granted) =>
      if pid !in f.pages || |granted| != c.pageSize then a == Refused && f' == f
      else a == Done && f' == f.(pages := f.pages[pid := f.pages[pid] + 1])
    case Read(pid, dir, n) =>
      && f' == f
      && if !InBounds(c, f, pid, dir, n) then a == Refused
         else if NoFrame(c, tr.before, pid, dir, n) then a == Stuck
         else
           && Passes(c, f.bytes, pid, dir, n, false, tr, a == Aborted)
           && (a == Aborted || (a.Bytes? && |a.data| == n && Agrees(f.bytes, pid, dir, a.data, c.pageSize)))
    case Write(pid, dir, data) =>
      if !InBounds(c, f, pid, dir, |data|) then a == Refused && f' == f
      else if NoFrame(c, tr.before, pid, dir, |data|) then a == Stuck && f' == f
      else
        && Passes(c, f'.bytes, pid, dir, |data|, true, tr, a == Aborted)
        && (a == Aborted || a == Done)
        && var n := if a == Done then |data| else Stored(c, dir, |tr.visits|);
           0 <= n <= |data| && f' == f.(bytes := Wrote(f.bytes, pid, dir, data[..n], c.pageSize))
    case Suspend(pid) =>
      && f' == f && a == (if pid in f.pages then Done else Refused)
      && (pid in f.pages ==> pid in tr.after.tables && PresentOf(tr.after.tables[pid]) == {})
    case Flush => f' == f && a == Done
    case Shrink(pid) =>
      if pid !in f.pages || f.pages[pid] == 0 then a == Refused && f' == f
      else a == Done && f' == Flat(f.pages[pid := f.pages[pid] - 1], LogBelow(f.bytes, pid, f.pages[pid] - 1))
    case Exit(pid) =>
      if pid !in f.pages then a == Refused && f' == f
      else a == Done && f' == Flat(f.pages - {pid}, LogOfOthers(f.bytes, pid))
  }

  function Sizes(paginas: map<int, seq<Page>>): map<int, nat> {
    map pid | pid in paginas :: |paginas[pid]|
  }

  lemma {:induction false} SizesSame(t: Tables, t': Tables)
    requires SamePages(t, t')
    ensures Sizes(t') == Sizes(t)
  {
    assert forall pid :: pid in Sizes(t') ==> Sizes(t')[pid] == Sizes(t)[pid];
  }

  lemma {:induction false} SizesStarted(t: Tables, pid: int)
    ensures Sizes(t[pid := []]) == Sizes(t)[pid := 0]
  {
    var a, b := Sizes(t[pid := []]), Sizes(t)[pid := 0];
    assert forall q :: q in a ==> a[q] == b[q];
  }

  lemma {:induction false} SizesGrown(s: State, pid: int)
    requires pid in s.tables
    ensures Sizes(NewPage(s, pid).tables) == Sizes(s.tables)[pid := Sizes(s.tables)[pid] + 1]
  {
    var a, b := Sizes(NewPage(s, pid).tables), Sizes(s.tables)[pid := Sizes(s.tables)[pid] + 1];
    assert forall q :: q in a ==> a[q] == b[q];
  }

  /** What the reference sees of the server. */
  ghost function Seen(m: Memoria): Flat
    reads m
  {
    Flat(Sizes(m.T()), m.escrito)
  }

  ghost predicate Good(m: Memoria)
    reads m, m.ram
  {
    m.c.repaired && m.Valid() && m.Intacto()
  }

  method HandleStart(m: Memoria, pid: int) returns (a: Answer)
    requires Good(m)
    modifies m
    ensures Good(m) && m.c.Ok() && Step(m.c, old(Seen(m)), Start(pid), a, Seen(m), Trace(old(m.S()), [], m.S()))
  {
    hide Inv, WriteBack, Translation.Coherent, Replacement.Recency, StampsOk, HandsOk;
    assert m.c.Ok() by { OkOf(m.c, m.S()); }
    if pid in m.paginas || pid == FREE { return Refused; }
    ghost var t := m.T();
    m.CrearProceso(pid);
    SizesStarted(t, pid);
    return Done;
  }

  method HandleGrow(m: Memoria, pid: int, granted: seq<Byte>) returns (a: Answer)
    requires Good(m)
    modifies m, m.ram
    ensures Good(m) && m.c.Ok() && Step(m.c, old(Seen(m)), Grow(pid, granted), a, Seen(m), Trace(old(m.S()), [], m.S()))
  {
    hide Inv, WriteBack, Translation.Coherent, Replacement.Recency, StampsOk, HandsOk, SamePages, Created, Granted,
         CreateOk, CanLoad, NewPage, UseNow, HandNow, HandOf;
    assert m.c.Ok() by { OkOf(m.c, m.S()); }
    if pid !in m.paginas || |granted| != m.c.pageSize { return Refused; }
    ghost var t := m.T();
    m.ConcederPagina(pid, |m.paginas[pid]|, granted);
    GrantedNow(m.c, m.S(), pid);
    ghost var s := m.S();
    var r, room, use := m.PaginaIniciar(pid);
    SizesSame(NewPage(s, pid).tables, m.T());
    SizesGrown(s, pid);
    assert s.tables == t;
    return Done;
  }

  lemma {:induction false} OkOf(c: Config, s: State)
    requires Inv(c, s)
    ensures c.Ok()
  {
  }

  lemma {:induction false} GrantedNow(c: Config, s: State, pid: int)
    requires pid in s.tables && (pid, |s.tables[pid]|) in s.swap && |s.swap[(pid, |s.tables[pid]|)]| == c.pageSize
    ensures Granted(c, s, pid)
  {
  }

  lemma {:induction false} FitsIsInBounds(c: Config, f: Flat, pid: int, dir: nat, n: nat)
    requires c.Ok() && pid in f.pages && c.repaired
    ensures Fits(c, f.pages[pid], PageOf(dir, c.pageSize), OffsetOf(dir, c.pageSize), n) <==>
              InBounds(c, f, pid, dir, n)
    ensures Accepted(c, f.pages[pid], PageOf(dir, c.pageSize), OffsetOf(dir, c.pageSize), n) <==>
              InBounds(c, f, pid, dir, n)
    ensures AddressOf(PageOf(dir, c.pageSize), OffsetOf(dir, c.pageSize), c.pageSize) == dir
    ensures OffsetOf(dir, c.pageSize) < c.pageSize
  {
    AddressRoundTrip(dir, c.pageSize);
  }

  /** memread_comportamiento */
  method HandleRead(m: Memoria, pid: int, dir: nat, n: nat) returns (a: Answer, ghost visits: seq<State>)
    requires Good(m)
    modifies m, m.ram
    ensures Good(m) && m.c.Ok()
    ensures Step(m.c, old(Seen(m)), Read(pid, dir, n), a, Seen(m), Trace(old(m.S()), visits, m.S()))
    ensures a == Stuck <==> InBounds(m.c, old(Seen(m)), pid, dir, n) && NoFrame(m.c, old(m.S()), pid, dir, n)
  {
    hide Inv, WriteBack, Translation.Coherent, Replacement.Recency, StampsOk, HandsOk, SamePages, Fits, Accepted,
         InBounds, Agrees,
         CanVisit, Journey, MaySpellMissing, AddressOf, PageEnd, Passes;
    assert m.c.Ok() by { OkOf(m.c, m.S()); }
    visits := [];
    if pid !in m.paginas {
      OutOfBounds(m.c, Seen(m), pid, dir, n);
      return Refused, [];
    }
    FitsIsInBounds(m.c, Seen(m), pid, dir, n);
    ghost var s, t := m.S(), m.T();
    var r, leido := OutOfRange, [];
    if Accepted(m.c, |m.paginas[pid]|, PageOf(dir, m.c.pageSize), OffsetOf(dir, m.c.pageSize), n) {
      var puede := m.PuedeVisitar(pid, PageOf(dir, m.c.pageSize));
      if n > 0 && !puede { return Stuck, []; }
      r, leido, visits := m.MemoriaLeer(pid, PageOf(dir, m.c.pageSize), OffsetOf(dir, m.c.pageSize), n);
      SizesSame(t, m.T());
    }
    match r
    case OutOfRange => return Refused, visits;
    case NotFound =>
      PassesIs(m.c, s, m.S(), m.escrito, pid, dir, n, false, visits, true);
      return Aborted, visits;
    case Completed =>
      PassesIs(m.c, s, m.S(), m.escrito, pid, dir, n, false, visits, false);
      return Bytes(leido), visits;
  }

  /** The page that ended a request begins with the text for none, as far as it was written. */
  lemma {:induction false} PassesIs(c: Config, s0: State, s: State, log: Log, pid: int, dir: nat, n: nat, write: bool,
                                    visits: seq<State>, aborted: bool)
    requires c.Ok() && Inv(c, s) && WriteBack(c, s, log)
    requires Journey(c, s0, pid, PageOf(dir, c.pageSize), PageEnd(dir, n, c.pageSize), write, visits, s, aborted)
    ensures Passes(c, log, pid, dir, n, write, Trace(s0, visits, s), aborted)
  {
    if aborted { MistakenExact(c, s, log, pid, PageOf(dir, c.pageSize) + |visits|); }
  }

  lemma {:induction false} OutOfBounds(c: Config, f: Flat, pid: int, dir: nat, n: nat)
    requires pid !in f.pages
    ensures !InBounds(c, f, pid, dir, n)
  {
  }

  /** memwrite_comportamiento */
  method HandleWrite(m: Memoria, pid: int, dir: nat, data: seq<Byte>) returns (a: Answer, ghost visits: seq<State>)
    requires Good(m)
    modifies m, m.ram
    ensures Good(m) && m.c.Ok()
    ensures Step(m.c, old(Seen(m)), Write(pid, dir, data), a, Seen(m), Trace(old(m.S()), visits, m.S()))
    ensures a == Stuck <==> InBounds(m.c, old(Seen(m)), pid, dir, |data|) && NoFrame(m.c, old(m.S()), pid, dir, |data|)
  {
    hide Inv, WriteBack, Translation.Coherent, Replacement.Recency, StampsOk, HandsOk, SamePages, Fits, Accepted,
         InBounds, Wrote,
         CanVisit, Journey, MaySpellMissing, AddressOf, PageEnd, Passes, Step, NoFrame;
    assert m.c.Ok() by { OkOf(m.c, m.S()); }
    visits := [];
    ghost var f, s, t := Seen(m), m.S(), m.T();
    if pid !in m.paginas {
      OutOfBounds(m.c, f, pid, dir, |data|);
      WriteRefused(m.c, f, pid, dir, data, Trace(s, [], s));
      return Refused, [];
    }
    FitsIsInBounds(m.c, f, pid, dir, |data|);
    WriteRefused(m.c, f, pid, dir, data, Trace(s, [], s));
    if !Accepted(m.c, |m.paginas[pid]|, PageOf(dir, m.c.pageSize), OffsetOf(dir, m.c.pageSize), |data|) {
      return Refused, [];
    }
    var puede := m.PuedeVisitar(pid, PageOf(dir, m.c.pageSize));
    NoFrameIs(m.c, s, pid, dir, |data|);
    if |data| > 0 && !puede { return Stuck, []; }
    var r, n;
    r, n, visits := m.MemoriaEscribir(pid, PageOf(dir, m.c.pageSize), OffsetOf(dir, m.c.pageSize), data);
    SizesSame(t, m.T());
    PassesIs(m.c, s, m.S(), m.escrito, pid, dir, |data|, true, visits, r == NotFound);
    a := if r == NotFound then Aborted else Done;
    WriteStep(m.c, f, pid, dir, data, a, Seen(m), Trace(s, visits, m.S()), n);
  }

  lemma {:induction false} NoFrameIs(c: Config, s: State, pid: int, dir: nat, n: nat)
    requires c.Ok()
    ensures NoFrame(c, s, pid, dir, n) <==> n > 0 && !CanVisit(c, s, pid, PageOf(dir, c.pageSize))
  {
  }

  /** When a request is stuck: under local replacement, if the process has no page in memory and no
      frame is free, unless the page asked for is one whose copy is taken for missing. */
  lemma {:induction false} StuckMeans(c: Config, s: State, pid: int, dir: nat, n: nat)
    requires Inv(c, s) && pid in s.tables
    ensures c.Ok() && (NoFrame(c, s, pid, dir, n) <==>
              && n > 0 && c.fixed
              && (forall i :: 0 <= i < |s.tables[pid]| ==> s.tables[pid][i].Out?)
              && (forall f :: 0 <= f < |s.frames| ==> s.frames[f].pid != FREE)
              && var p := PageOf(dir, c.pageSize);
                 p < |s.tables[pid]| && (pid, p) in s.swap ==> !LooksMissing(s.swap[(pid, p)]))
  {
    OkOf(c, s);
    var p := PageOf(dir, c.pageSize);
    if p < |s.tables[pid]| { SwapHas(c, s, pid, p); }
    FreeSome(s.frames);
    assert PresentOf(s.tables[pid]) == {} <==> forall i :: 0 <= i < |s.tables[pid]| ==> s.tables[pid][i].Out? by {
      PresentNone(s.tables[pid]);
    }
  }

  lemma {:induction false} PresentNone(pages: seq<Page>)
    ensures PresentOf(pages) == {} <==> forall i :: 0 <= i < |pages| ==> pages[i].Out?
  {
    if i :| 0 <= i < |pages| && pages[i].In? { assert i in PresentOf(pages); }
  }

  lemma {:induction false} WriteRefused(c: Config, f: Flat, pid: int, dir: nat, data: seq<Byte>, tr: Trace)
    requires c.Ok()
    ensures !InBounds(c, f, pid, dir, |data|) ==> Step(c, f, Write(pid, dir, data), Refused, f, tr)
    ensures InBounds(c, f, pid, dir, |data|) && NoFrame(c, tr.before, pid, dir, |data|) ==>
              Step(c, f, Write(pid, dir, data), Stuck, f, tr)
  {
  }

  lemma {:induction false} WriteStep(c: Config, f: Flat, pid: int, dir: nat, data: seq<Byte>, a: Answer, f': Flat,
                                     tr: Trace, n: nat)
    requires c.Ok() && InBounds(c, f, pid, dir, |data|) && !NoFrame(c, tr.before, pid, dir, |data|) &&
             (a == Aborted || a == Done)
    requires Passes(c, f'.bytes, pid, dir, |data|, true, tr, a == Aborted) && n <= |data|
    requires if a == Done then n == |data|
             else dir + n == if |tr.visits| == 0 then dir else (PageOf(dir, c.pageSize) + |tr.visits|) * c.pageSize
    requires f' == f.(bytes := Wrote(f.bytes, pid, dir, data[..n], c.pageSize))
    ensures Step(c, f, Write(pid, dir, data), a, f', tr)
  {
  }

  /** SUSPENCION */
  method HandleSuspend(m: Memoria, pid: int) returns (a: Answer)
    requires Good(m)
    modifies m
    ensures Good(m) && m.c.Ok() && Step(m.c, old(Seen(m)), Suspend(pid), a, Seen(m), Trace(old(m.S()), [], m.S()))
  {
    hide Inv, WriteBack, Translation.Coherent, Replacement.Recency, StampsOk, HandsOk, AllIn;
    assert m.c.Ok() by { OkOf(m.c, m.S()); }
    if pid !in m.paginas { return Refused; }
    ghost var s := m.S();
    var ok := m.Suspender(pid);
    SizesSame(s.tables, m.T());
    return Done;
  }

  /** limpiar_TLB */
  method HandleFlush(m: Memoria) returns (a: Answer)
    requires Good(m)
    modifies m
    ensures Good(m) && m.c.Ok() && Step(m.c, old(Seen(m)), Flush, a, Seen(m), Trace(old(m.S()), [], m.S()))
  {
    assert m.c.Ok() by { OkOf(m.c, m.S()); }
    m.LimpiarTlb();
    return Done;
  }

  /** The release of a tail page by memfree. */
  method HandleShrink(m: Memoria, pid: int) returns (a: Answer)
    requires Good(m)
    modifies m
    ensures Good(m) && m.c.Ok() && Step(m.c, old(Seen(m)), Shrink(pid), a, Seen(m), Trace(old(m.S()), [], m.S()))
  {
    hide Inv, WriteBack, Translation.Coherent, Replacement.Recency, StampsOk, HandsOk, LogBelow;
    assert m.c.Ok() by { OkOf(m.c, m.S()); }
    if pid !in m.paginas || |m.paginas[pid]| == 0 { return Refused; }
    ghost var t := m.T();
    var ok := m.LiberarUltima(pid);
    assert Sizes(m.T()) == Sizes(t)[pid := Sizes(t)[pid] - 1];
    return Done;
  }

  /** mate_close_comportamiento */
  method HandleExit(m: Memoria, pid: int) returns (a: Answer)
    requires Good(m)
    modifies m
    ensures Good(m) && m.c.Ok() && Step(m.c, old(Seen(m)), Exit(pid), a, Seen(m), Trace(old(m.S()), [], m.S()))
  {
    hide Inv, WriteBack, Translation.Coherent, Replacement.Recency, StampsOk, HandsOk, LogOfOthers;
    assert m.c.Ok() by { OkOf(m.c, m.S()); }
    if pid !in m.paginas { return Refused; }
    ghost var t := m.T();
    m.EliminarProceso(pid);
    assert Sizes(m.T()) == Sizes(t) - {pid};
    return Done;
  }

  method Handle(m: Memoria, op: Op) returns (a: Answer, ghost tr: Trace)
    requires Good(m)
    modifies m, m.ram
    ensures Good(m) && m.c.Ok() && Step(m.c, old(Seen(m)), op, a, Seen(m), tr)
    ensures tr.before == old(m.S()) && tr.after == m.S()
  {
    hide Good, Step;
    StateOf(m);
    ghost var s, visits: seq<State> := m.S(), [];
    match op {
      case Start(pid) => a := HandleStart(m, pid);
      case Grow(pid, granted) => a := HandleGrow(m, pid, granted);
      case Read(pid, dir, n) => a, visits := HandleRead(m, pid, dir, n);
      case Write(pid, dir, data) => a, visits := HandleWrite(m, pid, dir, data);
      case Suspend(pid) => a := HandleSuspend(m, pid);
      case Flush => a := HandleFlush(m);
      case Shrink(pid) => a := HandleShrink(m, pid);
      case Exit(pid) => a := HandleExit(m, pid);
    }
    StateOf(m);
    tr := Trace(s, visits, m.S());
  }

  /** Memory is in order, and no written byte is lost. */
  ghost predicate Sound(c: Config, f: Flat, s: State) {
    c.repaired && Inv(c, s) && WriteBack(c, s, f.bytes) && Sizes(s.tables) == f.pages
  }

  lemma {:induction false} StateOf(m: Memoria)
    requires Good(m)
    ensures m.ram.Length == m.c.frameCount * m.c.pageSize && m.c.Ok() && Sound(m.c, Seen(m), m.S())
  {
  }

  ghost predicate Moment(c: Config, fs: seq<Flat>, ops: seq<Op>, answers: seq<Answer>, trs: seq<Trace>, k: nat)
    requires c.Ok() && k < |ops| == |answers| == |trs| && |fs| == |ops| + 1
  {
    && Step(c, fs[k], ops[k], answers[k], fs[k + 1], trs[k])
    && Sound(c, fs[k], trs[k].before) && (k > 0 ==> trs[k].before == trs[k - 1].after)
  }

  /** A run of the reference: each answer follows from the state before it. */
  ghost predicate Run(c: Config, fs: seq<Flat>, ops: seq<Op>, answers: seq<Answer>, trs: seq<Trace>)
    requires c.Ok()
  {
    && |fs| == |ops| + 1 && |answers| == |ops| == |trs|
    && forall k :: 0 <= k < |ops| ==> Moment(c, fs, ops, answers, trs, k)
  }

  lemma {:induction false} RunStep(c: Config, fs: seq<Flat>, ops: seq<Op>, answers: seq<Answer>, trs: seq<Trace>,
                                   k: nat)
    requires c.Ok() && Run(c, fs, ops, answers, trs) && k < |ops|
    ensures Step(c, fs[k], ops[k], answers[k], fs[k + 1], trs[k]) && Sound(c, fs[k], trs[k].before)
  {
    assert Moment(c, fs, ops, answers, trs, k);
  }

  lemma {:induction false} RunGrows(c: Config, fs: seq<Flat>, ops: seq<Op>, answers: seq<Answer>, trs: seq<Trace>,
                                    op: Op, a: Answer, f: Flat, tr: Trace)
    requires c.Ok() && Run(c, fs, ops, answers, trs) && Step(c, fs[|ops|], op, a, f, tr) &&
             Sound(c, fs[|ops|], tr.before)
    requires trs != [] ==> trs[|trs| - 1].after == tr.before
    ensures Run(c, fs + [f], ops + [op], answers + [a], trs + [tr])
  {
    hide Step, Sound;
    forall k: nat | k < |ops| + 1 ensures Moment(c, fs + [f], ops + [op], answers + [a], trs + [tr], k) {
      if k < |ops| {
        assert Moment(c, fs, ops, answers, trs, k);
        assert (fs + [f])[k + 1] == fs[k + 1];
      }
    }
  }

  /** Transparency over whole runs: for every sequence of requests, the server with
      its frames, its cache, its replacement and its swap store gives answers the
      flat reference gives. */
  method Serve(m: Memoria, ops: seq<Op>) returns (answers: seq<Answer>, ghost fs: seq<Flat>, ghost trs: seq<Trace>)
    requires Good(m)
    modifies m, m.ram
    ensures Good(m) && m.c.Ok() && Run(m.c, fs, ops, answers, trs)
    ensures fs[0] == old(Seen(m)) && fs[|ops|] == Seen(m)
  {
    hide Good, Step, Sound, Run;
    StateOf(m);
    answers, fs, trs := [], [Seen(m)], [];
    RunEmpty(m.c, fs);
    for k := 0 to |ops|
      invariant Good(m) && m.c.Ok() && |answers| == k == |trs| && |fs| == k + 1
      invariant fs[0] == old(Seen(m)) && fs[k] == Seen(m) && Run(m.c, fs, ops[..k], answers, trs)
      invariant m.ram.Length == m.c.frameCount * m.c.pageSize && Sound(m.c, Seen(m), m.S())
      invariant k > 0 ==> trs[k - 1].after == m.S()
    {
      ghost var tr;
      var a;
      a, tr := Handle(m, ops[k]);
      StateOf(m);
      RunGrows(m.c, fs, ops[..k], answers, trs, ops[k], a, Seen(m), tr);
      assert ops[..k] + [ops[k]] == ops[..k + 1];
      answers := answers + [a];
      fs := fs + [Seen(m)];
      trs := trs + [tr];
    }
    assert ops[..|ops|] == ops;
  }

  lemma {:induction false} RunEmpty(c: Config, fs: seq<Flat>)
    requires c.Ok() && |fs| == 1
    ensures Run(c, fs, [], [], [])
  {
  }

  // ----------------------------------------------- what a run says about a byte

  /** Request op leaves the byte at address x of process pid alone. */
  ghost predicate Spares(c: Config, f: Flat, op: Op, pid: int, x: nat)
    requires c.Ok()
  {
    match op
    case Write(q, dir, data) => q == pid ==> !(dir <= x < dir + |data|)
    case Shrink(q) => q == pid && pid in f.pages && f.pages[pid] > 0 ==> PageOf(x, c.pageSize) < f.pages[pid] - 1
    case Exit(q) => q != pid
    case _ => true
  }

  lemma {:induction false} SparedStep(c: Config, f: Flat, op: Op, a: Answer, f': Flat, tr: Trace, pid: int, x: nat,
                                      b: Byte)
    requires c.Ok() && Step(c, f, op, a, f', tr) && Spares(c, f, op, pid, x)
    requires KeyOf(pid, x, c.pageSize) in f.bytes && f.bytes[KeyOf(pid, x, c.pageSize)] == b
    ensures KeyOf(pid, x, c.pageSize) in f'.bytes && f'.bytes[KeyOf(pid, x, c.pageSize)] == b
  {
    if op.Write? && f' != f {
      var n := if a == Done then |op.data| else Stored(c, op.dir, |tr.visits|);
      WroteAt(f.bytes, op.pid, op.dir, op.data[..n], c.pageSize, pid, x);
    }
  }

  /** A byte stays as it was through any stretch of a run that spares it. */
  lemma {:induction false} SparedRun(c: Config, fs: seq<Flat>, ops: seq<Op>, answers: seq<Answer>, trs: seq<Trace>,
                                     i: nat, j: nat, pid: int, x: nat, b: Byte)
    requires c.Ok() && Run(c, fs, ops, answers, trs) && i <= j <= |ops|
    requires forall k :: i <= k < j ==> Spares(c, fs[k], ops[k], pid, x)
    requires KeyOf(pid, x, c.pageSize) in fs[i].bytes && fs[i].bytes[KeyOf(pid, x, c.pageSize)] == b
    ensures KeyOf(pid, x, c.pageSize) in fs[j].bytes && fs[j].bytes[KeyOf(pid, x, c.pageSize)] == b
    decreases j
  {
    if i < j {
      SparedRun(c, fs, ops, answers, trs, i, j - 1, pid, x, b);
      RunStep(c, fs, ops, answers, trs, j - 1);
      SparedStep(c, fs[j - 1], ops[j - 1], answers[j - 1], fs[j], trs[j - 1], pid, x, b);
    }
  }

  /** The headline: a byte read is the last one written there. Request i wrote it,
      no request in between wrote over it or gave its page back, request j reads it. */
  lemma {:induction false} ReadsLastWrite(c: Config, fs: seq<Flat>, ops: seq<Op>, answers: seq<Answer>, trs: seq<Trace>,
                                          i: nat, j: nat, x: nat)
    requires c.Ok() && Run(c, fs, ops, answers, trs) && i < j < |ops|
    requires ops[i].Write? && answers[i] == Done && ops[i].dir <= x < ops[i].dir + |ops[i].data|
    requires ops[j].Read? && answers[j].Bytes? && ops[j].pid == ops[i].pid && ops[j].dir <= x < ops[j].dir + ops[j].n
    requires forall k :: i < k < j ==> Spares(c, fs[k], ops[k], ops[i].pid, x)
    ensures |answers[j].data| == ops[j].n && answers[j].data[x - ops[j].dir] == ops[i].data[x - ops[i].dir]
  {
    var pid, b := ops[i].pid, ops[i].data[x - ops[i].dir];
    RunStep(c, fs, ops, answers, trs, i);
    WriteSeen(c, fs[i], ops[i], answers[i], fs[i + 1], trs[i], x);
    RunStep(c, fs, ops, answers, trs, j);
    hide Run, Step, Sound, Spares;
    SparedRun(c, fs, ops, answers, trs, i + 1, j, pid, x, b);
    ReadSees(c, fs[j], ops[j], answers[j], fs[j + 1], trs[j], x);
  }

  lemma {:induction false} WriteSeen(c: Config, f: Flat, op: Op, a: Answer, f': Flat, tr: Trace, x: nat)
    requires c.Ok() && Step(c, f, op, a, f', tr) && op.Write? && a == Done && op.dir <= x < op.dir + |op.data|
    ensures KeyOf(op.pid, x, c.pageSize) in f'.bytes && f'.bytes[KeyOf(op.pid, x, c.pageSize)] == op.data[x - op.dir]
  {
    WroteAt(f.bytes, op.pid, op.dir, op.data, c.pageSize, op.pid, x);
    assert op.data[..|op.data|] == op.data;
  }

  lemma {:induction false} ReadSees(c: Config, f: Flat, op: Op, a: Answer, f': Flat, tr: Trace, x: nat)
    requires c.Ok() && Step(c, f, op, a, f', tr) && op.Read? && a.Bytes? && op.dir <= x < op.dir + op.n
    ensures |a.data| == op.n
    ensures KeyOf(op.pid, x, c.pageSize) in f.bytes ==> a.data[x - op.dir] == f.bytes[KeyOf(op.pid, x, c.pageSize)]
  {
    assert KeyOf(op.pid, op.dir + (x - op.dir), c.pageSize) == KeyOf(op.pid, x, c.pageSize);
  }

  // ------------------------------------------------ when a request is answered

  /** The requests that read or write n bytes at dir. */
  predicate Asks(op: Op, pid: int, dir: nat, n: nat) {
    op == Read(pid, dir, n) || (op.Write? && op.pid == pid && op.dir == dir && |op.data| == n)
  }

  lemma {:induction false} AskedStep(c: Config, f: Flat, op: Op, a: Answer, f': Flat, tr: Trace, pid: int, dir: nat,
                                     n: nat)
    requires c.Ok() && Step(c, f, op, a, f', tr) && Asks(op, pid, dir, n) && InBounds(c, f, pid, dir, n)
    ensures a == Stuck <==> NoFrame(c, tr.before, pid, dir, n)
    ensures a != Stuck ==> Passes(c, f'.bytes, pid, dir, n, op.Write?, tr, a == Aborted)
  {
  }

  /** In any run, a read or write in bounds is answered exactly unless it is stuck, or one
      of its pages is out of memory, at the time it is visited, with a copy mistaken for
      missing; which takes a page whose written bytes may begin with that text. */
  lemma {:induction false} AnsweredExact(c: Config, fs: seq<Flat>, ops: seq<Op>, answers: seq<Answer>, trs: seq<Trace>,
                                         k: nat, pid: int, dir: nat, n: nat)
    requires c.Ok() && Run(c, fs, ops, answers, trs) && k < |ops| && Asks(ops[k], pid, dir, n) &&
             InBounds(c, fs[k], pid, dir, n)
    ensures answers[k] == Stuck <==> NoFrame(c, trs[k].before, pid, dir, n)
    ensures var first := PageOf(dir, c.pageSize); var met := trs[k].visits + [trs[k].after];
      answers[k] == Aborted <==>
        !NoFrame(c, trs[k].before, pid, dir, n) &&
        exists j :: 0 <= j < PageEnd(dir, n, c.pageSize) - first && j < |met| && Mistaken(met[j], pid, first + j)
    ensures var log := fs[k + 1].bytes;
      answers[k] == Aborted ==>
        exists p :: PageOf(dir, c.pageSize) <= p < PageEnd(dir, n, c.pageSize) && MaySpellMissing(log, pid, p)
  {
    RunStep(c, fs, ops, answers, trs, k);
    AskedStep(c, fs[k], ops[k], answers[k], fs[k + 1], trs[k], pid, dir, n);
    hide Run, Step, Sound, NoFrame, InBounds, Mistaken, MaySpellMissing, PageEnd, Asks;
    var first, last := PageOf(dir, c.pageSize), PageEnd(dir, n, c.pageSize);
    if !NoFrame(c, trs[k].before, pid, dir, n) {
      CutExact(c, trs[k].before, pid, first, last, ops[k].Write?, trs[k].visits, trs[k].after, answers[k] == Aborted);
      var m := |trs[k].visits|;
      assert answers[k] == Aborted ==> MaySpellMissing(fs[k + 1].bytes, pid, first + m) && first + m < last;
    }
  }

  /** A request inside one page whose first two bytes were written aborts exactly when the
      page is out of memory and those bytes are the text for none: whatever was repaired. */
  lemma {:induction false} OnePageExact(c: Config, fs: seq<Flat>, ops: seq<Op>, answers: seq<Answer>, trs: seq<Trace>,
                                        k: nat, pid: int, dir: nat, n: nat)
    requires c.Ok() && Run(c, fs, ops, answers, trs) && k < |ops| && Asks(ops[k], pid, dir, n) &&
             InBounds(c, fs[k], pid, dir, n)
    requires n > 0 && PageEnd(dir, n, c.pageSize) == PageOf(dir, c.pageSize) + 1
    requires var p := PageOf(dir, c.pageSize); (pid, p, 0) in fs[k].bytes && (pid, p, 1) in fs[k].bytes
    ensures var p := PageOf(dir, c.pageSize);
      answers[k] == Aborted <==>
        HasPage(trs[k].before.tables, pid, p) && trs[k].before.tables[pid][p].Out? &&
            MaySpellMissing(fs[k].bytes, pid, p)
  {
    var p := PageOf(dir, c.pageSize);
    RunStep(c, fs, ops, answers, trs, k);
    if HasPage(trs[k].before.tables, pid, p) { MistakenExact(c, trs[k].before, fs[k].bytes, pid, p); }
    if !NoFrame(c, trs[k].before, pid, dir, n) {
      CutExact(c, trs[k].before, pid, p, p + 1, ops[k].Write?, trs[k].visits, trs[k].after, answers[k] == Aborted);
    }
  }

  /** A run that fails: a process writes the text at the start of a page, is suspended,
      and reads that page. */
  lemma {:induction false} TextThenSuspend(c: Config, fs: seq<Flat>, ops: seq<Op>, answers: seq<Answer>,
                                           trs: seq<Trace>,
                                           pid: int, p: nat, k: nat)
    requires c.Ok() && c.pageSize >= 2 && Run(c, fs, ops, answers, trs) && k + 2 < |ops| && pid in fs[k].pages &&
             p < fs[k].pages[pid]
    requires ops[k] == Write(pid, p * c.pageSize, [124, 0]) && answers[k] == Done
    requires ops[k + 1] == Suspend(pid) && ops[k + 2] == Read(pid, p * c.pageSize, 1)
    ensures answers[k + 2] == Aborted
  {
    var a := p * c.pageSize;
    WholePageBytes(p, c.pageSize, fs[k].pages[pid]);
    TextWritten(c, fs, ops, answers, trs, pid, p, k);
    Asleep(c, fs, ops, answers, trs, pid, p, k + 1);
    hide Run, Step, Sound, NoFrame, AddressOf;
    OnePageExact(c, fs, ops, answers, trs, k + 2, pid, a, 1);
  }

  lemma {:induction false} TextWritten(c: Config, fs: seq<Flat>, ops: seq<Op>, answers: seq<Answer>, trs: seq<Trace>,
                                       pid: int, p: nat, k: nat)
    requires c.Ok() && c.pageSize >= 2 && Run(c, fs, ops, answers, trs) && k < |ops| && pid in fs[k].pages &&
             p < fs[k].pages[pid]
    requires 0 <= p * c.pageSize && ops[k] == Write(pid, p * c.pageSize, [124, 0]) && answers[k] == Done
    ensures fs[k + 1].pages == fs[k].pages
    ensures var log := fs[k + 1].bytes;
      (pid, p, 0) in log && (pid, p, 1) in log && log[(pid, p, 0)] == 124 && log[(pid, p, 1)] == 0
  {
    var a := p * c.pageSize;
    RunStep(c, fs, ops, answers, trs, k);
    WholePageBytes(p, c.pageSize, fs[k].pages[pid]);
    assert [124, 0][..2] == [124 as Byte, 0];
    hide Run, Sound, Wrote, AddressOf;
    WroteAt(fs[k].bytes, pid, a, [124, 0], c.pageSize, pid, a);
    WroteAt(fs[k].bytes, pid, a, [124, 0], c.pageSize, pid, a + 1);
  }

  lemma {:induction false} NonePresent(pages: seq<Page>)
    ensures PresentOf(pages) == {} ==> forall i :: 0 <= i < |pages| ==> pages[i].Out?
  {
    assert forall i :: 0 <= i < |pages| && pages[i].In? ==> i in PresentOf(pages);
  }

  /** After a suspension every page of the process is out, and the reference is as it was. */
  lemma {:induction false} Asleep(c: Config, fs: seq<Flat>, ops: seq<Op>, answers: seq<Answer>, trs: seq<Trace>,
                                  pid: int, p: nat, k: nat)
    requires c.Ok() && Run(c, fs, ops, answers, trs) && k + 1 < |ops| && pid in fs[k].pages && p < fs[k].pages[pid]
    requires ops[k] == Suspend(pid)
    ensures fs[k + 1] == fs[k]
    ensures HasPage(trs[k + 1].before.tables, pid, p) && trs[k + 1].before.tables[pid][p].Out?
  {
    RunStep(c, fs, ops, answers, trs, k);
    RunStep(c, fs, ops, answers, trs, k + 1);
    assert Moment(c, fs, ops, answers, trs, k + 1);
    var t := trs[k + 1].before.tables;
    assert Sizes(t)[pid] == |t[pid]|;
    NonePresent(t[pid]);
  }

  lemma {:induction false} WholePageBytes(p: nat, size: nat, pages: nat)
    requires size >= 2 && p < pages
    ensures PageOf(p * size, size) == p && OffsetOf(p * size, size) == 0 && p * size + 2 <= pages * size
    ensures PageOf(p * size + 1, size) == p && OffsetOf(p * size + 1, size) == 1
    ensures PageEnd(p * size, 1, size) == p + 1 && 0 <= p * size
  {
    PieceOf(p, 0, size);
    PieceOf(p, 1, size);
    MulGrows(p + 1, pages, size);
    assert (p + 1) * size == p * size + size;
  }
}
