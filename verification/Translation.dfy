/** Page records and translation-cache registers as the server keeps them, and
    what they mean together: a cached page's frame, modified bit and use value
    are the register's, everybody else's are in the page record. `Views` is that
    meaning; the lemmas say which view each edit of records and registers gives. */
module Translation {
  import opened Base
  import opened Vm

  datatype Pag = Pag(marco: int, presente: bool, modificado: bool, algoritmo: int, tlb: bool)
  datatype Reg = Reg(pid: int, pagina: int, marco: int, modificado: bool, algTlb: int, alg: int)

  type Paginas = map<int, seq<Pag>>

  ghost predicate HasPag(ps: Paginas, pid: int, i: int) {
    pid in ps && 0 <= i < |ps[pid]|
  }

  predicate Is(r: Reg, pid: int, i: int) {
    r.pid == pid && r.pagina == i
  }

  /** The register holding (pid, i), or -1. */
  ghost function Find(tlb: seq<Reg>, pid: int, i: int): (v: int)
    ensures -1 <= v < |tlb|
    ensures v >= 0 ==> Is(tlb[v], pid, i)
    ensures v < 0 ==> forall w :: 0 <= w < |tlb| ==> !Is(tlb[w], pid, i)
  {
    if exists w :: 0 <= w < |tlb| && Is(tlb[w], pid, i)
    then var w :| 0 <= w < |tlb| && Is(tlb[w], pid, i); w
    else -1
  }

  /** No page has two registers. */
  ghost predicate Unique(tlb: seq<Reg>) {
    forall v, w :: 0 <= v < w < |tlb| && tlb[v].pid != FREE ==> !Is(tlb[w], tlb[v].pid, tlb[v].pagina)
  }

  /** The translation cache agrees with the page tables: one register at most per
      page, each for a present page in the same frame, and a present page is
      flagged as cached exactly when it has a register. */
  ghost predicate Coherent(tlb: seq<Reg>, ps: Paginas) {
    && FREE !in ps
    && (forall v :: 0 <= v < |tlb| && tlb[v].pid != FREE ==> Backed(tlb[v], ps))
    && Unique(tlb)
    && (forall pid, i :: HasPag(ps, pid, i) ==> Recorded(tlb, ps[pid][i], pid, i))
  }

  /** A register names a present, cached page, in the same frame. */
  ghost predicate Backed(r: Reg, ps: Paginas) {
    HasPag(ps, r.pid, r.pagina) && r.alg >= 0 &&
    var p := ps[r.pid][r.pagina];
    p.presente && p.tlb && p.marco == r.marco
  }

  ghost predicate Recorded(tlb: seq<Reg>, p: Pag, pid: int, i: int) {
    && (p.tlb ==> |tlb| > 0 && (p.presente ==> Find(tlb, pid, i) >= 0))
    && (p.presente ==> p.algoritmo >= 0)
  }

  ghost function View(tlb: seq<Reg>, p: Pag, pid: int, i: int): Page {
    if !p.presente then Out(p.modificado)
    else
      var v := if p.tlb then Find(tlb, pid, i) else -1;
      if v >= 0 then In(tlb[v].marco, tlb[v].modificado, tlb[v].alg)
      else In(p.marco, p.modificado, p.algoritmo)
  }

  ghost function Views(tlb: seq<Reg>, ps: Paginas): (t: Tables)
    ensures t.Keys == ps.Keys
    ensures forall pid :: pid in ps ==> |t[pid]| == |ps[pid]|
    ensures forall pid, i :: HasPag(ps, pid, i) ==> t[pid][i] == View(tlb, ps[pid][i], pid, i)
  {
    map pid | pid in ps :: seq(|ps[pid]|, i requires 0 <= i < |ps[pid]| => View(tlb, ps[pid][i], pid, i))
  }

  /** The record of a present page says what everybody sees. */
  ghost predicate Fresh(tlb: seq<Reg>, ps: Paginas, pid: int, i: int) {
    HasPag(ps, pid, i) && ps[pid][i].presente &&
    View(tlb, ps[pid][i], pid, i) == In(ps[pid][i].marco, ps[pid][i].modificado, ps[pid][i].algoritmo)
  }

  /** Same pages, present and cached as before. */
  ghost predicate SameFlags(ps0: Paginas, ps1: Paginas) {
    && ps0.Keys == ps1.Keys
    && (forall pid :: pid in ps0 ==> |ps0[pid]| == |ps1[pid]|)
    && (forall pid, i :: HasPag(ps0, pid, i) ==>
          ps1[pid][i].presente == ps0[pid][i].presente && ps1[pid][i].tlb == ps0[pid][i].tlb)
  }

  lemma {:induction false} SameFlagsChain(ps0: Paginas, ps1: Paginas, ps2: Paginas)
    ensures SameFlags(ps0, ps0)
    ensures SameFlags(ps0, ps1) && SameFlags(ps1, ps2) ==> SameFlags(ps0, ps2)
  {
  }

  /** Each register holds the page it held, if any. */
  ghost predicate SamePlaces(tlb0: seq<Reg>, tlb1: seq<Reg>) {
    |tlb0| == |tlb1| && forall v :: 0 <= v < |tlb0| ==> tlb1[v].pid == tlb0[v].pid && tlb1[v].pagina == tlb0[v].pagina
  }

  lemma {:induction false} SamePlacesChain(tlb0: seq<Reg>, tlb1: seq<Reg>, tlb2: seq<Reg>)
    ensures SamePlaces(tlb0, tlb0)
    ensures SamePlaces(tlb0, tlb1) && SamePlaces(tlb1, tlb2) ==> SamePlaces(tlb0, tlb2)
  {
  }

  lemma {:induction false} SamePresent(tlb0: seq<Reg>, ps0: Paginas, tlb1: seq<Reg>, ps1: Paginas, pid: int)
    requires SameFlags(ps0, ps1) && pid in ps0
    ensures pid in ps1 && PresentOf(Views(tlb1, ps1)[pid]) == PresentOf(Views(tlb0, ps0)[pid])
  {
    assert forall i :: HasPag(ps0, pid, i) ==>
        (Views(tlb1, ps1)[pid][i].In? <==> Views(tlb0, ps0)[pid][i].In?);
    assert forall i :: 0 <= i < |ps0[pid]| ==> HasPag(ps0, pid, i);
  }

  lemma {:induction false} FreshUse(tlb: seq<Reg>, ps: Paginas, pid: int, i: int)
    requires Fresh(tlb, ps, pid, i)
    ensures Resident(Views(tlb, ps), pid, i)
    ensures Views(tlb, ps)[pid][i] == In(ps[pid][i].marco, ps[pid][i].modificado, ps[pid][i].algoritmo)
  {
  }

  lemma {:induction false} KeysKept(ps0: Paginas, ps1: Paginas)
    requires SameFlags(ps0, ps1)
    ensures ps0.Keys == ps1.Keys
  {
  }

  lemma {:induction false} FlagKept(ps0: Paginas, ps1: Paginas, pid: int, i: int)
    requires SameFlags(ps0, ps1) && HasPag(ps0, pid, i)
    ensures HasPag(ps1, pid, i) && ps1[pid][i].presente == ps0[pid][i].presente && ps1[pid][i].tlb == ps0[pid][i].tlb
  {
  }

  lemma {:induction false} FreshIs(tlb: seq<Reg>, ps: Paginas, pid: int, i: int)
    requires Fresh(tlb, ps, pid, i)
    ensures HasPag(ps, pid, i) && ps[pid][i].presente
  {
  }

  function SetPag(ps: Paginas, pid: int, i: int, p: Pag): Paginas
    requires pid in ps && 0 <= i < |ps[pid]|
  {
    ps[pid := ps[pid][i := p]]
  }

  /** A register in use is the one found for its page. */
  lemma {:induction false} FindIs(tlb: seq<Reg>, ps: Paginas, v: int)
    requires Coherent(tlb, ps) && 0 <= v < |tlb| && tlb[v].pid != FREE
    ensures Find(tlb, tlb[v].pid, tlb[v].pagina) == v
  {
  }

  lemma {:induction false} CacheFacts(tlb: seq<Reg>, ps: Paginas, pid: int, i: int)
    requires Coherent(tlb, ps) && HasPag(ps, pid, i)
    ensures Unique(tlb) && pid != FREE && HasPage(Views(tlb, ps), pid, i)
    ensures Find(tlb, pid, i) >= 0 ==> ps[pid][i].presente && ps[pid][i].tlb
  {
    var v := Find(tlb, pid, i);
    assert v >= 0 ==> Backed(tlb[v], ps);
  }

  /** Only a present page flagged as cached has a register. */
  lemma {:induction false} NotCached(tlb: seq<Reg>, ps: Paginas, pid: int, i: int)
    requires Coherent(tlb, ps) && HasPag(ps, pid, i) && !(ps[pid][i].presente && ps[pid][i].tlb)
    ensures Find(tlb, pid, i) < 0
  {
    var v := Find(tlb, pid, i);
    assert v >= 0 ==> Backed(tlb[v], ps);
  }

  lemma {:induction false} FindAt(tlb: seq<Reg>, v: int, pid: int, i: int)
    requires 0 <= v < |tlb| && Is(tlb[v], pid, i)
    requires forall w :: 0 <= w < |tlb| && w != v ==> !Is(tlb[w], pid, i)
    ensures Find(tlb, pid, i) == v
  {
  }

  lemma {:induction false} FindAfter(tlb: seq<Reg>, tlb': seq<Reg>, v: int, pid: int, i: int)
    requires Unique(tlb) && pid != FREE
    requires |tlb'| == |tlb| && 0 <= v < |tlb| && tlb' == tlb[v := tlb'[v]]
    requires !Is(tlb[v], pid, i) && !Is(tlb'[v], pid, i)
    ensures Find(tlb', pid, i) == Find(tlb, pid, i)
  {
    var a, b := Find(tlb, pid, i), Find(tlb', pid, i);
    if a >= 0 { assert tlb'[a] == tlb[a]; }
    if b >= 0 { assert tlb'[b] == tlb[b]; }
  }

  // ------------------------------------------------------------- edits

  /** An uncached page's record is replaced by another uncached one. */
  lemma {:induction false} EditUncached(tlb: seq<Reg>, ps: Paginas, pid: int, i: int, p: Pag)
    requires Coherent(tlb, ps) && HasPag(ps, pid, i)
    requires (p.presente ==> !p.tlb && p.algoritmo >= 0) && (p.tlb ==> |tlb| > 0)
    requires Find(tlb, pid, i) < 0
    ensures Coherent(tlb, SetPag(ps, pid, i, p))
    ensures Views(tlb, SetPag(ps, pid, i, p)) == SetPage(Views(tlb, ps), pid, i, View(tlb, p, pid, i))
  {
    var ps' := SetPag(ps, pid, i, p);
    assert forall q, j :: HasPag(ps', q, j) <==> HasPag(ps, q, j);
    forall v | 0 <= v < |tlb| && tlb[v].pid != FREE ensures Backed(tlb[v], ps') {
      assert !Is(tlb[v], pid, i);
      assert Backed(tlb[v], ps);
    }
    TablesEqual(Views(tlb, ps'), SetPage(Views(tlb, ps), pid, i, View(tlb, p, pid, i)));
  }

  /** The record of a cached page with its register's values copied in. */
  ghost function Synced(tlb: seq<Reg>, ps: Paginas, pid: int, i: int): Paginas
    requires HasPag(ps, pid, i) && Find(tlb, pid, i) >= 0
  {
    var r := tlb[Find(tlb, pid, i)];
    SetPag(ps, pid, i, ps[pid][i].(marco := r.marco, modificado := r.modificado, algoritmo := r.alg))
  }

  /** A page's record is brought in line with its register: nobody sees a change. */
  lemma {:induction false} Sync(tlb: seq<Reg>, ps: Paginas, pid: int, i: int)
    requires Coherent(tlb, ps) && HasPag(ps, pid, i) && ps[pid][i].presente && ps[pid][i].tlb
    ensures Find(tlb, pid, i) >= 0
    ensures Coherent(tlb, Synced(tlb, ps, pid, i)) && Views(tlb, Synced(tlb, ps, pid, i)) == Views(tlb, ps)
  {
    assert Recorded(tlb, ps[pid][i], pid, i);
    assert Backed(tlb[Find(tlb, pid, i)], ps);
    EditCachedRecord(tlb, ps, pid, i, Synced(tlb, ps, pid, i)[pid][i]);
  }

  /** A register is edited in place, keeping its page and frame. */
  lemma {:induction false} EditReg(tlb: seq<Reg>, ps: Paginas, v: int, r: Reg)
    requires Coherent(tlb, ps) && 0 <= v < |tlb| && tlb[v].pid != FREE
    requires Is(r, tlb[v].pid, tlb[v].pagina) && r.marco == tlb[v].marco && r.alg >= 0
    ensures Coherent(tlb[v := r], ps) && HasPag(ps, r.pid, r.pagina)
    ensures Views(tlb[v := r], ps) == SetPage(Views(tlb, ps), r.pid, r.pagina, In(r.marco, r.modificado, r.alg))
  {
    var tlb' := tlb[v := r];
    assert Backed(tlb[v], ps);
    forall q, j ensures q != FREE && (q, j) != (r.pid, r.pagina) ==> Find(tlb', q, j) == Find(tlb, q, j) {
      if q != FREE && (q, j) != (r.pid, r.pagina) { FindAfter(tlb, tlb', v, q, j); }
    }
    FindIs(tlb, ps, v);
    forall w | 0 <= w < |tlb'| && w != v ensures !Is(tlb'[w], r.pid, r.pagina) {
      assert tlb'[w] == tlb[w];
    }
    FindAt(tlb', v, r.pid, r.pagina);
    forall w | 0 <= w < |tlb'| && tlb'[w].pid != FREE ensures Backed(tlb'[w], ps) {
      if w != v { assert Backed(tlb[w], ps); }
    }
    TablesEqual(Views(tlb', ps), SetPage(Views(tlb, ps), r.pid, r.pagina, In(r.marco, r.modificado, r.alg)));
  }

  /** A register is written back to its page record and emptied: nobody sees a change. */
  lemma {:induction false} WriteBackReg(tlb: seq<Reg>, ps: Paginas, v: int, r: Reg)
    requires Coherent(tlb, ps) && 0 <= v < |tlb| && tlb[v].pid != FREE && r.pid == FREE
    ensures HasPag(ps, tlb[v].pid, tlb[v].pagina)
    ensures var ps' := WrittenBack(ps, tlb[v]);
      Coherent(tlb[v := r], ps') && Views(tlb[v := r], ps') == Views(tlb, ps)
  {
    assert Backed(tlb[v], ps);
    FindIs(tlb, ps, v);
    var p := WrittenBack(ps, tlb[v])[tlb[v].pid][tlb[v].pagina];
    Uncache(tlb, ps, tlb[v].pid, tlb[v].pagina, r, p);
    TablesEqual(Views(tlb, ps),
                SetPage(Views(tlb, ps), tlb[v].pid, tlb[v].pagina, View(tlb[v := r], p, tlb[v].pid, tlb[v].pagina)));
  }

  /** actualizar_victima_de_tlb: the record takes the register's values. */
  function WrittenBack(ps: Paginas, r: Reg): Paginas
    requires r.pid in ps && 0 <= r.pagina < |ps[r.pid]|
  {
    SetPag(ps, r.pid, r.pagina,
           ps[r.pid][r.pagina].(algoritmo := r.alg, marco := r.marco, modificado := r.modificado, tlb := false))
  }

  /** The register of a cached page is emptied and the page's record replaced by an uncached one. */
  lemma {:induction false} Uncache(tlb: seq<Reg>, ps: Paginas, pid: int, i: int, r: Reg, p: Pag)
    requires Coherent(tlb, ps) && HasPag(ps, pid, i) && Find(tlb, pid, i) >= 0
    requires r.pid == FREE && (p.presente ==> !p.tlb && p.algoritmo >= 0)
    ensures var tlb' := tlb[Find(tlb, pid, i) := r];
      && Coherent(tlb', SetPag(ps, pid, i, p)) && Find(tlb', pid, i) < 0
      && Views(tlb', SetPag(ps, pid, i, p)) == SetPage(Views(tlb, ps), pid, i, View(tlb', p, pid, i))
  {
    hide Find, Backed, Unique;
    var tlb' := tlb[Find(tlb, pid, i) := r];
    var ps' := SetPag(ps, pid, i, p);
    UncacheFinds(tlb, pid, i, r);
    UncacheBacked(tlb, ps, pid, i, r, p);
    assert forall q, j :: HasPag(ps', q, j) <==> HasPag(ps, q, j);
    TablesEqual(Views(tlb', ps'), SetPage(Views(tlb, ps), pid, i, View(tlb', p, pid, i)));
  }

  lemma {:induction false} UncacheFinds(tlb: seq<Reg>, pid: int, i: int, r: Reg)
    requires Unique(tlb) && pid != FREE && Find(tlb, pid, i) >= 0 && r.pid == FREE
    ensures var tlb' := tlb[Find(tlb, pid, i) := r];
      && Unique(tlb') && Find(tlb', pid, i) < 0
      && (forall q, j :: q != FREE && (q, j) != (pid, i) ==> Find(tlb', q, j) == Find(tlb, q, j))
      && forall w :: 0 <= w < |tlb'| && tlb'[w].pid != FREE ==> tlb'[w] == tlb[w] && !Is(tlb[w], pid, i)
  {
    var v := Find(tlb, pid, i);
    var tlb' := tlb[v := r];
    forall q, j | q != FREE && (q, j) != (pid, i) ensures Find(tlb', q, j) == Find(tlb, q, j) {
      FindAfter(tlb, tlb', v, q, j);
    }
    forall w | 0 <= w < |tlb'| ensures !Is(tlb'[w], pid, i) {
      if w != v { assert tlb'[w] == tlb[w]; }
    }
  }

  lemma {:induction false} UncacheBacked(tlb: seq<Reg>, ps: Paginas, pid: int, i: int, r: Reg, p: Pag)
    requires Coherent(tlb, ps) && HasPag(ps, pid, i) && Find(tlb, pid, i) >= 0 && r.pid == FREE
    ensures var tlb' := tlb[Find(tlb, pid, i) := r];
      forall w :: 0 <= w < |tlb'| && tlb'[w].pid != FREE ==> Backed(tlb'[w], SetPag(ps, pid, i, p))
  {
    UncacheFinds(tlb, pid, i, r);
    var tlb' := tlb[Find(tlb, pid, i) := r];
    forall w | 0 <= w < |tlb'| && tlb'[w].pid != FREE ensures Backed(tlb'[w], SetPag(ps, pid, i, p)) {
      assert tlb'[w] == tlb[w] && Backed(tlb[w], ps);
    }
  }

  /** An uncached page takes an empty register. */
  lemma {:induction false} Cache(tlb: seq<Reg>, ps: Paginas, v: int, r: Reg, p: Pag)
    requires Coherent(tlb, ps) && 0 <= v < |tlb| && tlb[v].pid == FREE
    requires HasPag(ps, r.pid, r.pagina) && Find(tlb, r.pid, r.pagina) < 0
    requires p.presente && p.tlb && p.marco == r.marco && p.algoritmo >= 0 && r.alg >= 0
    ensures Coherent(tlb[v := r], SetPag(ps, r.pid, r.pagina, p))
    ensures Views(tlb[v := r], SetPag(ps, r.pid, r.pagina, p)) ==
            SetPage(Views(tlb, ps), r.pid, r.pagina, In(r.marco, r.modificado, r.alg))
  {
    var tlb' := tlb[v := r];
    var ps' := SetPag(ps, r.pid, r.pagina, p);
    assert forall q, j :: HasPag(ps', q, j) <==> HasPag(ps, q, j);
    forall q, j | q != FREE && (q, j) != (r.pid, r.pagina) ensures Find(tlb', q, j) == Find(tlb, q, j) {
      FindAfter(tlb, tlb', v, q, j);
    }
    forall w | 0 <= w < |tlb'| && w != v ensures !Is(tlb'[w], r.pid, r.pagina) {
      assert tlb'[w] == tlb[w];
    }
    FindAt(tlb', v, r.pid, r.pagina);
    forall w | 0 <= w < |tlb'| && tlb'[w].pid != FREE ensures Backed(tlb'[w], ps') {
      if w != v {
        assert tlb'[w] == tlb[w] && !Is(tlb[w], r.pid, r.pagina);
        assert Backed(tlb[w], ps);
      }
    }
    TablesEqual(Views(tlb', ps'), SetPage(Views(tlb, ps), r.pid, r.pagina, In(r.marco, r.modificado, r.alg)));
  }

  /** The use value of a present page is cleared, in the record and in the register. */
  function Cleared(ps: Paginas, pid: int, i: int): Paginas
    requires pid in ps && 0 <= i < |ps[pid]|
  {
    SetPag(ps, pid, i, ps[pid][i].(algoritmo := 0))
  }

  lemma {:induction false} Cool(tlb: seq<Reg>, ps: Paginas, pid: int, i: int)
    requires Coherent(tlb, ps) && HasPag(ps, pid, i) && ps[pid][i].presente
    requires ps[pid][i].tlb ==> Find(tlb, pid, i) >= 0
    ensures var v := Find(tlb, pid, i);
            var tlb' := if ps[pid][i].tlb then tlb[v := tlb[v].(alg := 0)] else tlb;
            var seen := Views(tlb, ps)[pid][i];
            seen.In? && Coherent(tlb', Cleared(ps, pid, i)) &&
            Views(tlb', Cleared(ps, pid, i)) == SetPage(Views(tlb, ps), pid, i, In(seen.frame, seen.dirty, 0))
  {
    var v := Find(tlb, pid, i);
    if ps[pid][i].tlb {
      EditReg(tlb, ps, v, tlb[v].(alg := 0));
      var tlb' := tlb[v := tlb[v].(alg := 0)];
      assert Is(tlb'[v], pid, i);
      EditCachedRecord(tlb', ps, pid, i, ps[pid][i].(algoritmo := 0));
    } else {
      NotCached(tlb, ps, pid, i);
      EditUncached(tlb, ps, pid, i, ps[pid][i].(algoritmo := 0));
    }
  }

  /** What a cached page's record says, frame and flags apart, is not visible. */
  lemma {:induction false} EditCachedRecord(tlb: seq<Reg>, ps: Paginas, pid: int, i: int, p: Pag)
    requires Coherent(tlb, ps) && HasPag(ps, pid, i) && ps[pid][i].presente && ps[pid][i].tlb
    requires p.presente && p.tlb && p.marco == ps[pid][i].marco && p.algoritmo >= 0
    ensures Coherent(tlb, SetPag(ps, pid, i, p)) && Views(tlb, SetPag(ps, pid, i, p)) == Views(tlb, ps)
  {
    var ps' := SetPag(ps, pid, i, p);
    assert Recorded(tlb, ps[pid][i], pid, i);
    assert forall q, j :: HasPag(ps', q, j) <==> HasPag(ps, q, j);
    forall w | 0 <= w < |tlb| && tlb[w].pid != FREE ensures Backed(tlb[w], ps') {
      assert Backed(tlb[w], ps);
    }
    TablesEqual(Views(tlb, ps'), Views(tlb, ps));
  }

  function Emptied(tlb: seq<Reg>, k: int): seq<Reg>
    requires 0 <= k < |tlb|
  {
    tlb[k := tlb[k].(pid := FREE)]
  }

  /** A register gives way: written back if in use, then empty. Nobody sees a
      change, and an uncached page stays uncached with its record as it was. */
  lemma {:induction false} GiveWay(tlb: seq<Reg>, ps: Paginas, k: int, pid: int, i: int)
    requires Coherent(tlb, ps) && 0 <= k < |tlb|
    requires HasPag(ps, pid, i) && Find(tlb, pid, i) < 0
    ensures tlb[k].pid != FREE ==> HasPag(ps, tlb[k].pid, tlb[k].pagina)
    ensures var ps' := if tlb[k].pid != FREE then WrittenBack(ps, tlb[k]) else ps;
      && Coherent(Emptied(tlb, k), ps') && Views(Emptied(tlb, k), ps') == Views(tlb, ps)
      && Find(Emptied(tlb, k), pid, i) < 0
      && ps'.Keys == ps.Keys && HasPag(ps', pid, i) && ps'[pid][i] == ps[pid][i]
  {
    var tlb' := Emptied(tlb, k);
    FindAfter(tlb, tlb', k, pid, i);
    if tlb[k].pid != FREE {
      assert !Is(tlb[k], pid, i);
      WriteBackReg(tlb, ps, k, tlb'[k]);
    } else {
      assert tlb' == tlb;
    }
  }

  /** A register in use tells what its page looks like. */
  lemma {:induction false} RegView(tlb: seq<Reg>, ps: Paginas, v: int)
    requires Coherent(tlb, ps) && 0 <= v < |tlb| && tlb[v].pid != FREE
    ensures HasPag(ps, tlb[v].pid, tlb[v].pagina) && Resident(Views(tlb, ps), tlb[v].pid, tlb[v].pagina)
    ensures Views(tlb, ps)[tlb[v].pid][tlb[v].pagina] == In(tlb[v].marco, tlb[v].modificado, tlb[v].alg)
    ensures Find(tlb, tlb[v].pid, tlb[v].pagina) == v
  {
    assert Backed(tlb[v], ps);
    FindIs(tlb, ps, v);
  }

  /** An uncached record tells what its page looks like. */
  lemma {:induction false} RecordView(tlb: seq<Reg>, ps: Paginas, pid: int, i: int)
    requires Coherent(tlb, ps) && HasPag(ps, pid, i) && ps[pid][i].presente && Find(tlb, pid, i) < 0
    ensures Resident(Views(tlb, ps), pid, i) && !ps[pid][i].tlb
    ensures Views(tlb, ps)[pid][i] == In(ps[pid][i].marco, ps[pid][i].modificado, ps[pid][i].algoritmo)
  {
    assert Recorded(tlb, ps[pid][i], pid, i);
  }

  lemma {:induction false} RecordFlag(tlb: seq<Reg>, ps: Paginas, pid: int, i: int)
    requires Coherent(tlb, ps) && HasPag(ps, pid, i)
    ensures ps[pid][i].tlb ==> |tlb| > 0
    ensures HasPage(Views(tlb, ps), pid, i)
    ensures !ps[pid][i].presente ==> Views(tlb, ps)[pid][i] == Out(ps[pid][i].modificado)
  {
    assert Recorded(tlb, ps[pid][i], pid, i);
  }

  lemma {:induction false} PresentIsSeen(tlb: seq<Reg>, ps: Paginas, pid: int, i: int)
    ensures Resident(Views(tlb, ps), pid, i) <==> HasPag(ps, pid, i) && ps[pid][i].presente
  {
    if HasPag(ps, pid, i) {
      assert HasPage(Views(tlb, ps), pid, i);
    }
  }

  /** The cache with the register of (pid, i), if any, emptied. */
  ghost function Forgotten(tlb: seq<Reg>, pid: int, i: int): (t: seq<Reg>)
    ensures |t| == |tlb|
  {
    var v := Find(tlb, pid, i);
    if v < 0 then tlb else tlb[v := tlb[v].(pid := FREE)]
  }

  lemma {:induction false} ForgottenIs(tlb: seq<Reg>, tlb': seq<Reg>, pid: int, i: int)
    requires Unique(tlb) && pid != FREE && |tlb'| == |tlb|
    requires forall w :: 0 <= w < |tlb| ==> tlb'[w] == if Is(tlb[w], pid, i) then tlb[w].(pid := FREE) else tlb[w]
    ensures tlb' == Forgotten(tlb, pid, i)
  {
    var v := Find(tlb, pid, i);
    forall w | 0 <= w < |tlb| && w != v ensures !Is(tlb[w], pid, i) {
      assert v >= 0 ==> Is(tlb[v], pid, i);
    }
  }

  lemma {:induction false} ForgottenPlaces(tlb0: seq<Reg>, tlb1: seq<Reg>, pid: int, i: int)
    requires SamePlaces(tlb0, tlb1) && Unique(tlb0) && pid != FREE
    ensures SamePlaces(Forgotten(tlb0, pid, i), Forgotten(tlb1, pid, i))
  {
    var v, w := Find(tlb0, pid, i), Find(tlb1, pid, i);
    assert v >= 0 ==> Is(tlb1[v], pid, i);
    assert w >= 0 ==> Is(tlb0[w], pid, i);
  }

  lemma {:induction false} ForgottenFinds(tlb: seq<Reg>, pid: int, i: int)
    requires Unique(tlb) && pid != FREE
    ensures Find(Forgotten(tlb, pid, i), pid, i) < 0 && Unique(Forgotten(tlb, pid, i))
    ensures Find(tlb, pid, i) < 0 ==> Forgotten(tlb, pid, i) == tlb
    ensures Forgotten(Forgotten(tlb, pid, i), pid, i) == Forgotten(tlb, pid, i)
  {
    var v, t := Find(tlb, pid, i), Forgotten(tlb, pid, i);
    forall w | 0 <= w < |t| ensures !Is(t[w], pid, i) {
      assert w != v ==> t[w] == tlb[w];
    }
  }

  /** A register in use has the frame its page's record has. */
  lemma {:induction false} RegRecord(tlb: seq<Reg>, ps: Paginas, v: int)
    requires Coherent(tlb, ps) && 0 <= v < |tlb| && tlb[v].pid != FREE
    ensures HasPag(ps, tlb[v].pid, tlb[v].pagina) && ps[tlb[v].pid][tlb[v].pagina].marco == tlb[v].marco
  {
    assert Backed(tlb[v], ps);
  }

  /** What an empty register says does not matter. */
  lemma {:induction false} EmptyReg(tlb: seq<Reg>, ps: Paginas, v: int, r: Reg)
    requires Coherent(tlb, ps) && 0 <= v < |tlb| && tlb[v].pid == FREE && r.pid == FREE
    ensures Coherent(tlb[v := r], ps) && Views(tlb[v := r], ps) == Views(tlb, ps)
  {
    var tlb' := tlb[v := r];
    forall q, j | q != FREE ensures Find(tlb', q, j) == Find(tlb, q, j) {
      FindAfter(tlb, tlb', v, q, j);
    }
    forall w | 0 <= w < |tlb'| && tlb'[w].pid != FREE ensures Backed(tlb'[w], ps) {
      assert tlb'[w] == tlb[w];
    }
    TablesEqual(Views(tlb', ps), Views(tlb, ps));
  }

  /** A page falls asleep: its register, if any, is emptied, its record says it is
      out and keeps the modified bit it had; the cached flag no longer matters. */
  lemma {:induction false} FallAsleep(tlb: seq<Reg>, ps: Paginas, pid: int, i: int, p: Pag)
    requires Coherent(tlb, ps) && HasPag(ps, pid, i) && ps[pid][i].presente
    requires !p.presente && (p.tlb ==> ps[pid][i].tlb)
    ensures pid != FREE && Unique(tlb) && (ps[pid][i].tlb ==> Find(tlb, pid, i) >= 0)
    ensures Coherent(Forgotten(tlb, pid, i), SetPag(ps, pid, i, p)) &&
            (!ps[pid][i].tlb ==> Forgotten(tlb, pid, i) == tlb)
    ensures Views(Forgotten(tlb, pid, i), SetPag(ps, pid, i, p)) == SetPage(Views(tlb, ps), pid, i, Out(p.modificado))
    ensures Forgotten(Forgotten(tlb, pid, i), pid, i) == Forgotten(tlb, pid, i) &&
            Find(Forgotten(tlb, pid, i), pid, i) < 0
  {
    assert Recorded(tlb, ps[pid][i], pid, i);
    if ps[pid][i].tlb {
      Uncache(tlb, ps, pid, i, tlb[Find(tlb, pid, i)].(pid := FREE), p);
    } else {
      NotCached(tlb, ps, pid, i);
      EditUncached(tlb, ps, pid, i, p);
    }
  }

  // ------------------------------------------------ tables growing and shrinking

  /** crear_pagina */
  function WithNewPag(ps: Paginas, pid: int): Paginas
    requires pid in ps
  {
    ps[pid := ps[pid] + [Pag(-1, false, false, -1, false)]]
  }

  lemma {:induction false} NewPag(tlb: seq<Reg>, ps: Paginas, pid: int)
    requires Coherent(tlb, ps) && pid in ps
    ensures Coherent(tlb, WithNewPag(ps, pid))
    ensures Views(tlb, WithNewPag(ps, pid)) == Views(tlb, ps)[pid := Views(tlb, ps)[pid] + [Out(false)]]
  {
    var ps' := WithNewPag(ps, pid);
    forall v | 0 <= v < |tlb| && tlb[v].pid != FREE ensures Backed(tlb[v], ps') {
      assert Backed(tlb[v], ps);
    }
    forall q, j | HasPag(ps', q, j) ensures Recorded(tlb, ps'[q][j], q, j) {
      assert !HasPag(ps, q, j) ==> (q, j) == (pid, |ps[pid]|);
    }
    var t := Views(tlb, ps)[pid := Views(tlb, ps)[pid] + [Out(false)]];
    forall q, j | HasPage(t, q, j) ensures Views(tlb, ps')[q][j] == t[q][j] {
      assert HasPag(ps', q, j);
      assert !HasPag(ps, q, j) ==> (q, j) == (pid, |ps[pid]|);
    }
    TablesEqual(Views(tlb, ps'), t);
  }

  lemma {:induction false} NewTable(tlb: seq<Reg>, ps: Paginas, pid: int)
    requires Coherent(tlb, ps) && pid !in ps && pid != FREE
    ensures Coherent(tlb, ps[pid := []]) && Views(tlb, ps[pid := []]) == Views(tlb, ps)[pid := []]
  {
    var ps' := ps[pid := []];
    forall v | 0 <= v < |tlb| && tlb[v].pid != FREE ensures Backed(tlb[v], ps') {
      assert Backed(tlb[v], ps);
    }
    assert forall q, j :: HasPag(ps', q, j) <==> HasPag(ps, q, j);
    TablesEqual(Views(tlb, ps'), Views(tlb, ps)[pid := []]);
  }

  /** The last page of a process goes, register included. */
  lemma {:induction false} LastPagGoes(tlb: seq<Reg>, ps: Paginas, pid: int)
    requires Coherent(tlb, ps) && pid in ps && |ps[pid]| > 0
    ensures var n := |ps[pid]| - 1; var tlb' := Forgotten(tlb, pid, n); var ps' := ps[pid := ps[pid][..n]];
      && pid != FREE && Unique(tlb)
      && Coherent(tlb', ps') && Views(tlb', ps') == Views(tlb, ps)[pid := Views(tlb, ps)[pid][..n]]
  {
    var n := |ps[pid]| - 1;
    var tlb', ps' := Forgotten(tlb, pid, n), ps[pid := ps[pid][..n]];
    var v := Find(tlb, pid, n);
    assert forall q, j :: HasPag(ps', q, j) <==> HasPag(ps, q, j) && (q, j) != (pid, n);
    forall q, j | q != FREE && (q, j) != (pid, n) ensures Find(tlb', q, j) == Find(tlb, q, j) {
      if v >= 0 { FindAfter(tlb, tlb', v, q, j); }
    }
    forall w | 0 <= w < |tlb'| && tlb'[w].pid != FREE ensures Backed(tlb'[w], ps') {
      assert tlb'[w] == tlb[w];
      assert Backed(tlb[w], ps);
    }
    var t := Views(tlb, ps)[pid := Views(tlb, ps)[pid][..n]];
    forall q, j | HasPage(t, q, j) ensures Views(tlb', ps')[q][j] == t[q][j] {
      assert HasPag(ps', q, j);
    }
    TablesEqual(Views(tlb', ps'), t);
  }

  /** The cache without the registers of process pid. */
  ghost function WithoutProcess(tlb: seq<Reg>, pid: int): (t: seq<Reg>)
    ensures |t| == |tlb|
    ensures forall w :: 0 <= w < |tlb| ==> t[w] == if tlb[w].pid == pid then tlb[w].(pid := FREE) else tlb[w]
  {
    seq(|tlb|, w requires 0 <= w < |tlb| => if tlb[w].pid == pid then tlb[w].(pid := FREE) else tlb[w])
  }

  lemma {:induction false} TableGoes(tlb: seq<Reg>, ps: Paginas, pid: int)
    requires Coherent(tlb, ps) && pid in ps
    ensures Coherent(WithoutProcess(tlb, pid), ps - {pid})
    ensures Views(WithoutProcess(tlb, pid), ps - {pid}) == Views(tlb, ps) - {pid}
  {
    var tlb', ps' := WithoutProcess(tlb, pid), ps - {pid};
    assert forall q, j :: HasPag(ps', q, j) <==> q != pid && HasPag(ps, q, j);
    forall w | 0 <= w < |tlb'| && tlb'[w].pid != FREE ensures Backed(tlb'[w], ps') {
      assert Backed(tlb[w], ps);
    }
    forall q, j | q != FREE && q != pid ensures Find(tlb', q, j) == Find(tlb, q, j) {
      var a, b := Find(tlb, q, j), Find(tlb', q, j);
      assert a >= 0 ==> tlb'[a] == tlb[a];
      assert b >= 0 ==> tlb'[b] == tlb[b];
      assert a >= 0 && b >= 0 ==> Is(tlb[a], q, j) && Is(tlb[b], q, j);
    }
    TablesEqual(Views(tlb', ps'), Views(tlb, ps) - {pid});
  }
}
