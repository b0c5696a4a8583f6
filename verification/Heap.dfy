/** The heap calls of a process: memalloc and memfree over its own memory, taken
    as one flat array of bytes (what `Server` shows the paged memory to be). */
module Heap {
  import opened Base
  import opened HeapChain

  /** `Broken`: the call crashed. */
  datatype Result = Block(dir: int) | Denied | Invalid | Broken

  datatype FreeResult = Freed | Rejected

  /** Pages as they come: whatever bytes they hold. */
  function Fresh(n: nat, junk: int -> Byte): (s: seq<Byte>)
    ensures |s| == n
  {
    seq(n, i => junk(i))
  }

  /** What a successful call leaves: a chain with one block more, at a place that was not
      in use, of exactly the size asked for, every other block and its bytes as before. */
  ghost predicate Answered(m0: seq<Byte>, s0: seq<Seg>, m1: seq<Byte>, s1: seq<Seg>, r: Result, tam: nat) {
    && Chain(m1, s1)
    && r.Block? && Live(s1, |m1|) == Live(s0, |m0|) + {(r.dir, tam)} && (r.dir, tam) !in Live(s0, |m0|)
    && Kept(m0, m1, Live(s0, |m0|))
  }

  /** Memory spells some such chain. */
  ghost predicate Met(m0: seq<Byte>, s0: seq<Seg>, m1: seq<Byte>, r: Result, tam: nat) {
    exists s1 :: Answered(m0, s0, m1, s1, r, tam)
  }

  /** Nothing in use comes after segment k: it is the last, or the last but one before a free one. */
  predicate Trails(s: seq<Seg>, k: int)
    requires 0 <= k < |s|
  {
    k + 1 == |s| || (k + 2 == |s| && s[k + 1].free)
  }

  /** Some block in use starts there. */
  ghost predicate InUse(live: set<(int, int)>, dir: int) {
    exists n :: (dir, n) in live
  }

  /** The reply to a request for tam bytes of a heap of segments s that fills `total` bytes, and
      the size of memory after it. If a free segment has room for tam bytes exactly, or for them
      and a header, the first such one gives the block, and memory grows at most by the page
      that follows an exact fit at the end. If none has, the block goes to the end of memory,
      grown by the fewest pages with which it fits there, or is denied if they are not on offer. */
  ghost predicate FirstFitReply(s: seq<Seg>, total: int, tam: int, page: nat, offer: int, r: Result, after: int)
    requires |s| > 0
  {
    && ((exists i :: 0 <= i < |s| && s[i].free && (Room(s, total, i) == tam || Room(s, total, i) >= tam + SIZE)) ==>
          (exists k ::
             && 0 <= k < |s| && s[k].free && (Room(s, total, k) == tam || Room(s, total, k) >= tam + SIZE)
             && (forall j :: 0 <= j < k && s[j].free ==> Room(s, total, j) != tam && Room(s, total, j) < tam + SIZE)
             && r == Block(s[k].start + SIZE)
             && after == total + (if k + 1 == |s| && Room(s, total, k) == tam && offer >= 1 then page else 0)))
    && ((forall i :: 0 <= i < |s| && s[i].free ==> Room(s, total, i) != tam && Room(s, total, i) < tam + SIZE) ==>
          var free := s[|s| - 1].free;
          var room := if free then Room(s, total, |s| - 1) else -SIZE;
          if r.Block? then
            && r.dir == (if free then s[|s| - 1].start else total) + SIZE
            && (exists n :: 0 < n <= offer && after == total + n * page &&
                  (room + n * page == tam || room + n * page >= tam + SIZE) &&
                  forall m :: 0 <= m < n ==> room + m * page != tam && room + m * page < tam + SIZE)
          else r == Denied && forall n :: 0 <= n <= offer ==> room + n * page != tam && room + n * page < tam + SIZE)
  }

  class Process {
    const page: nat
    const ramSize: int
    const repaired: bool
    var mem: seq<Byte>
    ghost var segs: seq<Seg>

    ghost predicate Valid()
      reads this
    {
      && page >= SIZE && |mem| % page == 0 && |mem| < 0x8000_0000
      && (mem == [] <==> segs == [])
      && (mem != [] ==> Chain(mem, segs) && NoFreePair(segs))
    }

    ghost function Blocks(): set<(int, int)>
      reads this
    {
      Live(segs, |mem|)
    }

    constructor (pageSize: nat, ram: int, mended: bool)
      requires pageSize >= SIZE
      ensures Valid() && page == pageSize && ramSize == ram && repaired == mended && mem == []
    {
      page, ramSize, repaired := pageSize, ram, mended;
      mem, segs := [], [];
    }

    /** memoria_escribir_por_dirlog of a header. */
    method EscribirMeta(a: int, h: Header)
      requires 0 <= a && a + SIZE <= |mem| && Small(h.prev) && Small(h.next)
      modifies `mem
      ensures |mem| == |old(mem)| && HeaderAt(mem, a) == h && SameBut(old(mem), mem, {a})
      ensures mem == Written(old(mem), a, HeaderBytes(h))
    {
      WriteThenRead(mem, a, h);
      mem := Written(mem, a, HeaderBytes(h));
    }

    /** paginas_agregar */
    method AgregarPaginas(n: nat, junk: int -> Byte)
      modifies `mem
      ensures |mem| == |old(mem)| + n * page && mem == old(mem) + Fresh(n * page, junk) && mem[..|old(mem)|] == old(mem)
    {
      assert n * page >= 0;
      mem := mem + Fresh(n * page, junk);
    }

    /** heap_init. marco says whether a frame can be had for the page. If not, the code as
        written keeps the page it was granted, whatever it holds, as a heap without a header. */
    method HeapInit(offer: int, marco: bool, junk: int -> Byte) returns (ok: bool)
      requires Valid() && mem == [] && page < 0x8000_0000
      modifies `mem, `segs
      ensures ok <==> offer >= 1 && marco
      ensures ok ==> Valid() && segs == [Seg(0, true)] && |mem| == page
      ensures !ok ==> segs == [] && mem == if offer >= 1 && !repaired then Fresh(page, junk) else []
    {
      assert segs == [];
      if offer < 1 { return false; }
      AgregarPaginas(1, junk);
      assert 1 * page == page;
      if !marco {
        assert mem == Fresh(page, junk);
        if repaired { mem := []; }
        return false;
      }
      EscribirMeta(0, Header(FIRST, LAST, true));
      segs := [Seg(0, true)];
      assert Here(mem, segs, 0);
      return true;
    }

    // ------------------------------------------------ the branches of memalloc

    /** A segment is taken as it is: its header alone changes. */
    method TomarJusto(inicio: int, ptr: Header, ghost i: int)
      requires Valid() && 0 <= i < |segs| && segs[i].free && inicio == segs[i].start && ptr == HeaderOf(segs, i)
      modifies `mem, `segs
      ensures Valid() && |mem| == |old(mem)| && Kept(old(mem), mem, old(Blocks()))
      ensures Blocks() == old(Blocks()) + {(inicio + SIZE, Room(old(segs), |mem|, i))}
    {
      ghost var s, total := segs, |mem|;
      hide Chain, NoFreePair, Live, HeaderAt, SameBut, Kept, TakenWhole;
      SegFacts(mem, s, i);
      EscribirMeta(inicio, ptr.(free := false));
      segs := TakenWhole(s, i);
      TakeWhole(old(mem), mem, s, i);
      ChainSome(mem, segs);
    }

    /** A segment is split: the front part is taken, the rest is a new free one. */
    method Partir(inicio: int, ptr: Header, tam: nat, ghost i: int)
      requires Valid() && 0 <= i < |segs| && segs[i].free && inicio == segs[i].start && ptr == HeaderOf(segs, i)
      requires Room(segs, |mem|, i) >= tam + SIZE
      modifies `mem, `segs
      ensures Valid() && |mem| == |old(mem)| && Kept(old(mem), mem, old(Blocks()))
      ensures Blocks() == old(Blocks()) + {(inicio + SIZE, tam)}
    {
      ghost var s, total := segs, |mem|;
      hide Chain, NoFreePair, Live, HeaderAt, SameBut, Kept, TakenFront;
      SegFacts(mem, s, i);
      var h := inicio + SIZE + tam;
      EscribirMeta(inicio, ptr.(free := false, next := h));
      ghost var m1 := mem;
      if ptr.next != LAST {
        NextHeader(old(mem), m1, s, i);
        var siguiente := HeaderAt(mem, ptr.next);
        EscribirMeta(ptr.next, siguiente.(prev := h));
      }
      ghost var m2 := mem;
      EscribirMeta(h, Header(inicio, ptr.next, true));
      segs := TakenFront(s, i, h);
      TakeFront(old(mem), m1, m2, mem, s, i, h);
      ChainSome(mem, segs);
    }

    /** The free last segment is taken and memory grows by n pages. What is left after
        the block becomes the new last segment, if the bounds test lets its header be
        written: where nothing is left, the block points at the end of memory instead. */
    method CrecerLibre(inicio: int, ptr: Header, tam: nat, n: nat, junk: int -> Byte, ghost i: int)
      requires Valid() && 0 <= i == |segs| - 1 && segs[i].free && inicio == segs[i].start && ptr == HeaderOf(segs, i)
      requires |mem| + n * page < 0x8000_0000 && |mem| <= inicio + SIZE + tam + SIZE
      requires var h := inicio + SIZE + tam; h == |mem| + n * page || h + SIZE <= |mem| + n * page
      modifies `mem, `segs
      ensures |mem| == |old(mem)| + n * page
      ensures inicio + SIZE + tam < |mem| ==>
                Valid() && Kept(old(mem), mem, old(Blocks())) && Blocks() == old(Blocks()) + {(inicio + SIZE, tam)}
      ensures inicio + SIZE + tam == |mem| ==> segs == old(segs) && forall b :: !Chain(mem, b)
    {
      ghost var s := segs;
      hide Chain, NoFreePair, Live, HeaderAt, SameBut, Kept, TakenFront;
      SegFacts(mem, s, i);
      var h := inicio + SIZE + tam;
      EscribirMeta(inicio, ptr.(free := false, next := h));
      ghost var m1 := mem;
      AgregarPaginas(n, junk);
      ghost var m2 := mem;
      MorePages(|old(mem)|, n, page);
      PastTheEnd(h, |mem|, page);
      if Readable(h) {
        EscribirMeta(h, Header(inicio, LAST, true));
        segs := TakenFront(s, i, h);
        GrowFree(old(mem), m1, m2, mem, s, i, h);
        ChainSome(mem, segs);
      } else {
        NoChainOverrun(old(mem), m1, m2, s, i);
      }
    }

    /** The free last segment and n new pages are just enough. */
    method CrecerJusto(inicio: int, ptr: Header, n: nat, junk: int -> Byte, ghost i: int)
      requires Valid() && 0 <= i == |segs| - 1 && segs[i].free && inicio == segs[i].start && ptr == HeaderOf(segs, i)
      requires |mem| + n * page < 0x8000_0000
      modifies `mem, `segs
      ensures Valid() && |mem| == |old(mem)| + n * page && Kept(old(mem), mem, old(Blocks()))
      ensures Blocks() == old(Blocks()) + {(inicio + SIZE, |mem| - inicio - SIZE)}
    {
      ghost var s := segs;
      hide Chain, NoFreePair, Live, HeaderAt, SameBut, Kept, TakenWhole;
      SegFacts(mem, s, i);
      AgregarPaginas(n, junk);
      ghost var m1 := mem;
      assert n * page >= 0;
      PrefixHeader(old(mem), m1, inicio);
      EscribirMeta(inicio, ptr.(free := false));
      segs := TakenWhole(s, i);
      GrowWhole(old(mem), m1, mem, s, i);
      ChainSome(mem, segs);
      MorePages(|old(mem)|, n, page);
    }

    /** The last segment is in use: the block goes to n new pages, with a free segment
        after it unless it ends where they do. */
    method Extender(inicio: int, ptr: Header, tam: nat, n: nat, junk: int -> Byte, ghost i: int)
      requires Valid() && 0 <= i == |segs| - 1 && !segs[i].free && inicio == segs[i].start && ptr == HeaderOf(segs, i)
      requires |mem| + n * page < 0x8000_0000
      requires tam + SIZE == n * page || tam + SIZE + SIZE <= n * page
      modifies `mem, `segs
      ensures Valid() && |mem| == |old(mem)| + n * page && Kept(old(mem), mem, old(Blocks()))
      ensures Blocks() == old(Blocks()) + {(|old(mem)| + SIZE, tam)}
    {
      ghost var s := segs;
      hide Chain, NoFreePair, Live, HeaderAt, SameBut, Kept, Extended;
      SegFacts(mem, s, i);
      var nuevo := |mem|;
      var justo := tam + SIZE == n * page;
      EscribirMeta(inicio, ptr.(next := nuevo));
      ghost var m1 := mem;
      AgregarPaginas(n, junk);
      ghost var m2 := mem;
      var h := nuevo + SIZE + tam;
      if !justo { EscribirMeta(h, Header(nuevo, LAST, true)); }
      ghost var m3 := mem;
      EscribirMeta(nuevo, Header(inicio, if justo then LAST else h, false));
      segs := Extended(s, i, nuevo, h, justo);
      Extend(old(mem), m1, m2, m3, mem, s, i, h, justo);
      ChainSome(mem, segs);
      MorePages(|old(mem)|, n, page);
    }

    /** memoria_escribir of a header where no segment comes before the last, at FIRST: the
        code as written then writes at offset -2 of page 0, if the bounds test allows. Two
        of the bytes fall before that page's frame: the end of page vecino, if one of the
        process's pages is there. */
    method EscribirEnFirst(h: Header, vecino: int)
      requires mem != [] && page >= SIZE && |mem| % page == 0 && Small(h.next) && h.prev == FIRST
      modifies `mem
      ensures |mem| == |old(mem)|
      ensures |mem| < SIZE - FIRST ==> mem == old(mem)
      ensures |mem| >= SIZE - FIRST ==> mem[0] == 255 && mem[..7] == HeaderBytes(h)[2..]
    {
      if |mem| + FIRST < SIZE { return; }
      mem := Written(mem, 0, HeaderBytes(h)[2..]);
      assert mem[..7] == HeaderBytes(h)[2..] && mem[0] == mem[..7][0];
      if 0 < vecino < |mem| / page {
        InPage(vecino, |mem|, page);
        ghost var m := mem;
        mem := Written(mem, vecino * page + page - 2, HeaderBytes(h)[..2]);
        assert mem[..7] == m[..7];
      }
    }

    /** Growth after a last segment in use, as written: the last segment's header goes
        over the one before it, and the block to page 1, wherever memory ends. */
    method ExtenderPisando(previo: int, ptr: Header, tam: nat, n: nat, junk: int -> Byte, vecino: int, ghost i: int)
      requires Valid() && 0 <= i == |segs| - 1 && !segs[i].free && ptr == HeaderOf(segs, i) && previo == ptr.prev
      requires |mem| + n * page < 0x8000_0000 && n > 0
      requires tam + SIZE == n * page || tam + SIZE + SIZE <= n * page
      modifies `mem
      ensures |mem| == |old(mem)| + n * page
      ensures !Met(old(mem), segs, mem, Block(page + SIZE), tam)
      ensures TailsClear(segs, page, page + SIZE + tam) && (i == 0 ==> |old(mem)| >= SIZE - FIRST) ==>
                forall b :: !Chain(mem, b)
      ensures i > 0 ==> CanOvergrow(old(mem), page, previo, tam, n) &&
                        mem == Overgrown(old(mem), page, previo, tam, n, junk)
    {
      ghost var s, m0 := segs, mem;
      hide Chain, NoFreePair, Live, HeaderAt, SameBut, Kept, TailsClear, Met, Written, HeaderBytes, Fresh;
      SegFacts(mem, s, i);
      WholePage(|mem|, page);
      MulGrows(1, n, page);
      if i > 0 { SegFacts(mem, s, i - 1); }
      if previo == FIRST {
        EscribirEnFirst(ptr.(next := page), vecino);
      } else {
        EscribirMeta(previo, ptr.(next := page));
        assert SelfBack(m0, mem, s[|s| - 2].start);
      }
      ghost var m1 := mem;
      AgregarPaginas(n, junk);
      ghost var m2 := mem;
      var justo := tam + SIZE == n * page;
      var h := page + SIZE + tam;
      if !justo { EscribirMeta(h, Header(page, LAST, true)); }
      ghost var m3 := mem;
      EscribirMeta(page, Header(previo, if justo then LAST else h, false));
      Trample(m0, m1, m2, m3, mem, s, page, tam, justo);
    }

    /** hay_cambio_de_pagina */
    method HayCambioDePagina(desde: int, hasta: int) returns (b: bool)
      requires page > 0
      ensures b <==> exists x :: desde < x <= hasta && x % page == 0
    {
      var i := desde + 1;
      while i <= hasta
        invariant desde < i && forall x :: desde < x < i ==> x % page != 0
      {
        if i % page == 0 { return true; }
        i := i + 1;
      }
      return false;
    }

    /** The last segment does not fit either: pages are asked for. */
    method PedirYCrecer(inicio: int, previo: int, ptr: Header, tam: nat, offer: int, junk: int -> Byte, vecino: int,
                        ghost i: int)
      returns (r: Result)
      requires Valid() && 0 <= i == |segs| - 1 && inicio == segs[i].start && ptr == HeaderOf(segs, i) && tam > 0
      requires previo == ptr.prev && FirstFit(segs, |mem|, tam, 0) == |segs|
      requires !FitsIn(segs, |mem|, i, tam) && |mem| + (if offer > 0 then offer * page else 0) < 0x8000_0000
      modifies `mem, `segs
      ensures r.Block? || r.Denied?
      ensures r.Denied? <==> PagesNeeded(old(segs), |old(mem)|, tam, page) > offer
      ensures r.Denied? ==> mem == old(mem) && segs == old(segs)
      ensures r.Block? ==> |mem| == |old(mem)| + PagesNeeded(old(segs), |old(mem)|, tam, page) * page
      ensures repaired && r.Block? ==> r.dir == (if old(segs)[i].free then inicio else |old(mem)|) + SIZE
      ensures repaired || !Outgrown(old(segs), |old(mem)|, tam, page, offer) ==> Valid()
      ensures r.Block? && (repaired || !Outgrown(old(segs), |old(mem)|, tam, page, offer)) ==>
                Answered(old(mem), old(segs), mem, segs, r, tam)
      ensures !repaired && Outgrown(old(segs), |old(mem)|, tam, page, offer) ==>
                !Met(old(mem), old(segs), mem, r, tam) && LeavesNoChain(old(segs), |old(mem)|, tam, page, mem)
    {
      hide Chain, NoFreePair, Live, HeaderAt, Kept, Met, Answered, FirstFit, Outgrown, PagesNeeded, LeavesNoChain,
           CanOvergrow, Overgrown;
      SegFacts(mem, segs, i);
      var espacio := |mem| - SIZE - inicio;
      var faltantes := if ptr.free then tam - espacio else tam + SIZE;
      var exacto := faltantes % page == 0;
      if faltantes % page != 0 { faltantes := faltantes + SIZE; }
      var paginas := faltantes / page;
      if faltantes % page != 0 { paginas := paginas + 1; }
      GrowthNeeds(segs, |mem|, tam, page, offer);
      if paginas > offer { return Denied; }
      MulGrows(paginas, offer, page);
      if ptr.free {
        PrecedenceSlip(tam, espacio, page);
        FreeNotLive(segs, |mem|, i, tam);
        var justo := if repaired then (tam - espacio) % page == 0 else tam - espacio % page == 0;
        r := Block(inicio + SIZE);
        if justo {
          CrecerJusto(inicio, ptr, paginas, junk, i);
        } else {
          CrecerLibre(inicio, ptr, tam, paginas, junk, i);
        }
        if exacto && !repaired {
          NoneMet(old(mem), old(segs), mem, r, tam);
          TailLost(old(segs), |old(mem)|, tam, page, mem);
        } else {
          AnsweredIs(old(mem), old(segs), mem, segs, inicio + SIZE, tam);
        }
        return;
      }
      EndNotLive(segs, |mem|, tam);
      if repaired {
        r := Block(|mem| + SIZE);
        Extender(inicio, ptr, tam, paginas, junk, i);
        AnsweredIs(old(mem), old(segs), mem, segs, r.dir, tam);
      } else {
        ExtenderPisando(previo, ptr, tam, paginas, junk, vecino, i);
        r := Block(page + SIZE);
        TailLost(old(segs), |old(mem)|, tam, page, mem);
      }
    }

    /** A segment that fits is taken, whole or in part; the answers the code as written
        gives where it slips are kept. */
    method Tomar(inicio: int, ptr: Header, tam: nat, offer: int, junk: int -> Byte, ghost i: int) returns (r: Result)
      requires Valid() && 0 <= i < |segs| && inicio == segs[i].start && ptr == HeaderOf(segs, i) && tam > 0
      requires FitsIn(segs, |mem|, i, tam) && |mem| + (if offer > 0 then offer * page else 0) < 0x8000_0000
      modifies `mem, `segs
      ensures Valid() && !r.Invalid?
      ensures var last := i == |old(segs)| - 1;
        var whole := Room(old(segs), |old(mem)|, i) == tam;
        var slip := if whole then !last else last && OnBoundary(inicio + SIZE + tam, page);
        && (r.Block? <==> repaired || whole || !slip)
        && (r.Block? ==> r.dir == inicio + SIZE)
        && (Answered(old(mem), old(segs), mem, segs, r, tam) <==> repaired || !slip)
        && (slip && !repaired ==> mem == old(mem) && segs == old(segs))
        && (repaired || !slip ==> |mem| == |old(mem)| + (if last && whole && offer >= 1 then page else 0))
    {
      hide Chain, NoFreePair, Live, HeaderAt, Kept;
      SegFacts(mem, segs, i);
      FreeNotLive(segs, |mem|, i, tam);
      var magico := if ptr.next == LAST then |mem| else ptr.next;
      var espacio := magico - SIZE - inicio;
      r := Block(inicio + SIZE);
      if espacio == tam {
        if ptr.next == LAST {
          if offer >= 1 {
            MulGrows(1, offer, page);
            CrecerLibre(inicio, ptr, tam, 1, junk, i);
            return;
          }
        } else if !repaired {
          return;
        }
        TomarJusto(inicio, ptr, i);
        return;
      }
      if ptr.next == LAST && !repaired {
        var cambia := HayCambioDePagina(inicio + SIZE + tam - 1, inicio + tam + SIZE * 2 - 1);
        BoundaryRange(inicio + SIZE + tam, page);
        if cambia {
          var sobrantes := espacio - tam - SIZE;
          return if sobrantes / page == 0 then Broken else Denied;
        }
      }
      Partir(inicio, ptr, tam, i);
    }

    /** The walk of memalloc: the first segment that fits, or the end. */
    method Asignar(tam: nat, offer: int, junk: int -> Byte, vecino: int) returns (r: Result)
      requires Valid() && mem != [] && tam > 0 && |mem| + (if offer > 0 then offer * page else 0) < 0x8000_0000
      modifies `mem, `segs
      ensures old(segs) != [] && !r.Invalid?
      ensures Met(old(mem), old(segs), mem, r, tam) <==>
                Served(old(segs), |old(mem)|, tam, page, offer) &&
                (repaired || !SlipsIn(old(segs), |old(mem)|, tam, page, offer))
      ensures Met(old(mem), old(segs), mem, r, tam) ==>
                Answered(old(mem), old(segs), mem, segs, r, tam) &&
                |mem| == |old(mem)| + Growth(old(segs), |old(mem)|, tam, page, offer) * page
      ensures repaired || !Outgrown(old(segs), |old(mem)|, tam, page, offer) ==> Valid()
      ensures if !repaired && Outgrown(old(segs), |old(mem)|, tam, page, offer) then
                r.Block? && LeavesNoChain(old(segs), |old(mem)|, tam, page, mem)
              else
                Met(old(mem), old(segs), mem, r, tam) || (mem == old(mem) && segs == old(segs))
      ensures var k := FirstFit(old(segs), |old(mem)|, tam, 0);
        r.Block? && k < |old(segs)| ==> r.dir == old(segs)[k].start + SIZE
      ensures r.Broken? ==> !repaired
      ensures repaired ==>
                Replied(old(segs), |old(mem)|, tam, page, offer, r, |mem|)
    {
      hide Chain, NoFreePair, Live, HeaderAt, Kept, Answered, Met, LeavesNoChain, OnBoundary, PagesNeeded, Tiling;
      ChainSome(mem, segs);
      SegFacts(mem, segs, 0);
      StartsAtZero(mem, segs);
      var inicio, previo, ptr := 0, FIRST, HeaderAt(mem, 0);
      ghost var i := 0;
      while true
        invariant Valid() && mem == old(mem) && segs == old(segs)
        invariant 0 <= i < |segs| && inicio == segs[i].start && ptr == HeaderOf(segs, i) && previo == ptr.prev
        invariant FirstFit(segs, |mem|, tam, 0) == FirstFit(segs, |mem|, tam, i)
        decreases |segs| - i
      {
        SegFacts(mem, segs, i);
        NeverInconsistent(mem, segs, i);
        assert !(ptr.prev > ptr.next && ptr.next != LAST && ptr.prev >= 0) && !(ptr.next <= inicio && ptr.next != LAST);
        var magico := if ptr.next == LAST then |mem| else ptr.next;
        var espacio := magico - SIZE - inicio;
        if ptr.free && (espacio == tam || espacio >= tam + SIZE) {
          r := Tomar(inicio, ptr, tam, offer, junk, i);
          OnlyChain(old(mem), old(segs), mem, segs, r, tam);
          return;
        }
        if ptr.next == LAST {
          r := PedirYCrecer(inicio, previo, ptr, tam, offer, junk, vecino, i);
          OnlyBlocks(old(mem), old(segs), mem, r, tam);
          return;
        }
        previo, inicio := inicio, ptr.next;
        i := i + 1;
        SegFacts(mem, segs, i);
        ptr := HeaderAt(mem, inicio);
      }
    }

    /** memalloc. offer is how many more pages the swap store would grant; vecino is the
        page of this process, if any, whose frame comes before page 0's; marco says whether
        a frame can be had for the first page of all. */
    method Memalloc(tam: nat, offer: int, marco: bool, junk: int -> Byte, vecino: int) returns (r: Result)
      requires Valid() && page < 0x8000_0000 && |mem| + (if offer > 0 then offer * page else 0) < 0x8000_0000
      modifies `mem, `segs
      ensures r == Invalid <==> tam == 0
      ensures r == Invalid ==> mem == old(mem) && segs == old(segs)
      ensures r.Broken? ==> !repaired
      ensures tam > 0 ==>
                (Met(old(mem), old(segs), mem, r, tam) <==>
                   CanServe(old(segs), |old(mem)|, tam, page, offer) && (old(mem) != [] || marco) &&
                   (repaired || !Slips(old(segs), |old(mem)|, tam, page, offer)))
      ensures tam > 0 && Met(old(mem), old(segs), mem, r, tam) ==>
                Answered(old(mem), old(segs), mem, segs, r, tam) &&
                |mem| == SizeAfter(old(segs), |old(mem)|, tam, page, offer)
      ensures tam > 0 && old(mem) == [] && offer >= 1 && !marco ==>
                r == Denied && segs == [] && mem == if repaired then [] else Fresh(page, junk)
      ensures tam == 0 || repaired ||
              (if old(mem) == [] && !marco then offer < 1
               else !Outgrows(old(segs), |old(mem)|, tam, page, offer)) ==>
                Valid()
      ensures tam > 0 && !repaired && (old(mem) != [] || marco) &&
              Outgrows(old(segs), |old(mem)|, tam, page, offer) ==>
                r.Block? && LeavesNoChain(Opened(old(segs)), OpenedSize(old(segs), |old(mem)|, page), tam, page, mem)
      ensures tam > 0 && (repaired || (old(mem) == [] && !marco) ||
                          !Outgrows(old(segs), |old(mem)|, tam, page, offer)) ==>
                Met(old(mem), old(segs), mem, r, tam) ||
                (Blocks() == old(Blocks()) && Kept(old(mem), mem, old(Blocks())))
      ensures old(mem) != [] && r.Block? ==>
                var k := FirstFit(old(segs), |old(mem)|, tam, 0);
                k < |old(segs)| ==> r.dir == old(segs)[k].start + SIZE
      ensures repaired && tam > 0 && (old(mem) != [] || (offer >= 1 && marco)) ==>
                if old(mem) == [] then FirstFitReply([Seg(0, true)], page, tam, page, offer - 1, r, |mem|)
                else FirstFitReply(old(segs), |old(mem)|, tam, page, offer, r, |mem|)
    {
      hide Chain, NoFreePair, HeaderAt, Answered, Met, Outgrown, LeavesNoChain, Served, SlipsIn, Live, Kept, Growth,
           FirstFit, Replied, FirstFitReply;
      if tam == 0 { return Invalid; }
      var oferta := offer;
      NothingLive(old(mem), |mem|);
      if |mem| == 0 {
        var ok := HeapInit(offer, marco, junk);
        NothingLive(old(mem), |mem|);
        OnlyBlocks(old(mem), old(segs), mem, Denied, tam);
        if !ok { return Denied; }
        oferta := offer - 1;
        assert offer * page == (offer - 1) * page + page;
      } else {
        KeptSelf(mem, segs);
      }
      ghost var m, s := mem, segs;
      r := Asignar(tam, oferta, junk, vecino);
      MetFromEmpty(old(mem), old(segs), m, s, mem, segs, r, tam);
      if repaired { RepliedMeans(s, |m|, tam, page, oferta, r, |mem|); }
    }

    // -------------------------------------------------------------- memfree

    /** read_verify_size for the nine bytes at a; the code as written adds the offset. */
    predicate Readable(a: int)
      reads this
      requires page > 0 && a >= 0
    {
      if repaired then a + SIZE <= |mem| else |mem| - (a / page * page - a % page) >= SIZE
    }

    /** The merge with a free right neighbour: p is the header being freed. */
    method UnirDerecha(inicio: int, p: Header, ghost k: int) returns (q: Header, ghost at: set<int>)
      requires Valid() && 0 <= k < |segs| && !segs[k].free && inicio == segs[k].start &&
               p == HeaderOf(segs, k).(free := true)
      modifies `mem
      ensures q == p.(next := HeaderOf(segs, RightEnd(segs, k) - 1).next)
      ensures Halfway(old(mem), mem, segs, k, RightEnd(segs, k), at)
    {
      hide Chain, NoFreePair, HeaderAt, Halfway;
      q, at := p, {};
      SegFacts(mem, segs, k);
      HalfwayStarts(mem, segs, k);
      if p.next != LAST {
        SegFacts(mem, segs, k + 1);
        var derecha := HeaderAt(mem, p.next);
        if derecha.free {
          q := q.(next := derecha.next);
          if q.next != LAST {
            SegFacts(mem, segs, k + 2);
            var siguiente := HeaderAt(mem, q.next);
            SmallStarts(segs, |mem|, k);
            EscribirMeta(q.next, siguiente.(prev := inicio));
            at := {segs[k + 2].start};
          }
          HalfwayRight(old(mem), mem, segs, k, at);
        }
      }
    }

    /** The merge with a free left neighbour, whose own left neighbour is rewritten. */
    method UnirIzquierda(inicio: int, p: Header, ghost m0: seq<Byte>, ghost k: int, ghost hi: int, ghost at0: set<int>)
      returns (donde: int, q: Header, ghost at: set<int>)
      requires Chain(m0, segs) && 0 <= k < |segs| && k < hi && Halfway(m0, mem, segs, k, hi, at0)
      requires inicio == segs[k].start && p.prev == HeaderOf(segs, k).prev
      modifies `mem
      ensures Halfway(m0, mem, segs, k, hi, at)
      ensures var lo := LeftStart(segs, k); donde == segs[lo].start && q == p.(prev := HeaderOf(segs, lo).prev)
    {
      hide Chain, HeaderAt, Halfway;
      donde, q, at := inicio, p, at0;
      HalfwaySize(m0, mem, segs, k, hi, at0);
      SegFacts(m0, segs, k);
      if k > 0 { SegFacts(m0, segs, k - 1); }
      if k > 1 { SegFacts(m0, segs, k - 2); }
      if p.prev != FIRST {
        HalfwayAt(m0, mem, segs, k, hi, at0, k - 1);
        var izquierda := HeaderAt(mem, p.prev);
        if izquierda.free {
          donde := p.prev;
          q := q.(prev := izquierda.prev);
          if q.prev != FIRST {
            HalfwayAt(m0, mem, segs, k, hi, at0, k - 2);
            var anterior := HeaderAt(mem, q.prev);
            ghost var m := mem;
            EscribirMeta(q.prev, anterior.(next := donde));
            at := at0 + {segs[k - 2].start};
            HalfwayLeft(m0, m, mem, segs, k, hi, at0);
          }
        }
      }
    }

    /** memfree of a block's address, or of one it turns down. A free last segment
        gives its whole pages back. As written, a merge to the left leaves the next
        segment pointing at a header that is no more. */
    method Memfree(dir: int, ghost k: int) returns (r: FreeResult)
      requires Valid() && mem != [] && SIZE <= dir
      requires dir < ramSize && Readable(dir - SIZE) ==> 0 <= k < |segs| && segs[k].start + SIZE == dir
      modifies `mem, `segs
      ensures r == Freed <==> dir < ramSize && InUse(old(Blocks()), dir)
      ensures r == Rejected ==> mem == old(mem) && segs == old(segs)
      ensures r == Freed ==>
                0 <= k < |old(segs)| && BlockOf(old(segs), |old(mem)|, k) in old(Blocks()) &&
                    dir == BlockOf(old(segs), |old(mem)|, k).0
      ensures var s := old(segs);
              r == Freed && (repaired || k == 0 || !s[k - 1].free || Trails(s, k)) ==>
                && Valid() && Blocks() == old(Blocks()) - {BlockOf(s, |old(mem)|, k)}
                && Kept(old(mem), mem, Blocks()) && |mem| <= |old(mem)|
                && (if Trails(s, k) then segs != [] && segs[|segs| - 1].free && Room(segs, |mem|, |segs| - 1) < page
                    else |mem| == |old(mem)|)
      ensures r == Freed && !repaired && k > 0 && old(segs)[k - 1].free && !Trails(old(segs), k) ==>
                forall b :: !Chain(mem, b)
    {
      hide Chain, NoFreePair, HeaderAt, Halfway, Live, Kept, SameBut;
      BlocksReadable(mem, segs, dir, page, repaired);
      if dir >= ramSize { return Rejected; }
      if !Readable(dir - SIZE) { return Rejected; }
      SegFacts(mem, segs, k);
      BlockAt(segs, |mem|, k);
      var p := HeaderAt(mem, dir - SIZE);
      if p.free { return Rejected; }
      r := Freed;
      ghost var m0 := mem;
      var inicio, ultimo := Unir(dir - SIZE, p.(free := true), k);
      if ultimo {
        ghost var m3 := mem;
        Devolver(inicio);
        KeptJoin(m0, m3, mem, Live(segs, |m3|));
      }
    }

    /** The merges of memfree: p is the header of the segment being freed. */
    method Unir(dir: int, p: Header, ghost k: int) returns (inicio: int, ultimo: bool)
      requires Valid() && 0 <= k < |segs| && !segs[k].free && dir == segs[k].start
      requires p == HeaderOf(segs, k).(free := true)
      modifies `mem, `segs
      ensures |mem| == |old(mem)| && (ultimo <==> RightEnd(old(segs), k) == |old(segs)|)
      ensures repaired || !LeftThenMore(old(segs), k) ==>
                Valid() && Blocks() == old(Blocks()) - {BlockOf(old(segs), |mem|, k)} && Kept(old(mem), mem, Blocks())
      ensures !repaired && LeftThenMore(old(segs), k) ==> forall b :: !Chain(mem, b)
      ensures ultimo ==> mem != [] && segs != [] && segs[|segs| - 1] == Seg(inicio, true)
    {
      hide Chain, NoFreePair, HeaderAt, Halfway, Live, Kept, SameBut;
      ghost var m0, s, lo, hi := mem, segs, LeftStart(segs, k), RightEnd(segs, k);
      SegFacts(m0, s, k);
      SegFacts(m0, s, lo);
      SegFacts(m0, s, hi - 1);
      var q;
      ghost var at;
      q, at := UnirDerecha(dir, p, k);
      inicio, q, at := UnirIzquierda(dir, q, m0, k, hi, at);
      HalfwaySize(m0, mem, s, k, hi, at);
      ghost var m1 := mem;
      if repaired && q.next != LAST {
        HalfwayNext(m0, m1, s, k, hi, at);
        EscribirMeta(q.next, HeaderAt(mem, q.next).(prev := inicio));
      }
      ghost var m2 := mem;
      EscribirMeta(inicio, q);
      segs := Merged(s, k);
      if repaired || !LeftThenMore(s, k) {
        FreeWritten(m0, m1, m2, mem, s, k, at, repaired);
        ChainSome(mem, segs);
      } else {
        NoChainLeft(m0, m1, mem, s, k, at);
      }
      ultimo := q.next == LAST;
      if ultimo { LastIsMerged(m0, s, k); }
    }

    /** The page release of memfree: a free last segment keeps less than a page. */
    method Devolver(inicio: int)
      requires Valid() && mem != [] && segs[|segs| - 1].free && segs[|segs| - 1].start == inicio
      modifies `mem
      ensures Valid() && mem != [] && |mem| <= |old(mem)| && Blocks() == old(Blocks()) && Kept(old(mem), mem, Blocks())
      ensures Room(segs, |mem|, |segs| - 1) < page
    {
      hide Chain, NoFreePair, Live, Kept;
      ghost var m0 := mem;
      SegFacts(mem, segs, |segs| - 1);
      KeptSelf(mem, segs);
      var espacio := |mem| - SIZE - inicio;
      if espacio >= page {
        var cant := espacio / page;
        assert espacio == cant * page + espacio % page;
        for i := 0 to cant
          invariant |m0| - i * page >= inicio + SIZE && mem == m0[..|m0| - i * page]
        {
          assert (i + 1) * page == i * page + page;
          MulGrows(i + 1, cant, page);
          assert m0[..|m0| - i * page][..|m0| - i * page - page] == m0[..|m0| - i * page - page];
          mem := mem[..|mem| - page];
        }
        Shrink(m0, segs, |m0| - cant * page);
        FewerPages(|m0|, cant, page);
      }
    }
  }

  /** A page left without a header: if it holds zeros, as the swap store wipes what it
      hands out, the walk of the next memalloc finds it inconsistent and aborts. */
  lemma {:induction false} StrandedAborts(mem: seq<Byte>)
    requires |mem| >= SIZE && forall x :: 0 <= x < SIZE ==> mem[x] == 0
    ensures var h := HeaderAt(mem, 0); h == Header(0, 0, false) && h.next <= 0 && h.next != LAST
  {
    assert mem[0..4] == [0, 0, 0, 0] && mem[4..8] == [0, 0, 0, 0];
  }

  lemma {:induction false} MorePages(a: nat, n: nat, page: nat)
    requires page > 0 && a % page == 0
    ensures (a + n * page) % page == 0
  {
    PieceOf(a / page + n, 0, page);
    assert (a / page + n) * page == a / page * page + n * page;
  }

  /** Whole pages: either bounds test turns down a header at their end, and none before. */
  lemma {:induction false} PastTheEnd(h: int, total: int, page: nat)
    requires page >= SIZE && 0 <= h && total % page == 0 && (h == total || h + SIZE <= total)
    ensures h + SIZE <= total <==> total - (h / page * page - h % page) >= SIZE
  {
    assert h == h / page * page + h % page;
  }

  lemma {:induction false} InPage(p: int, total: int, page: nat)
    requires page > 0 && 0 < p < total / page
    ensures page <= p * page && p * page + page <= total
  {
    assert total == total / page * page + total % page;
    MulGrows(p + 1, total / page, page);
    MulGrows(1, p, page);
    assert (p + 1) * page == p * page + page;
  }

  lemma {:induction false} WholePage(total: int, page: nat)
    requires page > 0 && total > 0 && total % page == 0
    ensures page <= total
  {
    assert total == total / page * page;
    if total / page >= 1 { MulGrows(1, total / page, page); }
  }

  lemma {:induction false} SmallStarts(segs: seq<Seg>, total: int, i: int)
    requires Tiling(segs, total) && 0 <= i < |segs|
    ensures Small(HeaderOf(segs, i).prev) && Small(HeaderOf(segs, i).next) && Small(segs[i].start) && Small(total)
  {
    Ordered(segs, total, i, i);
    if i > 0 { Ordered(segs, total, i - 1, i - 1); }
    if i + 1 < |segs| { Ordered(segs, total, i + 1, i + 1); }
  }

  lemma {:induction false} ChainSome(mem: seq<Byte>, s: seq<Seg>)
    requires Chain(mem, s)
    ensures s != [] && mem != [] && |mem| < 0x8000_0000
  {
    Ordered(s, |mem|, 0, 0);
  }

  lemma {:induction false} SegFacts(mem: seq<Byte>, s: seq<Seg>, i: int)
    requires Chain(mem, s) && 0 <= i < |s|
    ensures Tiling(s, |mem|) && 0 <= s[i].start && s[i].start + SIZE <= EndOf(s, |mem|, i) <= |mem|
    ensures HeaderAt(mem, s[i].start) == HeaderOf(s, i)
    ensures Small(HeaderOf(s, i).prev) && Small(HeaderOf(s, i).next) && Small(s[i].start) && Small(|mem|)
    ensures HeaderOf(s, i).next == LAST <==> i + 1 == |s|
  {
    assert Here(mem, s, i);
    SmallStarts(s, |mem|, i);
    Ordered(s, |mem|, i, i);
    if i + 1 < |s| { Ordered(s, |mem|, i, i + 1); }
  }

  // ------------------------------------------------------------ what they spell

  /** An edit that keeps all blocks in use: their bytes are kept too. */
  lemma {:induction false} EditKeeps(m0: seq<Byte>, m1: seq<Byte>, s: seq<Seg>, i: int, j: int, mid: seq<Seg>,
                                     at: set<int>, live: set<(int, int)>)
    requires Chain(m0, s) && NoFreePair(s) && Slots(s, |m0|, |m1|, i, j, mid)
    requires SameBut(m0, m1, at) && Inside(m0, m1, s, i, j, at) && Spelt(m1, s, i, j, mid) && Meets(s, i, j, mid)
    requires Starts(Replaced(s, i, j, mid), at)
    requires Live(s, |m0|) - Live(s[i..j], Stop(s, |m0|, j)) + Live(mid, Stop(s, |m1|, j)) == live
    ensures var s' := Replaced(s, i, j, mid);
      && Chain(m1, s') && NoFreePair(s') && Live(s', |m1|) == live && Kept(m0, m1, Live(s, |m0|) * live)
  {
    Edit(m0, m1, s, i, j, mid, at);
    hide Live, Spelt, Meets, Slots, Inside, SameBut, Kept, NoFreePair;
    BlocksKept(m0, m1, s, Replaced(s, i, j, mid), at, Live(s, |m0|) * live);
  }

  ghost function TakenWhole(s: seq<Seg>, i: int): seq<Seg>
    requires 0 <= i < |s|
  {
    Replaced(s, i, i + 1, [Seg(s[i].start, false)])
  }

  lemma {:induction false} TakeWhole(m0: seq<Byte>, m1: seq<Byte>, s: seq<Seg>, i: int)
    requires Chain(m0, s) && NoFreePair(s) && 0 <= i < |s| && s[i].free
    requires |m1| >= |m0| && |m1| < 0x8000_0000 && (i + 1 < |s| ==> |m1| == |m0|)
    requires 0 <= s[i].start && s[i].start + SIZE <= |m0|
    requires SameBut(m0, m1, {s[i].start}) && HeaderAt(m1, s[i].start) == HeaderOf(s, i).(free := false)
    ensures var s' := TakenWhole(s, i);
      && Chain(m1, s') && NoFreePair(s') && Kept(m0, m1, Live(s, |m0|))
      && Live(s', |m1|) == Live(s, |m0|) + {(s[i].start + SIZE, Room(s, |m1|, i))}
  {
    hide Chain, NoFreePair, Live, HeaderAt, HeaderOf, SameBut, Kept, Slots, Spelt, Meets, Starts, Replaced, Tiling;
    var mid := [Seg(s[i].start, false)];
    var at := {s[i].start};
    WholeFits(m0, m1, s, i);
    WholeLive(s, |m0|, |m1|, i);
    EditStarts(s, i, i + 1, mid, at) by { assert mid[0].start == s[i].start; }
    var live := Live(s, |m0|) + {(s[i].start + SIZE, Room(s, |m1|, i))};
    assert Live(s, |m0|) * live == Live(s, |m0|);
    EditKeeps(m0, m1, s, i, i + 1, mid, at, live);
  }

  lemma {:induction false} WholeFits(m0: seq<Byte>, m1: seq<Byte>, s: seq<Seg>, i: int)
    requires Chain(m0, s) && NoFreePair(s) && 0 <= i < |s| && s[i].free
    requires |m1| >= |m0| && |m1| < 0x8000_0000 && (i + 1 < |s| ==> |m1| == |m0|)
    requires 0 <= s[i].start && s[i].start + SIZE <= |m0|
    requires SameBut(m0, m1, {s[i].start}) && HeaderAt(m1, s[i].start) == HeaderOf(s, i).(free := false)
    ensures var mid := [Seg(s[i].start, false)];
      && Slots(s, |m0|, |m1|, i, i + 1, mid) && Spelt(m1, s, i, i + 1, mid) && Meets(s, i, i + 1, mid)
      && Within(s, i, i + 1, s[i].start)
  {
    var mid := [Seg(s[i].start, false)];
    assert mid[0].start == s[i].start;
    assert Room(s, |m0|, i) >= 0;
    assert Room(mid, Stop(s, |m1|, i + 1), 0) >= 0;
    if i + 1 < |s| {
      assert Here(m0, s, i + 1);
      HeaderKept(m0, m1, {s[i].start}, s[i + 1].start);
    }
  }

  lemma {:induction false} WholeLive(s: seq<Seg>, t0: int, t1: int, i: int)
    requires 0 <= i < |s| && s[i].free
    ensures Live(s[i..i + 1], Stop(s, t0, i + 1)) == {}
    ensures Live([Seg(s[i].start, false)], Stop(s, t1, i + 1)) == {(s[i].start + SIZE, Room(s, t1, i))}
  {
    assert s[i..i + 1] == [s[i]];
    LiveOne(s[i], Stop(s, t0, i + 1));
    LiveOne(Seg(s[i].start, false), Stop(s, t1, i + 1));
  }

  ghost function TakenFront(s: seq<Seg>, i: int, h: int): seq<Seg>
    requires 0 <= i < |s|
  {
    Replaced(s, i, i + 1, [Seg(s[i].start, false), Seg(h, true)])
  }

  lemma {:induction false} NextHeader(m0: seq<Byte>, m1: seq<Byte>, s: seq<Seg>, i: int)
    requires Chain(m0, s) && 0 <= i && i + 1 < |s| && SameBut(m0, m1, {s[i].start}) && |m1| >= |m0|
    ensures 0 <= s[i].start && s[i].start + SIZE <= s[i + 1].start && s[i + 1].start + SIZE <= |m1|
    ensures HeaderAt(m1, s[i + 1].start) == HeaderOf(s, i + 1)
    ensures Small(HeaderOf(s, i + 1).next)
  {
    Ordered(s, |m0|, i, i + 1);
    assert Here(m0, s, i + 1);
    HeaderKept(m0, m1, {s[i].start}, s[i + 1].start);
    SmallStarts(s, |m0|, i + 1);
  }

  lemma {:induction false} PrefixHeader(m0: seq<Byte>, m1: seq<Byte>, a: int)
    requires |m0| <= |m1| && m1[..|m0|] == m0 && 0 <= a && a + SIZE <= |m0|
    ensures HeaderAt(m1, a) == HeaderAt(m0, a) && SameBut(m0, m1, {})
  {
    assert forall x :: 0 <= x < |m0| ==> m1[x] == m1[..|m0|][x];
    HeaderKeptEverywhere(m0, m1, a);
  }

  lemma {:induction false} HeaderKeptEverywhere(m0: seq<Byte>, m1: seq<Byte>, a: int)
    requires |m0| <= |m1| && 0 <= a && a + SIZE <= |m0| && forall x :: 0 <= x < |m0| ==> m1[x] == m0[x]
    ensures HeaderAt(m1, a) == HeaderAt(m0, a)
  {
    assert SameBut(m0, m1, {});
    HeaderKept(m0, m1, {}, a);
  }

  /** The final headers of a split or of growth after a free last segment. */
  lemma {:induction false} FrontTaken(m0: seq<Byte>, m3: seq<Byte>, s: seq<Seg>, i: int, h: int, at: set<int>)
    requires Chain(m0, s) && NoFreePair(s) && 0 <= i < |s| && s[i].free
    requires |m3| < 0x8000_0000 && |m0| <= |m3| && (i + 1 < |s| ==> |m3| == |m0|)
    requires 0 <= s[i].start && s[i].start + SIZE <= h && h + SIZE <= Stop(s, |m3|, i + 1) <= |m3|
    requires at == {s[i].start, h} + (if i + 1 < |s| then {s[i + 1].start} else {}) && SameBut(m0, m3, at)
    requires HeaderAt(m3, s[i].start) == HeaderOf(s, i).(free := false, next := h)
    requires HeaderAt(m3, h) == Header(s[i].start, HeaderOf(s, i).next, true)
    requires i + 1 < |s| ==>
               s[i + 1].start + SIZE <= |m3| && HeaderAt(m3, s[i + 1].start) == HeaderOf(s, i + 1).(prev := h)
    ensures var s' := TakenFront(s, i, h);
      && Chain(m3, s') && NoFreePair(s') && Kept(m0, m3, Live(s, |m0|))
      && Live(s', |m3|) == Live(s, |m0|) + {(s[i].start + SIZE, h - s[i].start - SIZE)}
  {
    var mid := [Seg(s[i].start, false), Seg(h, true)];
    FrontFits(m0, m3, s, i, h);
    FrontLive(s, |m0|, |m3|, i, h);
    EditStarts(s, i, i + 1, mid, at) by {
      assert mid[0].start == s[i].start && mid[1].start == h;
    }
    var live := Live(s, |m0|) + {(s[i].start + SIZE, h - s[i].start - SIZE)};
    assert Live(s, |m0|) * live == Live(s, |m0|);
    EditKeeps(m0, m3, s, i, i + 1, mid, at, live);
  }

  lemma {:induction false} FrontFits(m0: seq<Byte>, m3: seq<Byte>, s: seq<Seg>, i: int, h: int)
    requires Chain(m0, s) && NoFreePair(s) && 0 <= i < |s| && s[i].free
    requires |m3| < 0x8000_0000 && |m0| <= |m3| && (i + 1 < |s| ==> |m3| == |m0|)
    requires 0 <= s[i].start && s[i].start + SIZE <= h && h + SIZE <= Stop(s, |m3|, i + 1) <= |m3|
    requires HeaderAt(m3, s[i].start) == HeaderOf(s, i).(free := false, next := h)
    requires HeaderAt(m3, h) == Header(s[i].start, HeaderOf(s, i).next, true)
    requires i + 1 < |s| ==>
               s[i + 1].start + SIZE <= |m3| && HeaderAt(m3, s[i + 1].start) == HeaderOf(s, i + 1).(prev := h)
    ensures var mid := [Seg(s[i].start, false), Seg(h, true)];
      Slots(s, |m0|, |m3|, i, i + 1, mid) && Spelt(m3, s, i, i + 1, mid) && Meets(s, i, i + 1, mid)
  {
    var mid := [Seg(s[i].start, false), Seg(h, true)];
    assert mid[0].start == s[i].start && mid[1].start == h;
    assert Room(mid, Stop(s, |m3|, i + 1), 0) >= 0 && Room(mid, Stop(s, |m3|, i + 1), 1) >= 0;
  }

  lemma {:induction false} FrontLive(s: seq<Seg>, t0: int, t3: int, i: int, h: int)
    requires 0 <= i < |s| && s[i].free
    ensures Live(s[i..i + 1], Stop(s, t0, i + 1)) == {}
    ensures Live([Seg(s[i].start, false), Seg(h, true)], Stop(s, t3, i + 1)) ==
            {(s[i].start + SIZE, h - s[i].start - SIZE)}
  {
    hide Live;
    var a, b := Seg(s[i].start, false), Seg(h, true);
    assert s[i..i + 1] == [s[i]] && [a, b] == [a] + [b];
    LiveOne(s[i], Stop(s, t0, i + 1));
    LiveMore(a, [b], Stop(s, t3, i + 1));
    LiveOne(a, h);
    LiveOne(b, Stop(s, t3, i + 1));
  }

  lemma {:induction false} TakeFront(m0: seq<Byte>, m1: seq<Byte>, m2: seq<Byte>, m3: seq<Byte>, s: seq<Seg>, i: int,
                                     h: int)
    requires Chain(m0, s) && NoFreePair(s) && 0 <= i < |s| && s[i].free && |m0| == |m1| == |m2| == |m3|
    requires 0 <= s[i].start && s[i].start + SIZE <= h && h + SIZE <= EndOf(s, |m0|, i) <= |m0|
    requires SameBut(m0, m1, {s[i].start}) && HeaderAt(m1, s[i].start) == HeaderOf(s, i).(free := false, next := h)
    requires if i + 1 < |s| then s[i + 1].start + SIZE <= |m2| && SameBut(m1, m2, {s[i + 1].start}) &&
                                 HeaderAt(m2, s[i + 1].start) == HeaderOf(s, i + 1).(prev := h)
             else m2 == m1
    requires SameBut(m2, m3, {h}) && HeaderAt(m3, h) == Header(s[i].start, HeaderOf(s, i).next, true)
    ensures var s' := TakenFront(s, i, h);
      && Chain(m3, s') && NoFreePair(s') && Kept(m0, m3, Live(s, |m0|))
      && Live(s', |m3|) == Live(s, |m0|) + {(s[i].start + SIZE, h - s[i].start - SIZE)}
  {
    var at := {s[i].start, h} + (if i + 1 < |s| then {s[i + 1].start} else {});
    if i + 1 < |s| {
      HeaderKept(m1, m2, {s[i + 1].start}, s[i].start);
      HeaderKept(m2, m3, {h}, s[i + 1].start);
      SameButJoin(m0, m1, m2, {s[i].start}, {s[i + 1].start});
      SameButJoin(m0, m2, m3, {s[i].start} + {s[i + 1].start}, {h});
      assert {s[i].start} + {s[i + 1].start} + {h} == at;
    } else {
      SameButJoin(m0, m1, m3, {s[i].start}, {h});
      assert {s[i].start} + {h} == at;
    }
    HeaderKept(m2, m3, {h}, s[i].start);
    FrontTaken(m0, m3, s, i, h, at);
  }

  lemma {:induction false} GrowFree(m0: seq<Byte>, m1: seq<Byte>, m2: seq<Byte>, m3: seq<Byte>, s: seq<Seg>, i: int,
                                    h: int)
    requires Chain(m0, s) && NoFreePair(s) && 0 <= i == |s| - 1 && s[i].free &&
             |m0| == |m1| <= |m2| == |m3| < 0x8000_0000
    requires 0 <= s[i].start && s[i].start + SIZE <= h && h + SIZE <= |m3| && s[i].start + SIZE <= |m0|
    requires SameBut(m0, m1, {s[i].start}) && HeaderAt(m1, s[i].start) == HeaderOf(s, i).(free := false, next := h)
    requires m2[..|m1|] == m1
    requires SameBut(m2, m3, {h}) && HeaderAt(m3, h) == Header(s[i].start, LAST, true)
    ensures var s' := TakenFront(s, i, h);
      && Chain(m3, s') && NoFreePair(s') && Kept(m0, m3, Live(s, |m0|))
      && Live(s', |m3|) == Live(s, |m0|) + {(s[i].start + SIZE, h - s[i].start - SIZE)}
  {
    PrefixHeader(m1, m2, s[i].start);
    HeaderKept(m2, m3, {h}, s[i].start);
    SameButJoin(m0, m1, m2, {s[i].start}, {});
    SameButJoin(m0, m2, m3, {s[i].start} + {}, {h});
    assert {s[i].start} + {} + {h} == {s[i].start, h} + {};
    FrontTaken(m0, m3, s, i, h, {s[i].start, h} + {});
  }

  lemma {:induction false} GrowWhole(m0: seq<Byte>, m1: seq<Byte>, m2: seq<Byte>, s: seq<Seg>, i: int)
    requires Chain(m0, s) && NoFreePair(s) && 0 <= i == |s| - 1 && s[i].free && |m0| <= |m1| == |m2| < 0x8000_0000
    requires 0 <= s[i].start && s[i].start + SIZE <= |m0| && SameBut(m0, m1, {})
    requires SameBut(m1, m2, {s[i].start}) && HeaderAt(m2, s[i].start) == HeaderOf(s, i).(free := false)
    ensures var s' := TakenWhole(s, i);
      && Chain(m2, s') && NoFreePair(s') && Kept(m0, m2, Live(s, |m0|))
      && Live(s', |m2|) == Live(s, |m0|) + {(s[i].start + SIZE, Room(s, |m2|, i))}
  {
    SameButJoin(m0, m1, m2, {}, {s[i].start});
    assert {} + {s[i].start} == {s[i].start};
    TakeWhole(m0, m2, s, i);
  }

  ghost function Extended(s: seq<Seg>, i: int, start: int, h: int, exact: bool): seq<Seg>
    requires 0 <= i < |s|
  {
    Replaced(s, i, i + 1, Tail(s[i], start, h, exact))
  }

  ghost function Tail(a: Seg, start: int, h: int, exact: bool): (t: seq<Seg>)
    ensures |t| == if exact then 2 else 3
  {
    if exact then [a, Seg(start, false)] else [a, Seg(start, false), Seg(h, true)]
  }

  lemma {:induction false} Extend(m0: seq<Byte>, m1: seq<Byte>, m2: seq<Byte>, m3: seq<Byte>, m4: seq<Byte>,
                                  s: seq<Seg>, i: int, h: int, exact: bool)
    requires Chain(m0, s) && NoFreePair(s) && 0 <= i == |s| - 1 && !s[i].free &&
             |m0| == |m1| <= |m2| == |m3| == |m4| < 0x8000_0000
    requires 0 <= s[i].start && s[i].start + SIZE <= |m0| && |m0| + SIZE <= h &&
             if exact then h == |m4| else h + SIZE <= |m4|
    requires SameBut(m0, m1, {s[i].start}) && HeaderAt(m1, s[i].start) == HeaderOf(s, i).(next := |m0|)
    requires m2[..|m1|] == m1
    requires if exact then m3 == m2 else SameBut(m2, m3, {h}) && HeaderAt(m3, h) == Header(|m0|, LAST, true)
    requires SameBut(m3, m4, {|m0|}) && HeaderAt(m4, |m0|) == Header(s[i].start, if exact then LAST else h, false)
    ensures var s' := Extended(s, i, |m0|, h, exact);
      && Chain(m4, s') && NoFreePair(s') && Kept(m0, m4, Live(s, |m0|))
      && Live(s', |m4|) == Live(s, |m0|) + {(|m0| + SIZE, h - |m0| - SIZE)}
  {
    var n := |m0|;
    var a := s[i].start;
    var at := if exact then {a, n} else {a, h, n};
    PrefixHeader(m1, m2, a);
    SameButJoin(m0, m1, m2, {a}, {});
    if !exact {
      HeaderKept(m2, m3, {h}, a);
      HeaderKept(m3, m4, {n}, h);
      SameButJoin(m0, m2, m3, {a} + {}, {h});
      SameButJoin(m0, m3, m4, {a} + {} + {h}, {n});
      assert {a} + {} + {h} + {n} == at;
    } else {
      SameButJoin(m0, m2, m4, {a} + {}, {n});
      assert {a} + {} + {n} == at;
    }
    HeaderKept(m3, m4, {n}, a);
    ExtendSpelt(m0, m4, s, i, h, exact, at);
  }

  lemma {:induction false} ExtendSpelt(m0: seq<Byte>, m4: seq<Byte>, s: seq<Seg>, i: int, h: int, exact: bool,
                                       at: set<int>)
    requires Chain(m0, s) && NoFreePair(s) && 0 <= i == |s| - 1 && !s[i].free && |m0| <= |m4| < 0x8000_0000
    requires 0 <= s[i].start && s[i].start + SIZE <= |m0| && |m0| + SIZE <= h &&
             if exact then h == |m4| else h + SIZE <= |m4|
    requires at == (if exact then {s[i].start, |m0|} else {s[i].start, h, |m0|}) && SameBut(m0, m4, at)
    requires HeaderAt(m4, s[i].start) == HeaderOf(s, i).(next := |m0|)
    requires HeaderAt(m4, |m0|) == Header(s[i].start, if exact then LAST else h, false)
    requires !exact ==> HeaderAt(m4, h) == Header(|m0|, LAST, true)
    ensures var s' := Extended(s, i, |m0|, h, exact);
      && Chain(m4, s') && NoFreePair(s') && Kept(m0, m4, Live(s, |m0|))
      && Live(s', |m4|) == Live(s, |m0|) + {(|m0| + SIZE, h - |m0| - SIZE)}
  {
    hide Chain, NoFreePair, Live, HeaderAt, HeaderOf, SameBut, Kept, Slots, Spelt, Meets, Tail, Starts, Within,
         Replaced, Tiling;
    ExtendFits(m0, m4, s, i, h, exact);
    ExtendLive(s, |m0|, |m4|, i, h, exact);
    var mid := Tail(s[i], |m0|, h, exact);
    ExtendStarts(s, i, |m0|, h, exact, at);
    var live := Live(s, |m0|) + {(|m0| + SIZE, h - |m0| - SIZE)};
    assert Live(s, |m0|) * live == Live(s, |m0|);
    EditKeeps(m0, m4, s, i, i + 1, mid, at, live);
  }

  lemma {:induction false} ExtendStarts(s: seq<Seg>, i: int, n: int, h: int, exact: bool, at: set<int>)
    requires 0 <= i == |s| - 1 && s[i].start <= n <= h && at == if exact then {s[i].start, n} else {s[i].start, h, n}
    ensures (forall a :: a in at ==> Within(s, i, i + 1, a)) && Starts(Extended(s, i, n, h, exact), at)
  {
    var mid := Tail(s[i], n, h, exact);
    assert mid[0] == s[i] && mid[1].start == n && (!exact ==> mid[2].start == h);
    EditStarts(s, i, i + 1, mid, at);
  }

  lemma {:induction false} ExtendFits(m0: seq<Byte>, m4: seq<Byte>, s: seq<Seg>, i: int, h: int, exact: bool)
    requires Chain(m0, s) && NoFreePair(s) && 0 <= i == |s| - 1 && !s[i].free && |m0| <= |m4| < 0x8000_0000
    requires 0 <= s[i].start && s[i].start + SIZE <= |m0| && |m0| + SIZE <= h &&
             if exact then h == |m4| else h + SIZE <= |m4|
    requires HeaderAt(m4, s[i].start) == HeaderOf(s, i).(next := |m0|)
    requires HeaderAt(m4, |m0|) == Header(s[i].start, if exact then LAST else h, false)
    requires !exact ==> HeaderAt(m4, h) == Header(|m0|, LAST, true)
    ensures var mid := Tail(s[i], |m0|, h, exact);
      Slots(s, |m0|, |m4|, i, i + 1, mid) && Spelt(m4, s, i, i + 1, mid) && Meets(s, i, i + 1, mid)
  {
    var mid := Tail(s[i], |m0|, h, exact);
    assert mid[0] == s[i] && mid[1] == Seg(|m0|, false) && (!exact ==> mid[2] == Seg(h, true));
    assert Room(mid, |m4|, 0) >= 0 && Room(mid, |m4|, 1) >= 0 && (!exact ==> Room(mid, |m4|, 2) >= 0);
  }

  lemma {:induction false} ExtendLive(s: seq<Seg>, t0: int, t4: int, i: int, h: int, exact: bool)
    requires 0 <= i == |s| - 1 && !s[i].free && (exact ==> h == t4)
    ensures Live(s, t0) - Live(s[i..i + 1], t0) + Live(Tail(s[i], t0, h, exact), t4) ==
            Live(s, t0) + {(t0 + SIZE, h - t0 - SIZE)}
  {
    var a, b, x := s[i], Seg(t0, false), Seg(h, true);
    assert BlockOf(s, t0, i) in Live(s, t0);
    hide Live;
    assert s[i..i + 1] == [a];
    LiveOne(a, t0);
    if exact {
      assert Tail(a, t0, h, exact) == [a] + [b];
      LiveMore(a, [b], t4);
      LiveOne(b, t4);
    } else {
      assert Tail(a, t0, h, exact) == [a] + ([b] + [x]);
      LiveMore(a, [b] + [x], t4);
      LiveMore(b, [x], t4);
      LiveOne(b, h);
      LiveOne(x, t4);
    }
  }

  lemma {:induction false} NeedsSome(tam: nat, room: int, free: bool, page: nat)
    requires page >= SIZE && tam > 0 && (free ==> room != tam && room < tam + SIZE)
    ensures var missing := if free then tam - room else tam + SIZE;
      if missing % page != 0 then missing + SIZE > 0 else missing > 0
  {
    var missing := if free then tam - room else tam + SIZE;
    if missing < 0 && missing % page == 0 {
      PieceOf(-1, page + missing, page);
      assert false;
    }
  }

  lemma {:induction false} OnlyBlocks(m0: seq<Byte>, s0: seq<Seg>, m1: seq<Byte>, r: Result, tam: nat)
    ensures !r.Block? ==> !Met(m0, s0, m1, r, tam)
    ensures forall s1 :: Answered(m0, s0, m1, s1, r, tam) ==> Met(m0, s0, m1, r, tam)
  {
  }

  /** The pages asked for, and when the code as written then goes wrong. */
  lemma {:induction false} GrowthNeeds(s: seq<Seg>, total: int, tam: nat, page: nat, offer: int)
    requires |s| > 0 && page >= SIZE && tam > 0 && FirstFit(s, total, tam, 0) == |s|
    requires var n := |s| - 1; !FitsIn(s, total, n, tam)
    ensures var n := |s| - 1;
      var missing := if s[n].free then tam - Room(s, total, n) else tam + SIZE;
      var asked := if missing % page != 0 then missing + SIZE else missing;
      var pages := PagesNeeded(s, total, tam, page);
      && pages == asked / page + (if asked % page != 0 then 1 else 0)
      && pages > 0 && pages * page >= asked > 0 && (missing % page == 0 ==> pages * page == missing)
      && (Outgrown(s, total, tam, page, offer) <==> pages <= offer && (s[n].free ==> missing % page == 0))
  {
    var n := |s| - 1;
    var missing := if s[n].free then tam - Room(s, total, n) else tam + SIZE;
    var asked := if missing % page != 0 then missing + SIZE else missing;
    NeedsSome(tam, Room(s, total, n), s[n].free, page);
    CeilEnough(asked, page);
    if PagesNeeded(s, total, tam, page) <= 0 { MulGrows(PagesNeeded(s, total, tam, page), 0, page); }
  }

  lemma {:induction false} TailLost(s: seq<Seg>, total: int, tam: int, page: nat, mem: seq<Byte>)
    requires |s| > 0
    requires s[|s| - 1].free || (TailsClear(s, page, page + SIZE + tam) && (|s| == 1 ==> total >= SIZE - FIRST)) ==>
               forall b :: !Chain(mem, b)
    ensures LeavesNoChain(s, total, tam, page, mem)
  {
  }

  /** What the repaired call answers, and how large memory is then. */
  ghost predicate Replied(s: seq<Seg>, total: int, tam: int, page: nat, offer: int, r: Result, after: int)
    requires |s| > 0 && page > 0
  {
    var k := FirstFit(s, total, tam, 0);
    && (if Served(s, total, tam, page, offer) then r.Block? else r == Denied)
    && (r.Block? ==> after == total + Growth(s, total, tam, page, offer) * page &&
                     r.dir == SIZE + (if k < |s| then s[k].start
                                      else if s[|s| - 1].free then s[|s| - 1].start else total))
  }

  lemma {:induction false} RepliedMeans(s: seq<Seg>, total: int, tam: int, page: nat, offer: int, r: Result, after: int)
    requires |s| > 0 && page >= SIZE && tam > 0 && Replied(s, total, tam, page, offer, r, after)
    ensures FirstFitReply(s, total, tam, page, offer, r, after)
  {
    FitMeans(s, total, tam);
    var k := FirstFit(s, total, tam, 0);
    if k == |s| {
      PagesLeast(s, total, tam, page);
    } else {
      assert s[k].free && r == Block(s[k].start + SIZE);
    }
  }

  lemma {:induction false} AnsweredIs(m0: seq<Byte>, s0: seq<Seg>, m1: seq<Byte>, s1: seq<Seg>, dir: int, tam: nat)
    requires Chain(m1, s1) && Live(s1, |m1|) == Live(s0, |m0|) + {(dir, tam)} && (dir, tam) !in Live(s0, |m0|)
    requires Kept(m0, m1, Live(s0, |m0|))
    ensures Answered(m0, s0, m1, s1, Block(dir), tam)
  {
  }

  /** Of a memory that spells a chain, that chain is the only answer. */
  lemma {:induction false} OnlyChain(m0: seq<Byte>, s0: seq<Seg>, m1: seq<Byte>, s1: seq<Seg>, r: Result, tam: nat)
    requires Chain(m1, s1)
    ensures Met(m0, s0, m1, r, tam) <==> Answered(m0, s0, m1, s1, r, tam)
  {
    if Met(m0, s0, m1, r, tam) {
      var b :| Answered(m0, s0, m1, b, r, tam);
      ChainUnique(m1, b, s1);
    }
  }

  lemma {:induction false} NoneMet(m0: seq<Byte>, s0: seq<Seg>, m1: seq<Byte>, r: Result, tam: nat)
    requires forall b :: !Chain(m1, b)
    ensures !Met(m0, s0, m1, r, tam)
  {
  }

  lemma {:induction false} BoundaryRange(a: int, page: nat)
    requires page > 0
    ensures OnBoundary(a, page) <==> exists x :: a - 1 < x <= a + SIZE - 1 && x % page == 0
  {
    if OnBoundary(a, page) {
      var x :| a <= x < a + SIZE && x % page == 0;
      assert a - 1 < x <= a + SIZE - 1;
    }
    if x :| a - 1 < x <= a + SIZE - 1 && x % page == 0 {
      assert a <= x < a + SIZE;
    }
  }

  lemma {:induction false} StartsAtZero(mem: seq<Byte>, s: seq<Seg>)
    requires Chain(mem, s)
    ensures s[0].start == 0
  {
  }

  /** The consistency check of the walk never fires. */
  lemma {:induction false} NeverInconsistent(mem: seq<Byte>, s: seq<Seg>, i: int)
    requires Chain(mem, s) && 0 <= i < |s|
    ensures var h := HeaderOf(s, i); h.next == LAST || (h.prev < s[i].start < h.next)
  {
    Ordered(s, |mem|, i, i);
    if i > 0 { Ordered(s, |mem|, i - 1, i); }
    if i + 1 < |s| { Ordered(s, |mem|, i, i + 1); }
  }

  lemma {:induction false} NothingLive(m: seq<Byte>, total: int)
    ensures Live([], total) == {} && Live([Seg(0, true)], total) == {} && Live([], |m|) == {}
    ensures forall m0: seq<Byte>, m1: seq<Byte> :: Kept(m0, m1, {})
  {
    LiveOne(Seg(0, true), total);
  }

  lemma {:induction false} KeptSelf(mem: seq<Byte>, s: seq<Seg>)
    requires Chain(mem, s)
    ensures Kept(mem, mem, Live(s, |mem|))
  {
    forall q | q in Live(s, |mem|) ensures SameBytes(mem, mem, q) {
      LiveInside(s, |mem|, q);
    }
  }

  /** Before heap_init or after it, no block is in use. */
  lemma {:induction false} MetFromEmpty(m0: seq<Byte>, s0: seq<Seg>, m: seq<Byte>, s: seq<Seg>, m1: seq<Byte>,
                                        s1: seq<Seg>, r: Result, tam: nat)
    requires (m == m0 && s == s0) || (s0 == [] && s == [Seg(0, true)])
    ensures Met(m0, s0, m1, r, tam) <==> Met(m, s, m1, r, tam)
    ensures Answered(m0, s0, m1, s1, r, tam) <==> Answered(m, s, m1, s1, r, tam)
  {
    NothingLive(m0, |m|);
    assert forall b :: Answered(m0, s0, m1, b, r, tam) <==> Answered(m, s, m1, b, r, tam);
  }

  // ---------------------------------------------------------------- merging

  /** Where the merged segment begins and ends, by index. */
  function LeftStart(s: seq<Seg>, k: int): (lo: int)
    requires 0 <= k < |s|
    ensures 0 <= lo <= k
  {
    if k > 0 && s[k - 1].free then k - 1 else k
  }

  function RightEnd(s: seq<Seg>, k: int): (hi: int)
    requires 0 <= k < |s|
    ensures k < hi <= |s|
  {
    if k + 1 < |s| && s[k + 1].free then k + 2 else k + 1
  }

  /** All headers as they were, but that the segment after the merge points back at segment k. */
  ghost predicate Halfway(m0: seq<Byte>, m: seq<Byte>, s: seq<Seg>, k: int, hi: int, at: set<int>)
    requires 0 <= k < |s| && k < hi
  {
    && |m| == |m0| && SameBut(m0, m, at)
    && (forall a :: a in at ==> (hi < |s| && s[hi].start == a) || (k >= 2 && s[k - 1].free && s[k - 2].start == a))
    && (forall j :: 0 <= j < |s| ==> HalfHeader(m, s, k, hi, j))
  }

  ghost predicate HalfHeader(m: seq<Byte>, s: seq<Seg>, k: int, hi: int, j: int)
    requires 0 <= k < |s| && 0 <= j < |s|
  {
    && 0 <= s[j].start && s[j].start + SIZE <= |m|
    && HeaderAt(m, s[j].start) == if j == hi then HeaderOf(s, j).(prev := s[k].start) else HeaderOf(s, j)
  }

  lemma {:induction false} HalfwayStarts(m: seq<Byte>, s: seq<Seg>, k: int)
    requires Chain(m, s) && 0 <= k < |s|
    ensures Halfway(m, m, s, k, k + 1, {})
    ensures RightEnd(s, k) == k + 2 ==> k + 1 < |s|
  {
    var hi := k + 1;
    forall j | 0 <= j < |s| ensures HalfHeader(m, s, k, hi, j) {
      assert Here(m, s, j);
    }
  }

  lemma {:induction false} OtherStart(s: seq<Seg>, total: int, i: int, j: int)
    requires Tiling(s, total) && 0 <= i < |s| && 0 <= j < |s| && i != j
    ensures s[i].start + SIZE <= s[j].start || s[j].start + SIZE <= s[i].start
  {
    if i < j { Ordered(s, total, i, j); } else { Ordered(s, total, j, i); }
  }

  lemma {:induction false} HalfwayRight(m0: seq<Byte>, m: seq<Byte>, s: seq<Seg>, k: int, at: set<int>)
    requires Chain(m0, s) && 0 <= k && k + 1 < |s| && |m| == |m0|
    requires if k + 2 < |s| then 0 <= s[k + 2].start && s[k + 2].start + SIZE <= |m| && at == {s[k + 2].start} &&
             SameBut(m0, m, at) &&
                                 HeaderAt(m, s[k + 2].start) == HeaderOf(s, k + 2).(prev := s[k].start)
             else m == m0 && at == {}
    ensures Halfway(m0, m, s, k, k + 2, at)
  {
    var hi := k + 2;
    SameSelf(m0);
    hide HeaderAt, SameBut, HeaderOf;
    forall j | 0 <= j < |s| ensures HalfHeader(m, s, k, hi, j) {
      assert Here(m0, s, j);
      if k + 2 < |s| && j != k + 2 {
        OtherStart(s, |m0|, j, k + 2);
        HeaderKept(m0, m, at, s[j].start);
      }
    }
  }

  lemma {:induction false} HalfwaySize(m0: seq<Byte>, m: seq<Byte>, s: seq<Seg>, k: int, hi: int, at: set<int>)
    requires 0 <= k < |s| && k < hi && Halfway(m0, m, s, k, hi, at)
    ensures |m| == |m0|
  {
  }

  lemma {:induction false} HalfwayAt(m0: seq<Byte>, m: seq<Byte>, s: seq<Seg>, k: int, hi: int, at: set<int>, j: int)
    requires 0 <= k < |s| && k < hi && Halfway(m0, m, s, k, hi, at) && 0 <= j < |s| && j != hi
    ensures 0 <= s[j].start && s[j].start + SIZE <= |m| && HeaderAt(m, s[j].start) == HeaderOf(s, j)
  {
    assert HalfHeader(m, s, k, hi, j);
  }

  lemma {:induction false} SameSelf(m: seq<Byte>)
    ensures SameBut(m, m, {})
  {
  }

  lemma {:induction false} HalfwayLeft(m0: seq<Byte>, m: seq<Byte>, m': seq<Byte>, s: seq<Seg>, k: int, hi: int,
                                       at: set<int>)
    requires Chain(m0, s) && 2 <= k < |s| && k < hi && s[k - 1].free && Halfway(m0, m, s, k, hi, at)
    requires |m'| == |m| && SameBut(m, m', {s[k - 2].start}) && 0 <= s[k - 2].start && s[k - 2].start + SIZE <= |m'|
    requires HeaderAt(m', s[k - 2].start) == HeaderOf(s, k - 2)
    ensures Halfway(m0, m', s, k, hi, at + {s[k - 2].start})
  {
    hide HeaderAt, SameBut, HeaderOf, Chain;
    SameButJoin(m0, m, m', at, {s[k - 2].start});
    forall j | 0 <= j < |s| ensures HalfHeader(m', s, k, hi, j) {
      assert HalfHeader(m, s, k, hi, j);
      if j != k - 2 {
        StartsOfChain(m0, s, j, k - 2);
        HeaderKept(m, m', {s[k - 2].start}, s[j].start);
      }
    }
  }

  lemma {:induction false} StartsOfChain(m: seq<Byte>, s: seq<Seg>, i: int, j: int)
    requires Chain(m, s) && 0 <= i < |s| && 0 <= j < |s| && i != j
    ensures s[i].start + SIZE <= s[j].start || s[j].start + SIZE <= s[i].start
  {
    OtherStart(s, |m|, i, j);
  }

  lemma {:induction false} FewerPages(a: nat, n: nat, page: nat)
    requires page > 0 && a % page == 0 && n * page <= a
    ensures (a - n * page) % page == 0
  {
    PieceOf(a / page - n, 0, page);
    assert (a / page - n) * page == a / page * page - n * page;
  }

  lemma {:induction false} KeptJoin(m0: seq<Byte>, m1: seq<Byte>, m2: seq<Byte>, live: set<(int, int)>)
    requires Kept(m0, m1, live) && Kept(m1, m2, live)
    ensures Kept(m0, m2, live)
  {
    forall q | q in live ensures SameBytes(m0, m2, q) {
      assert SameBytes(m0, m1, q) && SameBytes(m1, m2, q);
      forall x | q.0 <= x < q.0 + q.1 ensures m2[x] == m0[x] {
        assert m1[x] == m0[x];
      }
    }
  }

  /** A block's header can always be read. */
  lemma {:induction false} BlocksReadable(mem: seq<Byte>, s: seq<Seg>, dir: int, page: nat, repaired: bool)
    requires Chain(mem, s) && page > 0 && SIZE <= dir
    ensures InUse(Live(s, |mem|), dir) ==>
              if repaired then dir <= |mem| else |mem| - ((dir - SIZE) / page * page - (dir - SIZE) % page) >= SIZE
  {
    if InUse(Live(s, |mem|), dir) {
      var n :| (dir, n) in Live(s, |mem|);
      LiveInside(s, |mem|, (dir, n));
      assert dir - SIZE == (dir - SIZE) / page * page + (dir - SIZE) % page;
    }
  }

  /** Whether a block starts there is whether the segment is in use. */
  lemma {:induction false} BlockAt(s: seq<Seg>, total: int, k: int)
    requires Tiling(s, total) && 0 <= k < |s|
    ensures InUse(Live(s, total), s[k].start + SIZE) <==> !s[k].free
    ensures !s[k].free ==> BlockOf(s, total, k) in Live(s, total)
  {
    var dir := s[k].start + SIZE;
    if s[k].free {
      forall n ensures (dir, n) !in Live(s, total) { FreeNotLive(s, total, k, n); }
    } else {
      assert BlockOf(s, total, k) in Live(s, total) && BlockOf(s, total, k).0 == dir;
    }
  }

  /** The merge goes left, and a segment comes after it. */
  predicate LeftThenMore(s: seq<Seg>, k: int)
    requires 0 <= k < |s|
  {
    LeftStart(s, k) < k && RightEnd(s, k) < |s|
  }

  ghost function Merged(s: seq<Seg>, k: int): seq<Seg>
    requires 0 <= k < |s|
  {
    Replaced(s, LeftStart(s, k), RightEnd(s, k), [Seg(s[LeftStart(s, k)].start, true)])
  }

  lemma {:induction false} LastIsMerged(m0: seq<Byte>, s: seq<Seg>, k: int)
    requires Chain(m0, s) && 0 <= k < |s| && HeaderOf(s, RightEnd(s, k) - 1).next == LAST
    ensures RightEnd(s, k) == |s|
    ensures var t := Merged(s, k); |t| > 0 && t[|t| - 1] == Seg(s[LeftStart(s, k)].start, true)
  {
    SegFacts(m0, s, RightEnd(s, k) - 1);
  }

  lemma {:induction false} HalfwayNext(m0: seq<Byte>, m: seq<Byte>, s: seq<Seg>, k: int, hi: int, at: set<int>)
    requires Chain(m0, s) && 0 <= k < hi <= |s| && k < |s| && Halfway(m0, m, s, k, hi, at) &&
             HeaderOf(s, hi - 1).next != LAST
    ensures hi < |s| && HeaderOf(s, hi - 1).next == s[hi].start && 0 <= s[hi].start && s[hi].start + SIZE <= |m|
    ensures HeaderAt(m, s[hi].start) == HeaderOf(s, hi).(prev := s[k].start)
    ensures Small(HeaderOf(s, hi).next)
  {
    SegFacts(m0, s, hi - 1);
    SegFacts(m0, s, hi);
    assert HalfHeader(m, s, k, hi, hi);
  }

  /** The last two writes of memfree, and what they leave. */
  ghost predicate LastWrites(m1: seq<Byte>, m2: seq<Byte>, m3: seq<Byte>, s: seq<Seg>, k: int, fix: bool)
    requires 0 <= k < |s|
  {
    var lo, hi := LeftStart(s, k), RightEnd(s, k);
    && |m1| == |m2| == |m3| && 0 <= s[lo].start && s[lo].start + SIZE <= |m3| && SameBut(m2, m3, {s[lo].start})
    && HeaderAt(m3, s[lo].start) == Header(HeaderOf(s, lo).prev, HeaderOf(s, hi - 1).next, true)
    && if fix && hi < |s| then
         0 <= s[hi].start && s[hi].start + SIZE <= |m2| && SameBut(m1, m2, {s[hi].start}) &&
         HeaderAt(m2, s[hi].start) == HeaderOf(s, hi).(prev := s[lo].start)
       else m2 == m1
  }

  lemma {:induction false} FreeWritten(m0: seq<Byte>, m1: seq<Byte>, m2: seq<Byte>, m3: seq<Byte>, s: seq<Seg>, k: int,
                                       at: set<int>, fix: bool)
    requires Chain(m0, s) && NoFreePair(s) && 0 <= k < |s| && !s[k].free && Halfway(m0, m1, s, k, RightEnd(s, k), at)
    requires LastWrites(m1, m2, m3, s, k, fix) && (fix || !LeftThenMore(s, k))
    ensures var live := Live(s, |m0|) - {BlockOf(s, |m0|, k)};
      && |m3| == |m0| && Chain(m3, Merged(s, k)) && NoFreePair(Merged(s, k))
      && Live(Merged(s, k), |m3|) == live && Kept(m0, m3, live)
  {
    var lo, hi := LeftStart(s, k), RightEnd(s, k);
    var mid := [Seg(s[lo].start, true)];
    var at' := AllWritten(s, k, at);
    var live := Live(s, |m0|) - {BlockOf(s, |m0|, k)};
    FreeFrame(m0, m1, m2, m3, s, k, at, fix);
    FreeFits(m0, m1, m2, m3, s, k, at, fix);
    FreeInside(m0, m1, m2, m3, s, k, at, fix);
    FreeLive(s, |m0|, k);
    hide Chain, NoFreePair, Live, HeaderAt, HeaderOf, SameBut, Kept, Slots, Spelt, Meets, Starts, Replaced, Tiling,
         Halfway, LastWrites, Inside, AllWritten;
    assert Live(s, |m0|) * live == live;
    EditKeeps(m0, m3, s, lo, hi, mid, at', live);
  }

  /** The addresses written by a memfree that wrote `at` before its last two headers. */
  ghost function AllWritten(s: seq<Seg>, k: int, at: set<int>): set<int>
    requires 0 <= k < |s|
  {
    at + {s[LeftStart(s, k)].start} + (if RightEnd(s, k) < |s| then {s[RightEnd(s, k)].start} else {})
  }

  lemma {:induction false} SameButMore(m0: seq<Byte>, m1: seq<Byte>, a: set<int>, b: set<int>)
    requires SameBut(m0, m1, a) && a <= b
    ensures SameBut(m0, m1, b)
  {
    forall x | 0 <= x < |m0| && x < |m1| && Clear(b, x, 1) ensures m1[x] == m0[x] {
      assert Clear(a, x, 1);
    }
  }

  lemma {:induction false} FreeFrame(m0: seq<Byte>, m1: seq<Byte>, m2: seq<Byte>, m3: seq<Byte>, s: seq<Seg>, k: int,
                                     at: set<int>, fix: bool)
    requires 0 <= k < |s| && Halfway(m0, m1, s, k, RightEnd(s, k), at) && LastWrites(m1, m2, m3, s, k, fix)
    ensures SameBut(m0, m3, AllWritten(s, k, at)) && |m3| == |m0|
  {
    hide SameBut;
    var lo, hi := LeftStart(s, k), RightEnd(s, k);
    if fix && hi < |s| {
      SameButJoin(m0, m1, m2, at, {s[hi].start});
      SameButJoin(m0, m2, m3, at + {s[hi].start}, {s[lo].start});
      SameButMore(m0, m3, at + {s[hi].start} + {s[lo].start}, AllWritten(s, k, at));
    } else {
      SameButJoin(m0, m1, m3, at, {s[lo].start});
      SameButMore(m0, m3, at + {s[lo].start}, AllWritten(s, k, at));
    }
  }

  /** A header the last two writes did not touch. */
  lemma {:induction false} NotLast(m0: seq<Byte>, m1: seq<Byte>, m2: seq<Byte>, m3: seq<Byte>, s: seq<Seg>, k: int,
                                   at: set<int>, fix: bool, j: int)
    requires Chain(m0, s) && 0 <= k < |s| && Halfway(m0, m1, s, k, RightEnd(s, k), at) &&
             LastWrites(m1, m2, m3, s, k, fix)
    requires 0 <= j < |s| && j != LeftStart(s, k) && (j == RightEnd(s, k) ==> !fix)
    ensures HalfHeader(m3, s, k, RightEnd(s, k), j)
  {
    hide SameBut, HeaderAt, HeaderOf;
    var lo, hi := LeftStart(s, k), RightEnd(s, k);
    assert HalfHeader(m1, s, k, hi, j);
    if fix && hi < |s| {
      StartsOfChain(m0, s, j, hi);
      HeaderKept(m1, m2, {s[hi].start}, s[j].start);
    }
    StartsOfChain(m0, s, j, lo);
    HeaderKept(m2, m3, {s[lo].start}, s[j].start);
  }

  /** The next segment's header after the last two writes. */
  lemma {:induction false} NextAfter(m0: seq<Byte>, m1: seq<Byte>, m2: seq<Byte>, m3: seq<Byte>, s: seq<Seg>, k: int,
                                     at: set<int>, fix: bool)
    requires Chain(m0, s) && 0 <= k < |s| && Halfway(m0, m1, s, k, RightEnd(s, k), at) &&
             LastWrites(m1, m2, m3, s, k, fix)
    requires RightEnd(s, k) < |s|
    ensures var lo, hi := LeftStart(s, k), RightEnd(s, k);
      && 0 <= s[hi].start && s[hi].start + SIZE <= |m3|
      && HeaderAt(m3, s[hi].start) == HeaderOf(s, hi).(prev := if fix then s[lo].start else s[k].start)
  {
    hide SameBut, HeaderAt, HeaderOf;
    var lo, hi := LeftStart(s, k), RightEnd(s, k);
    assert HalfHeader(m1, s, k, hi, hi);
    StartsOfChain(m0, s, hi, lo);
    HeaderKept(m2, m3, {s[lo].start}, s[hi].start);
  }

  lemma {:induction false} FreeFits(m0: seq<Byte>, m1: seq<Byte>, m2: seq<Byte>, m3: seq<Byte>, s: seq<Seg>, k: int,
                                    at: set<int>, fix: bool)
    requires Chain(m0, s) && NoFreePair(s) && 0 <= k < |s| && !s[k].free && Halfway(m0, m1, s, k, RightEnd(s, k), at)
    requires LastWrites(m1, m2, m3, s, k, fix) && (fix || !LeftThenMore(s, k))
    ensures var lo, hi := LeftStart(s, k), RightEnd(s, k); var mid := [Seg(s[lo].start, true)];
      Slots(s, |m0|, |m3|, lo, hi, mid) && Spelt(m3, s, lo, hi, mid) && Meets(s, lo, hi, mid)
  {
    var lo, hi := LeftStart(s, k), RightEnd(s, k);
    var mid := [Seg(s[lo].start, true)];
    assert mid[0].start == s[lo].start;
    if hi < |s| { NextAfter(m0, m1, m2, m3, s, k, at, fix); }
    FreeRoom(m0, s, k);
    assert Room(mid, Stop(s, |m3|, hi), 0) >= 0;
  }

  lemma {:induction false} FreeRoom(m0: seq<Byte>, s: seq<Seg>, k: int)
    requires Chain(m0, s) && 0 <= k < |s|
    ensures var lo, hi := LeftStart(s, k), RightEnd(s, k); s[lo].start + SIZE <= Stop(s, |m0|, hi)
  {
    var lo, hi := LeftStart(s, k), RightEnd(s, k);
    Ordered(s, |m0|, lo, hi - 1);
    if lo < hi - 1 { Ordered(s, |m0|, hi - 1, hi - 1); }
  }

  lemma {:induction false} FreeInside(m0: seq<Byte>, m1: seq<Byte>, m2: seq<Byte>, m3: seq<Byte>, s: seq<Seg>, k: int,
                                      at: set<int>, fix: bool)
    requires Chain(m0, s) && 0 <= k < |s| && Halfway(m0, m1, s, k, RightEnd(s, k), at) &&
             LastWrites(m1, m2, m3, s, k, fix)
    ensures var lo, hi := LeftStart(s, k), RightEnd(s, k); var mid := [Seg(s[lo].start, true)];
      Inside(m0, m3, s, lo, hi, AllWritten(s, k, at)) && Starts(Replaced(s, lo, hi, mid), AllWritten(s, k, at))
  {
    var lo, hi := LeftStart(s, k), RightEnd(s, k);
    var mid := [Seg(s[lo].start, true)];
    FreeRoom(m0, s, k);
    forall a | a in AllWritten(s, k, at)
      ensures Within(s, lo, hi, a) || exists p :: Restored(m0, m3, s, lo, p, a)
      ensures (exists j :: 0 <= j < |mid| && mid[j].start == a) || (hi < |s| && s[hi].start == a) ||
              (exists j :: 0 <= j < lo && s[j].start == a)
    {
      if a == s[lo].start {
        assert mid[0].start == a;
      } else if !(hi < |s| && a == s[hi].start) {
        assert k >= 2 && s[k - 1].free && s[k - 2].start == a;
        NotLast(m0, m1, m2, m3, s, k, at, fix, k - 2);
        assert Here(m0, s, k - 2);
        assert Restored(m0, m3, s, lo, k - 2, a);
      }
    }
    EditStarts(s, lo, hi, mid, AllWritten(s, k, at));
  }

  lemma {:induction false} FreeLive(s: seq<Seg>, total: int, k: int)
    requires 0 <= k < |s| && !s[k].free
    ensures var lo, hi := LeftStart(s, k), RightEnd(s, k);
      && Live(s[lo..hi], Stop(s, total, hi)) == {BlockOf(s, total, k)}
      && Live([Seg(s[lo].start, true)], Stop(s, total, hi)) == {}
  {
    hide Live;
    var lo, hi := LeftStart(s, k), RightEnd(s, k);
    LiveOne(Seg(s[lo].start, true), Stop(s, total, hi));
    RightLive(s, total, k);
    if lo < k {
      LiveOne(s[k - 1], s[k].start);
      assert s[lo..hi] == [s[k - 1]] + s[k..hi] && s[k..hi][0] == s[k];
      LiveMore(s[k - 1], s[k..hi], Stop(s, total, hi));
    }
  }

  lemma {:induction false} RightLive(s: seq<Seg>, total: int, k: int)
    requires 0 <= k < |s| && !s[k].free
    ensures Live(s[k..RightEnd(s, k)], Stop(s, total, RightEnd(s, k))) == {BlockOf(s, total, k)}
  {
    hide Live;
    var hi := RightEnd(s, k);
    if hi == k + 1 {
      assert s[k..hi] == [s[k]];
      LiveOne(s[k], Stop(s, total, hi));
    } else {
      assert s[k..hi] == [s[k]] + [s[k + 1]] && [s[k + 1]][0] == s[k + 1];
      LiveMore(s[k], [s[k + 1]], Stop(s, total, hi));
      LiveOne(s[k], s[k + 1].start);
      LiveOne(s[k + 1], Stop(s, total, hi));
    }
  }

  // ----------------------------------------- what the code as written leaves

  /** The header at the i-th of these addresses points on to the next one. */
  ghost predicate LeadsOn(mem: seq<Byte>, at: seq<int>, i: int) {
    0 <= i && i + 1 < |at| && 0 <= at[i] && at[i] + SIZE <= |mem| && HeaderAt(mem, at[i]).next == at[i + 1] != LAST
  }

  /** A chain follows the forward pointers. */
  lemma {:induction false} ForwardPrefix(mem: seq<Byte>, b: seq<Seg>, at: seq<int>, n: nat)
    requires Chain(mem, b) && 0 < n <= |at| && at[0] == 0
    requires forall i :: 0 <= i < n - 1 ==> LeadsOn(mem, at, i)
    ensures n <= |b| && forall i :: 0 <= i < n ==> b[i].start == at[i]
  {
    if n > 1 {
      ForwardPrefix(mem, b, at, n - 1);
      assert Here(mem, b, n - 2) && LeadsOn(mem, at, n - 2);
    }
  }

  /** After a left merge as written, with a segment to follow, no chain is spelt. */
  lemma {:induction false} NoChainLeft(m0: seq<Byte>, m1: seq<Byte>, m3: seq<Byte>, s: seq<Seg>, k: int, at: set<int>)
    requires Chain(m0, s) && 0 <= k < |s| && LeftThenMore(s, k) && Halfway(m0, m1, s, k, RightEnd(s, k), at)
    requires LastWrites(m1, m1, m3, s, k, false)
    ensures forall b :: !Chain(m3, b)
  {
    var lo, hi := LeftStart(s, k), RightEnd(s, k);
    NextAfter(m0, m1, m1, m3, s, k, at, false);
    StartsOfChain(m0, s, lo, k);
    var line := LineTo(m0, m1, m3, s, k, at);
    hide Chain, Halfway, LastWrites, HeaderAt, LeadsOn;
    forall b ensures !Chain(m3, b) {
      if Chain(m3, b) { TwoPrevs(m3, b, line, lo, s[k].start); }
    }
  }

  /** The starts that the forward pointers then lead through, up to the segment after the merge. */
  lemma {:induction false} LineTo(m0: seq<Byte>, m1: seq<Byte>, m3: seq<Byte>, s: seq<Seg>, k: int, at: set<int>)
    returns (line: seq<int>)
    requires Chain(m0, s) && 0 <= k < |s| && LeftThenMore(s, k) && Halfway(m0, m1, s, k, RightEnd(s, k), at)
    requires LastWrites(m1, m1, m3, s, k, false)
    ensures var lo, hi := LeftStart(s, k), RightEnd(s, k);
      && |line| == lo + 2 && line[0] == 0 && line[lo] == s[lo].start && line[lo + 1] == s[hi].start
      && forall i :: 0 <= i < lo + 1 ==> LeadsOn(m3, line, i)
  {
    var lo, hi := LeftStart(s, k), RightEnd(s, k);
    line := seq(lo + 2, i requires 0 <= i < lo + 2 => if i <= lo then s[i].start else s[hi].start);
    SegFacts(m0, s, hi - 1);
    SegFacts(m0, s, hi);
    StartsAtZero(m0, s);
    LineEnd(m0, m1, m3, s, k, line);
    forall i | 0 <= i < lo ensures LeadsOn(m3, line, i) {
      NotLast(m0, m1, m1, m3, s, k, at, false, i);
      LineBefore(m0, m3, s, k, line, i);
    }
  }

  lemma {:induction false} LineEnd(m0: seq<Byte>, m1: seq<Byte>, m3: seq<Byte>, s: seq<Seg>, k: int, line: seq<int>)
    requires Chain(m0, s) && 0 <= k < |s| && LeftThenMore(s, k) && LastWrites(m1, m1, m3, s, k, false)
    requires var lo, hi := LeftStart(s, k), RightEnd(s, k);
      |line| == lo + 2 && line[lo] == s[lo].start && line[lo + 1] == s[hi].start
    ensures LeadsOn(m3, line, LeftStart(s, k))
  {
    SegFacts(m0, s, RightEnd(s, k) - 1);
  }

  lemma {:induction false} LineBefore(m0: seq<Byte>, m3: seq<Byte>, s: seq<Seg>, k: int, line: seq<int>, i: int)
    requires Chain(m0, s) && 0 <= k < |s| && 0 <= i < LeftStart(s, k) && i + 1 < |line|
    requires line[i] == s[i].start && line[i + 1] == s[i + 1].start && HalfHeader(m3, s, k, RightEnd(s, k), i)
    ensures LeadsOn(m3, line, i)
  {
    SegFacts(m0, s, i);
  }

  lemma {:induction false} TwoPrevs(mem: seq<Byte>, b: seq<Seg>, line: seq<int>, lo: nat, other: int)
    requires Chain(mem, b) && |line| == lo + 2 && line[0] == 0
    requires forall i :: 0 <= i < lo + 1 ==> LeadsOn(mem, line, i)
    requires 0 <= line[lo + 1] && line[lo + 1] + SIZE <= |mem| && HeaderAt(mem, line[lo + 1]).prev == other
    ensures other == line[lo]
  {
    ForwardPrefix(mem, b, line, lo + 2);
    assert Here(mem, b, lo + 1);
  }

  /** After growth by whole pages exactly, as written, the block's header points at the
      end of memory: no chain is spelt. */
  lemma {:induction false} NoChainOverrun(m0: seq<Byte>, m1: seq<Byte>, m2: seq<Byte>, s: seq<Seg>, i: int)
    requires Chain(m0, s) && 0 <= i == |s| - 1 && |m0| == |m1| <= |m2| && m2[..|m1|] == m1
    requires 0 <= s[i].start && s[i].start + SIZE <= |m0| && SameBut(m0, m1, {s[i].start})
    requires HeaderAt(m1, s[i].start).next + SIZE > |m2| && HeaderAt(m1, s[i].start).next >= 0
    ensures forall b :: !Chain(m2, b)
  {
    var h := HeaderAt(m1, s[i].start).next;
    var line := seq(i + 2, k requires 0 <= k < i + 2 => if k <= i then s[k].start else h);
    PrefixHeader(m1, m2, s[i].start);
    SameButJoin(m0, m1, m2, {s[i].start}, {});
    forall k | 0 <= k < i + 1 ensures LeadsOn(m2, line, k) {
      if k < i { LineKept(m0, m2, s, {s[i].start} + {}, line, k); }
    }
    hide Chain;
    forall b ensures !Chain(m2, b) {
      if Chain(m2, b) {
        ForwardPrefix(m2, b, line, i + 2);
        SegFacts(m2, b, i + 1);
      }
    }
  }

  /** A segment whose header is untouched leads on to the next as before. */
  lemma {:induction false} LineKept(m0: seq<Byte>, m1: seq<Byte>, s: seq<Seg>, at: set<int>, line: seq<int>, k: int)
    requires Chain(m0, s) && SameBut(m0, m1, at) && |m0| <= |m1| && 0 <= k && k + 1 < |s| && k + 1 < |line|
    requires line[k] == s[k].start && line[k + 1] == s[k + 1].start
    requires forall a :: a in at ==> (exists j :: k < j < |s| && s[j].start == a) || Clear({a}, s[k].start, SIZE)
    ensures LeadsOn(m1, line, k)
  {
    SegFacts(m0, s, k);
    SegFacts(m0, s, k + 1);
    forall a | a in at ensures s[k].start + SIZE <= a || a + SIZE <= s[k].start {
      if j :| k < j < |s| && s[j].start == a {
        Ordered(s, |m0|, k, j);
      } else {
        assert Clear({a}, s[k].start, SIZE) && a in {a};
      }
    }
    HeaderKept(m0, m1, at, s[k].start);
  }

  /** What growth after a used last segment, as written, has written at the end: a
      header at page 1, one at h unless the block ends with a page, and the header
      before the last segment's, or most of the first one. */
  ghost predicate Trampled(m0: seq<Byte>, m4: seq<Byte>, s: seq<Seg>, page: nat, h: int, exact: bool)
    requires |s| > 0
  {
    && |m0| < |m4| && 0 <= h && (!exact ==> h + SIZE <= |m4| && HeaderAt(m4, h).free)
    && if |s| == 1 && |m0| >= SIZE - FIRST then m4[0] == 255 else SameBut(m0, m4, Overwritten(s, page, h, exact))
  }

  ghost function Overwritten(s: seq<Seg>, page: nat, h: int, exact: bool): set<int>
    requires |s| > 0
  {
    (if |s| == 1 then {} else {s[|s| - 2].start}) + {page} + (if exact then {} else {h})
  }

  lemma {:induction false} Trample(
    m0: seq<Byte>, m1: seq<Byte>, m2: seq<Byte>, m3: seq<Byte>, m4: seq<Byte>, s: seq<Seg>, page: nat, tam: nat,
        exact: bool)
    requires Chain(m0, s) && page >= SIZE && page <= |m0| == |m1| < |m2| == |m3| == |m4| && !s[|s| - 1].free
    requires if |s| == 1 then (if |m0| < SIZE - FIRST then m1 == m0 else m1[0] == 255)
             else SelfBack(m0, m1, s[|s| - 2].start)
    requires m2[..|m1|] == m1 && page + SIZE <= |m4|
    requires var h := page + SIZE + tam;
      if exact then m3 == m2
      else h + SIZE <= |m4| && SameBut(m2, m3, {h}) && HeaderAt(m3, h) == Header(page, LAST, true)
    requires SameBut(m3, m4, {page})
    ensures !Met(m0, s, m4, Block(page + SIZE), tam)
    ensures TailsClear(s, page, page + SIZE + tam) && (|s| == 1 ==> |m0| >= SIZE - FIRST) ==> forall b :: !Chain(m4, b)
  {
    var h := page + SIZE + tam;
    var after := {page} + if exact then {} else {h};
    hide Chain, Met, TailsClear, HeaderAt, SameBut, Trampled, SelfBack;
    ChainSome(m0, s);
    if !exact { HeaderKept(m3, m4, {page}, h); }
    Later(m1, m2, m3, m4, page, h, exact);
    if |s| == 1 {
      if |m0| < SIZE - FIRST {
        SameButMore(m0, m4, after, Overwritten(s, page, h, exact));
      } else {
        FirstByte(m1, m4, after);
      }
    } else {
      SelfBackFrame(m0, m1, s[|s| - 2].start);
      SameButJoin(m0, m1, m4, {s[|s| - 2].start}, after);
      SameButMore(m0, m4, {s[|s| - 2].start} + after, Overwritten(s, page, h, exact));
    }
    TrampledIs(m0, m4, s, page, h, exact);
    TailNotMet(m0, m4, s, page, tam, exact);
    if |s| > 1 {
      NoChainBack(m0, m1, m4, s, page, h, after);
    } else {
      NoChainFirst(m4);
    }
  }

  /** A header at q has been written that points back at itself. */
  ghost predicate SelfBack(m0: seq<Byte>, m1: seq<Byte>, q: int) {
    0 <= q && q + SIZE <= |m0| && |m1| == |m0| && SameBut(m0, m1, {q}) && HeaderAt(m1, q).prev == q
  }

  lemma {:induction false} SelfBackFrame(m0: seq<Byte>, m1: seq<Byte>, q: int)
    requires SelfBack(m0, m1, q)
    ensures SameBut(m0, m1, {q}) && |m1| == |m0|
  {
  }

  lemma {:induction false} TrampledIs(m0: seq<Byte>, m4: seq<Byte>, s: seq<Seg>, page: nat, h: int, exact: bool)
    requires |s| > 0 && |m0| < |m4| && 0 <= h && (!exact ==> h + SIZE <= |m4| && HeaderAt(m4, h).free)
    requires if |s| == 1 && |m0| >= SIZE - FIRST then m4[0] == 255 else SameBut(m0, m4, Overwritten(s, page, h, exact))
    ensures Trampled(m0, m4, s, page, h, exact)
  {
  }

  lemma {:induction false} Later(m1: seq<Byte>, m2: seq<Byte>, m3: seq<Byte>, m4: seq<Byte>, page: int, h: int,
                                 exact: bool)
    requires |m1| < |m2| == |m3| == |m4| && m2[..|m1|] == m1 && SameBut(m3, m4, {page})
    requires if exact then m3 == m2 else SameBut(m2, m3, {h})
    ensures SameBut(m1, m4, {page} + if exact then {} else {h})
  {
    assert SameBut(m1, m2, {}) by { assert forall x :: 0 <= x < |m1| ==> m2[x] == m2[..|m1|][x]; }
    if exact {
      SameButJoin(m1, m2, m4, {}, {page});
      assert {} + {page} == {page} + {};
    } else {
      SameButJoin(m1, m2, m3, {}, {h});
      SameButJoin(m1, m3, m4, {} + {h}, {page});
      assert {} + {h} + {page} == {page} + {h};
    }
  }

  lemma {:induction false} FirstByte(m1: seq<Byte>, m4: seq<Byte>, at: set<int>)
    requires SameBut(m1, m4, at) && 0 < |m1| <= |m4| && forall a :: a in at ==> a > 0
    ensures m4[0] == m1[0]
  {
    assert Clear(at, 0, 1);
  }

  /** A first header's first byte is never 255. */
  lemma {:induction false} NoChainFirst(mem: seq<Byte>)
    ensures mem != [] && mem[0] == 255 ==> forall b :: !Chain(mem, b)
  {
    forall b | mem != [] && mem[0] == 255 ensures !Chain(mem, b) {
      if Chain(mem, b) {
        assert Here(mem, b, 0) && mem[0..4][0] == mem[0];
        DecFirst(mem[0..4]);
      }
    }
  }

  lemma {:induction false} DecFirst(s: seq<Byte>)
    requires |s| == 4 && Dec(s) == FIRST
    ensures s[0] == 254
  {
    var k := s[1] as int + 256 * (s[2] as int) + 0x1_0000 * (s[3] as int);
    assert s[0] as int + 256 * k == 0xffff_fffe;
  }

  /** No chain has a header that points back at its own start. */
  lemma {:induction false} NoChainBack(m0: seq<Byte>, m1: seq<Byte>, m4: seq<Byte>, s: seq<Seg>, page: nat, h: int,
                                       after: set<int>)
    requires Chain(m0, s) && |s| > 1 && SelfBack(m0, m1, s[|s| - 2].start) && |m1| <= |m4|
    requires SameBut(m1, m4, after) && after <= {page, h}
    ensures TailsClear(s, page, h) ==> forall b :: !Chain(m4, b)
  {
    var n := |s| - 2;
    var q := s[n].start;
    if TailsClear(s, page, h) {
      ClearLess(after, {page, h}, q);
      HeaderKept(m1, m4, after, q);
      SameButJoin(m0, m1, m4, {q}, after);
      var line := seq(n + 1, k requires 0 <= k <= n => s[k].start);
      StartsAtZero(m0, s);
      forall k | 0 <= k < n ensures LeadsOn(m4, line, k) {
        ClearLess(after, {page, h}, s[k].start);
        LineKept(m0, m4, s, {q} + after, line, k);
      }
      forall b ensures !Chain(m4, b) {
        if Chain(m4, b) { BackItself(m4, b, line, q); }
      }
    }
  }

  lemma {:induction false} ClearLess(a: set<int>, b: set<int>, x: int)
    requires a <= b && Clear(b, x, SIZE)
    ensures Clear(a, x, SIZE) && forall y :: y in a ==> Clear({y}, x, SIZE)
  {
  }

  lemma {:induction false} BackItself(mem: seq<Byte>, b: seq<Seg>, line: seq<int>, q: int)
    requires Chain(mem, b) && |line| > 0 && line[0] == 0 && line[|line| - 1] == q
    requires forall i :: 0 <= i < |line| - 1 ==> LeadsOn(mem, line, i)
    requires 0 <= q && q + SIZE <= |mem|
    ensures HeaderAt(mem, q).prev != q
  {
    var n := |line| - 1;
    ForwardPrefix(mem, b, line, n + 1);
    assert Here(mem, b, n);
    if n > 0 { Ordered(b, |mem|, n - 1, n); }
  }

  /** However the headers overlap, what that growth leaves is not the answer asked for:
      the last segment of before, still in use, would have to lead on to the new pages. */
  lemma {:induction false} TailNotMet(m0: seq<Byte>, m4: seq<Byte>, s: seq<Seg>, page: nat, tam: nat, exact: bool)
    requires Chain(m0, s) && page >= SIZE && page <= |m0| && !s[|s| - 1].free
    requires Trampled(m0, m4, s, page, page + SIZE + tam, exact)
    ensures !Met(m0, s, m4, Block(page + SIZE), tam)
  {
    if Met(m0, s, m4, Block(page + SIZE), tam) {
      var b :| Answered(m0, s, m4, b, Block(page + SIZE), tam);
      var n := |s| - 1;
      var j, k := BothThere(m0, m4, s, b, page, tam);
      SegFacts(m0, s, n);
      if |s| == 1 && |m0| >= SIZE - FIRST {
        NoChainFirst(m4);
      } else {
        TailKept(m0, m4, s, b, page, tam, exact, j, k);
        assert Here(m4, b, j);
        SegFacts(m4, b, j);
      }
    }
  }

  /** The last segment of before and the new block, in the chain after. */
  lemma {:induction false} BothThere(m0: seq<Byte>, m4: seq<Byte>, s: seq<Seg>, b: seq<Seg>, page: nat, tam: nat)
    returns (j: int, k: int)
    requires Chain(m0, s) && !s[|s| - 1].free && Answered(m0, s, m4, b, Block(page + SIZE), tam)
    ensures 0 <= j < |b| && 0 <= k < |b| && j != k && !b[j].free && !b[k].free
    ensures b[j].start == s[|s| - 1].start && EndOf(b, |m4|, j) == |m0|
    ensures b[k].start == page && EndOf(b, |m4|, k) == page + SIZE + tam
  {
    var n := |s| - 1;
    assert BlockOf(s, |m0|, n) in Live(s, |m0|);
    assert BlockOf(s, |m0|, n) in Live(b, |m4|) && (page + SIZE, tam) in Live(b, |m4|);
    j :| 0 <= j < |b| && !b[j].free && BlockOf(b, |m4|, j) == BlockOf(s, |m0|, n);
    k :| 0 <= k < |b| && !b[k].free && BlockOf(b, |m4|, k) == (page + SIZE, tam);
  }

  lemma {:induction false} TailKept(m0: seq<Byte>, m4: seq<Byte>, s: seq<Seg>, b: seq<Seg>, page: nat, tam: nat,
                                    exact: bool, j: int, k: int)
    requires Chain(m0, s) && Chain(m4, b) && page >= SIZE && !(|s| == 1 && |m0| >= SIZE - FIRST)
    requires Trampled(m0, m4, s, page, page + SIZE + tam, exact)
    requires 0 <= j < |b| && 0 <= k < |b| && j != k && !b[j].free && !b[k].free
    requires b[j].start == s[|s| - 1].start
    requires b[k].start == page && EndOf(b, |m4|, k) == page + SIZE + tam
    requires 0 <= s[|s| - 1].start && s[|s| - 1].start + SIZE <= |m0|
    ensures HeaderAt(m4, s[|s| - 1].start) == HeaderAt(m0, s[|s| - 1].start)
  {
    var n, h := |s| - 1, page + SIZE + tam;
    var at := Overwritten(s, page, h, exact);
    if n > 0 { Ordered(s, |m0|, n - 1, n); }
    if j < k { Ordered(b, |m4|, j, k); } else { Ordered(b, |m4|, k, j); }
    if !exact { NextOf(m4, b, k, j, h); }
    assert Clear(at, s[n].start, SIZE);
    HeaderKept(m0, m4, at, s[n].start);
  }

  lemma {:induction false} NextOf(mem: seq<Byte>, b: seq<Seg>, k: int, j: int, h: int)
    requires Chain(mem, b) && 0 <= k < |b| && EndOf(b, |mem|, k) == h && 0 <= h && h + SIZE <= |mem| &&
             HeaderAt(mem, h).free
    requires 0 <= j < |b| && !b[j].free
    ensures b[j].start + SIZE <= h || h + SIZE <= b[j].start
  {
    assert Here(mem, b, k + 1);
    if j < k + 1 { Ordered(b, |mem|, j, k + 1); } else if j > k + 1 { Ordered(b, |mem|, k + 1, j); }
  }

  ghost predicate CanOvergrow(m0: seq<Byte>, page: nat, prev: int, tam: nat, n: nat) {
    && 0 <= prev && prev + SIZE <= |m0| < 0x8000_0000 && SIZE <= page <= |m0| && page < 0x8000_0000
    && SIZE <= n * page && |m0| + n * page < 0x8000_0000 && (tam + SIZE == n * page || tam + SIZE + SIZE <= n * page)
  }

  /** Memory after that growth, byte by byte; prev is where the segment before the last begins. */
  ghost function Overgrown(m0: seq<Byte>, page: nat, prev: int, tam: nat, n: nat, junk: int -> Byte): seq<Byte>
    requires CanOvergrow(m0, page, prev, tam, n)
  {
    var h, exact := page + SIZE + tam, tam + SIZE == n * page;
    var m2 := Written(m0, prev, HeaderBytes(Header(prev, page, false))) + Fresh(n * page, junk);
    var m3 := if exact then m2 else Written(m2, h, HeaderBytes(Header(page, LAST, true)));
    Written(m3, page, HeaderBytes(Header(prev, if exact then LAST else h, false)))
  }

  /** Three blocks in use, in twelve pages of 65538 bytes; the last one holds bytes that
      look like a header. */
  ghost function Unlucky(): seq<Byte> {
    var m1 := Written(seq(786456, _ => 0), 0, HeaderBytes(Header(FIRST, 65536, false)));
    var m2 := Written(m1, 65536, HeaderBytes(Header(0, 131076, false)));
    var m3 := Written(m2, 131076, HeaderBytes(Header(65536, LAST, false)));
    Written(m3, 786433, HeaderBytes(Header(65536, LAST, false)))
  }

  const UNLUCKY: seq<Seg> := [Seg(0, false), Seg(65536, false), Seg(131076, false)]

  /** That no header of another segment is overwritten is a needed condition: here the block's header runs into the
      second one, and what results spells a chain, though not one with the block. */
  lemma {:induction false} ChanceChain(junk: int -> Byte)
    ensures Chain(Unlucky(), UNLUCKY) && NoFreePair(UNLUCKY) && !TailsClear(UNLUCKY, 65538, 65548)
    ensures CanOvergrow(Unlucky(), 65538, 65536, 1, 1)
    ensures Chain(Overgrown(Unlucky(), 65538, 65536, 1, 1, junk), [Seg(0, false), Seg(65536, true), Seg(786433, false)])
  {
    hide Overgrown, Unlucky, Chain, HeaderAt;
    UnluckyHeaders();
    ChainOfThree(Unlucky(), 65536, 131076, false);
    assert !Clear({65538, 65548}, UNLUCKY[1].start, SIZE) by { assert 65538 in {65538, 65548}; }
    ChanceHeaders(Unlucky(), junk);
    ChainOfThree(Overgrown(Unlucky(), 65538, 65536, 1, 1, junk), 65536, 786433, true);
  }

  lemma {:induction false} ChainOfThree(m: seq<Byte>, x: int, y: int, free: bool)
    requires SIZE <= x && x + SIZE <= y && y + SIZE <= |m| < 0x8000_0000
    requires HeaderAt(m, 0) == Header(FIRST, x, false) && HeaderAt(m, x) == Header(0, y, free)
    requires HeaderAt(m, y) == Header(x, LAST, false)
    ensures Chain(m, [Seg(0, false), Seg(x, free), Seg(y, false)])
  {
    hide HeaderAt;
    var b := [Seg(0, false), Seg(x, free), Seg(y, false)];
    assert Here(m, b, 0) && Here(m, b, 1) && Here(m, b, 2);
  }

  lemma {:induction false} UnluckyHeaders()
    ensures var m := Unlucky();
      && |m| == 786456 && HeaderAt(m, 0) == Header(FIRST, 65536, false)
      && HeaderAt(m, 65536) == Header(0, 131076, false)
      && HeaderAt(m, 131076) == Header(65536, LAST, false) && HeaderAt(m, 786433) == Header(65536, LAST, false)
  {
    var m0: seq<Byte> := seq(786456, _ => 0);
    var m1 := Written(m0, 0, HeaderBytes(Header(FIRST, 65536, false)));
    var m2 := Written(m1, 65536, HeaderBytes(Header(0, 131076, false)));
    var m3 := Written(m2, 131076, HeaderBytes(Header(65536, LAST, false)));
    var m4 := Written(m3, 786433, HeaderBytes(Header(65536, LAST, false)));
    assert m4 == Unlucky();
    WriteThenRead(m0, 0, Header(FIRST, 65536, false));
    WriteThenRead(m1, 65536, Header(0, 131076, false));
    WriteThenRead(m2, 131076, Header(65536, LAST, false));
    WriteThenRead(m3, 786433, Header(65536, LAST, false));
    hide Written, HeaderBytes, HeaderAt, Unlucky, SameBut;
    HeaderKept(m1, m2, {65536}, 0);
    HeaderKept(m2, m3, {131076}, 0);
    HeaderKept(m3, m4, {786433}, 0);
    HeaderKept(m2, m3, {131076}, 65536);
    HeaderKept(m3, m4, {786433}, 65536);
    HeaderKept(m3, m4, {786433}, 131076);
  }

  lemma {:induction false} ChanceHeaders(m0: seq<Byte>, junk: int -> Byte)
    requires |m0| == 786456 && HeaderAt(m0, 0) == Header(FIRST, 65536, false)
    requires HeaderAt(m0, 786433) == Header(65536, LAST, false)
    ensures CanOvergrow(m0, 65538, 65536, 1, 1)
    ensures var m := Overgrown(m0, 65538, 65536, 1, 1, junk);
      && |m| == 851994 && HeaderAt(m, 0) == Header(FIRST, 65536, false)
      && HeaderAt(m, 65536) == Header(0, 786433, true) && HeaderAt(m, 786433) == Header(65536, LAST, false)
  {
    hide Written, HeaderBytes, HeaderAt, SameBut, Fresh;
    var m1 := Written(m0, 65536, HeaderBytes(Header(65536, 65538, false)));
    var m2 := m1 + Fresh(1 * 65538, junk);
    var m3 := Written(m2, 65548, HeaderBytes(Header(65538, LAST, true)));
    var m4 := Written(m3, 65538, HeaderBytes(Header(65536, 65548, false)));
    assert m4 == Overgrown(m0, 65538, 65536, 1, 1, junk);
    hide Overgrown;
    MixedHeader(m0, m1, m2, m3, m4);
    WriteThenRead(m0, 65536, Header(65536, 65538, false));
    WriteThenRead(m2, 65548, Header(65538, LAST, true));
    WriteThenRead(m3, 65538, Header(65536, 65548, false));
    assert m2[..|m1|] == m1;
    PrefixHeader(m1, m2, 0);
    PrefixHeader(m1, m2, 786433);
    HeaderKept(m0, m1, {65536}, 0);
    HeaderKept(m2, m3, {65548}, 0);
    HeaderKept(m3, m4, {65538}, 0);
    HeaderKept(m0, m1, {65536}, 786433);
    HeaderKept(m2, m3, {65548}, 786433);
    HeaderKept(m3, m4, {65538}, 786433);
  }

  /** Two bytes of the one header, seven of the other. */
  lemma {:induction false} MixedHeader(m0: seq<Byte>, m1: seq<Byte>, m2: seq<Byte>, m3: seq<Byte>, m4: seq<Byte>)
    requires |m0| == 786456 && |m2| == 851994 && m2[..|m0|] == m1
    requires m1 == Written(m0, 65536, HeaderBytes(Header(65536, 65538, false)))
    requires m3 == Written(m2, 65548, HeaderBytes(Header(65538, LAST, true)))
    requires m4 == Written(m3, 65538, HeaderBytes(Header(65536, 65548, false)))
    ensures HeaderAt(m4, 65536) == Header(0, 786433, true)
  {
    var a, b := HeaderBytes(Header(65536, 65538, false)), HeaderBytes(Header(65536, 65548, false));
    assert m1[65536..65545] == a && a[0] == 0 && a[1] == 0 && b == [0, 0, 1, 0, 12, 0, 1, 0, 0];
    hide HeaderBytes, Enc;
    assert m4[65536] == m3[65536] == m2[65536] == m2[..|m1|][65536] == m1[65536..65545][0];
    assert m4[65537] == m3[65537] == m2[65537] == m2[..|m1|][65537] == m1[65536..65545][1];
    assert m4[65536..65540] == [0, 0, 0, 0] && m4[65540..65544] == [1, 0, 12, 0];
  }
}
