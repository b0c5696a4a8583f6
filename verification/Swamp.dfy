/** The swap store: files of frames, a pool of free frames, and per process the
    list of its pages and their frames, under dynamic or fixed allocation. To its
    client it is a map from (process, page) to page contents. */
module Swamp {
  import opened Base
  import opened SwapSpace

  const NONE: int := -1

  function Zeros(n: nat): (z: seq<Byte>)
    ensures |z| == n && forall k :: 0 <= k < n ==> z[k] == 0
  {
    seq(n, _ => 0)
  }

  /** marcosLibes and marcosLIbresFija: the free pool at the start, file after file. */
  method MarcosLibres(layout: Layout) returns (todos: seq<Frame>)
    requires layout.Unit() > 0
    ensures todos == Pool(layout) && Ascends(todos)
    ensures var unit := if layout.fixed then layout.pageSize * layout.maxPages else layout.pageSize;
            forall file, base :: Frame(file, base) in todos <==>
              (0 <= file < layout.files && base % unit == 0 &&
               0 <= base < (if layout.fixed then layout.fileSize - unit else layout.fileSize))
  {
    todos := [];
    var i := 0;
    while i < layout.files
      invariant 0 <= i <= layout.files && todos == PoolUpTo(layout, i)
    {
      var j := 0;
      ghost var antes := todos;
      while j < Limit(layout)
        invariant 0 <= j &&
                  antes + Bases(i, layout.Unit(), Limit(layout), 0) == todos + Bases(i, layout.Unit(), Limit(layout), j)
        decreases Limit(layout) - j
      {
        todos := todos + [Frame(i, j)];
        j := j + layout.Unit();
      }
      i := i + 1;
    }
    PoolExact(layout);
  }

  /** The first free unit of this file was taken: the one at this base. */
  ghost predicate FirstTaken(free: seq<Frame>, free': seq<Frame>, file: int, base: int) {
    exists i :: 0 <= i < |free| && free[i] == SwapSpace.Frame(file, base) && free' == Without(free, i) &&
                forall j :: 0 <= j < i ==> free[j].file != file
  }

  class Almacen {
    const c: Layout
    const archivos: array2<Byte>
    var libres: seq<Frame>
    var carpinchos: seq<Process>
    var cantPorArchivo: seq<int>

    ghost predicate Valid()
      reads this
    {
      && archivos.Length0 == c.files && archivos.Length1 == c.fileSize
      && Store(c, carpinchos, libres) && Counted(c, carpinchos, cantPorArchivo)
    }

    /** The bytes of one frame. */
    ghost function Bytes(f: Frame): (s: seq<Byte>)
      reads archivos
      requires archivos.Length0 == c.files && archivos.Length1 == c.fileSize && InRange(c, f)
      ensures |s| == c.pageSize && forall k :: 0 <= k < |s| ==> s[k] == archivos[f.file, f.base + k]
    {
      seq(c.pageSize, k requires 0 <= k < c.pageSize reads archivos => archivos[f.file, f.base + k])
    }

    /** The map the client sees. */
    ghost function Content(pid: int, page: int): (r: Option<seq<Byte>>)
      reads this, archivos
      requires Valid()
    {
      LookupInside(c, carpinchos, libres, pid, page);
      match Lookup(carpinchos, pid, page)
      case None => Option.None
      case Some(f) => Some(Bytes(f))
    }

    // -------------------------------------------------------------- start-up

    constructor (layout: Layout)
      requires layout.Ok() && layout.Unit() > 0
      ensures Valid() && c == layout && carpinchos == [] && libres == Pool(c) && fresh(archivos)
      ensures Ascends(libres) && forall file, base :: Frame(file, base) in libres <==>
                (0 <= file < c.files && 0 <= base < Limit(c) && base % c.Unit() == 0)
    {
      c := layout;
      archivos := new Byte[layout.files, layout.fileSize]((_, _) => 0);
      carpinchos := [];
      cantPorArchivo := seq(layout.files, _ => 0);
      var todos := MarcosLibres(layout);
      libres := todos;
    }

    // ------------------------------------------------------------ look-ups

    method BuscarCarpincho(pid: int) returns (k: int)
      ensures k == IndexOf(carpinchos, pid)
    {
      k := 0;
      while k < |carpinchos|
        invariant 0 <= k <= |carpinchos| && forall i :: 0 <= i < k ==> carpinchos[i].pid != pid
      {
        if carpinchos[k].pid == pid { return; }
        k := k + 1;
      }
      k := NONE;
    }

    /** tieneMarcoPaginas, buscarMarcoXPagina; also the search for an empty slot. */
    method BuscarEntrada(es: seq<Entry>, pagina: int) returns (e: int)
      ensures e == EntryOf(es, pagina)
    {
      e := 0;
      while e < |es|
        invariant 0 <= e <= |es| && forall i :: 0 <= i < e ==> es[i].page != pagina
      {
        if es[e].page == pagina { return; }
        e := e + 1;
      }
      e := NONE;
    }

    /** buscarMarcoLibre, elegirBaseCarpincho: the first free unit of a file is taken. */
    method BuscarMarcoLibre(archivo: int) returns (base: int, ghost i: int)
      requires Valid()
      modifies `libres
      ensures base == NONE <==> FreeIn(old(libres), archivo) == 0
      ensures base == NONE ==> libres == old(libres)
      ensures base != NONE ==>
                0 <= i < |old(libres)| && old(libres)[i] == Frame(archivo, base) && libres == Without(old(libres), i)
      ensures base != NONE ==> forall j :: 0 <= j < i ==> old(libres)[j].file != archivo
    {
      FreeInSome(libres, archivo);
      base := NONE;
      var m := 0;
      while m < |libres|
        invariant 0 <= m <= |libres| && libres == old(libres)
        invariant forall j :: 0 <= j < m ==> libres[j].file != archivo
      {
        if libres[m].file == archivo {
          base := libres[m].base;
          FreeIsUnit(c, carpinchos, libres, m);
          i := m;
          libres := libres[..m] + libres[m + 1..];
          return;
        }
        m := m + 1;
      }
      i := NONE;
    }

    /** quedaPaginasEnArchivo */
    method QuedaPaginasEnArchivo(k: int) returns (b: bool)
      requires 0 <= k < |carpinchos|
      ensures b <==> FreeIn(libres, carpinchos[k].file) > 0
    {
      FreeInSome(libres, carpinchos[k].file);
      for m := 0 to |libres|
        invariant forall j :: 0 <= j < m ==> libres[j].file != carpinchos[k].file
      {
        if libres[m].file == carpinchos[k].file { return true; }
      }
      return false;
    }

    /** elegirMejorArchivoDOS */
    method ElegirMejorArchivo() returns (mejor: int)
      requires Valid()
      ensures mejor == NONE <==> libres == []
      ensures mejor != NONE ==> Best(libres, cantPorArchivo, mejor)
    {
      mejor := NONE;
      var mayorBloque, cantidad := 0, 99;
      var i := 0;
      if libres != [] { FreeIsUnit(c, carpinchos, libres, 0); }
      while i < c.files
        invariant 0 <= i <= c.files && (libres == [] ==> mejor == NONE)
        invariant libres != [] && i > 0 ==>
                    0 <= mejor < i && mayorBloque == FreeIn(libres, mejor) && cantidad == cantPorArchivo[mejor]
        invariant libres != [] ==> forall f :: 0 <= f < i ==>
                    (FreeIn(libres, f) <= mayorBloque && (FreeIn(libres, f) == mayorBloque && mayorBloque > 0 ==>
                      cantPorArchivo[f] > cantidad || (cantPorArchivo[f] == cantidad && mejor <= f)))
        invariant i == 0 ==> mayorBloque == 0
      {
        if |libres| != 0 {
          var contador := ContarLibres(i);
          if mayorBloque == 0 || (contador >= mayorBloque && cantPorArchivo[i] < cantidad) || contador > mayorBloque {
            mayorBloque, mejor, cantidad := contador, i, cantPorArchivo[i];
          }
        }
        i := i + 1;
      }
      if libres != [] { FreeInSome(libres, libres[0].file); }
    }

    method ContarLibres(archivo: int) returns (n: nat)
      ensures n == FreeIn(libres, archivo)
    {
      n := 0;
      for j := 0 to |libres|
        invariant n == FreeIn(libres[..j], archivo)
      {
        assert libres[..j + 1][..j] == libres[..j];
        if libres[j].file == archivo { n := n + 1; }
      }
      assert libres[..|libres|] == libres;
    }

    // ------------------------------------------------------------ file bytes

    /** memcpy into a frame. */
    method EscribirMarco(f: Frame, contenido: seq<Byte>)
      requires archivos.Length0 == c.files && archivos.Length1 == c.fileSize
      requires InRange(c, f) && |contenido| == c.pageSize
      modifies archivos
      ensures Bytes(f) == contenido
      ensures forall g :: InRange(c, g) && Apart(c, f, g) ==> Bytes(g) == old(Bytes(g))
    {
      for k := 0 to c.pageSize
        invariant forall x, y :: 0 <= x < c.files && 0 <= y < c.fileSize ==>
                    archivos[x, y] ==
                      if x == f.file && f.base <= y < f.base + k then contenido[y - f.base] else old(archivos[x, y])
      {
        archivos[f.file, f.base + k] := contenido[k];
      }
      assert Bytes(f) == contenido;
    }

    method LeerMarco(f: Frame) returns (data: seq<Byte>)
      requires archivos.Length0 == c.files && archivos.Length1 == c.fileSize && InRange(c, f)
      ensures data == Bytes(f)
    {
      data := [];
      for k := 0 to c.pageSize
        invariant |data| == k && forall i :: 0 <= i < k ==> data[i] == archivos[f.file, f.base + i]
      {
        data := data + [archivos[f.file, f.base + k]];
      }
      assert data == Bytes(f);
    }

    /** Writing over the frame of (pid, page) changes what is stored for it and nothing else. */
    method EscribirPagina(pid: int, pagina: int, f: Frame, contenido: seq<Byte>)
      requires Valid() && Lookup(carpinchos, pid, pagina) == Some(f) && |contenido| == c.pageSize
      modifies archivos
      ensures Valid() && Content(pid, pagina) == Some(contenido)
      ensures forall q, j :: (q, j) != (pid, pagina) ==> Content(q, j) == old(Content(q, j))
      ensures forall g :: InRange(c, g) && Apart(c, f, g) ==> Bytes(g) == old(Bytes(g))
    {
      LookupsApart(c, carpinchos, libres, pid, pagina);
      EscribirMarco(f, contenido);
    }

    /** Reading a frame that is held. */
    method LeerPagina(pid: int, pagina: int, f: Frame) returns (data: seq<Byte>)
      requires Valid() && Lookup(carpinchos, pid, pagina) == Some(f)
      ensures Content(pid, pagina) == Some(data)
    {
      LookupInside(c, carpinchos, libres, pid, pagina);
      data := LeerMarco(f);
    }

    // ---------------------------------------------------- dynamic allocation

    /** CrearCarpincho */
    method CrearCarpincho(pid: int) returns (r: int)
      requires Valid() && !c.fixed
      modifies `carpinchos, `cantPorArchivo
      ensures Valid() && r in {1, -1} && (r == 1 <==> libres != [] && IndexOf(old(carpinchos), pid) < 0)
      ensures r == -1 ==> carpinchos == old(carpinchos)
      ensures r == 1 ==> |carpinchos| > 0 && var p := carpinchos[|carpinchos| - 1];
                carpinchos == old(carpinchos) + [p] && p == Process(pid, p.file, 0, 0, []) &&
                    Best(libres, old(cantPorArchivo), p.file)
      ensures forall q, j :: j >= 0 ==> Content(q, j) == old(Content(q, j))
    {
      hide Store, Counted, Best, Lookup;
      var k := BuscarCarpincho(pid);
      var mejor := ElegirMejorArchivo();
      if mejor == NONE || k != NONE { return -1; }
      BestFile(libres, cantPorArchivo, mejor);
      StoreFacts(c, carpinchos, libres);
      var p := Process(pid, mejor, 0, 0, []);
      CountedSize(c, carpinchos, cantPorArchivo);
      CountsMore(c, carpinchos, cantPorArchivo, p);
      EnrolEmpty(c, carpinchos, libres, p);
      EnrolLookups(carpinchos, p);
      carpinchos := carpinchos + [p];
      cantPorArchivo := cantPorArchivo[mejor := cantPorArchivo[mejor] + 1];
      return 1;
    }

    /** solicitudPagina: a free frame of the process's file, if any, for this page. */
    method SolicitudPagina(pid: int, pagina: int) returns (r: int, ghost base: int)
      requires Valid() && !c.fixed && pagina >= 0
      modifies `carpinchos, `libres
      ensures Valid() && r in {1, -1}
      ensures var k := IndexOf(old(carpinchos), pid);
        && (r == 1 <==> k >= 0 && FreeIn(old(libres), old(carpinchos)[k].file) > 0)
        && (r == 1 ==> carpinchos == old(carpinchos)[k := Granted(old(carpinchos)[k], pagina, base)])
        && (r == 1 ==> FreeIn(libres, old(carpinchos)[k].file) == FreeIn(old(libres), old(carpinchos)[k].file) - 1)
        && (r == 1 ==> FirstTaken(old(libres), libres, old(carpinchos)[k].file, base))
      ensures r == -1 ==> carpinchos == old(carpinchos) && libres == old(libres)
      ensures r == 1 ==> Lookup(carpinchos, pid, pagina).Some?
      ensures forall q, j :: (q, j) != (pid, pagina) || old(Lookup(carpinchos, q, j)).Some? ==>
                Content(q, j) == old(Content(q, j))
    {
      hide Store, Counted, Lookup, FreeIn;
      var k := BuscarCarpincho(pid);
      base := NONE;
      if k == NONE { return -1, base; }
      var b;
      ghost var i;
      b, i := BuscarMarcoLibre(carpinchos[k].file);
      base := b;
      if b == NONE { return -1, base; }
      StoreFacts(c, carpinchos, old(libres));
      GrantKeeps(c, carpinchos, old(libres), k, i, pagina);
      GrantLookups(carpinchos, k, pagina, b);
      FreeInTake(old(libres), i, carpinchos[k].file);
      CountsSame(c, carpinchos, cantPorArchivo, k, Granted(carpinchos[k], pagina, b));
      carpinchos := carpinchos[k := Granted(carpinchos[k], pagina, b)];
      return 1, base;
    }

    /** agregarPaginaDinamica: the page's content is written, in a new frame if it had
        none; one must be free then. */
    method AgregarPaginaDinamica(pid: int, pagina: int, contenido: seq<Byte>) returns (r: int)
      requires Valid() && !c.fixed && pagina >= 0 && |contenido| == c.pageSize
      requires var k := IndexOf(carpinchos, pid);
        k >= 0 && Lookup(carpinchos, pid, pagina).None? ==> FreeIn(libres, carpinchos[k].file) > 0
      modifies `carpinchos, `libres, archivos
      ensures Valid() && r in {1, -1} && (r == 1 <==> IndexOf(old(carpinchos), pid) >= 0)
      ensures r == 1 ==> Content(pid, pagina) == Some(contenido)
      ensures forall q, j :: (q, j) != (pid, pagina) ==> Content(q, j) == old(Content(q, j))
      ensures r == -1 ==> Content(pid, pagina) == old(Content(pid, pagina))
    {
      hide Store, Counted, FreeIn;
      var k := BuscarCarpincho(pid);
      if k == NONE { return -1; }
      var e := BuscarEntrada(carpinchos[k].entries, pagina);
      if e == NONE {
        var si, base := SolicitudPagina(pid, pagina);
        StoreFacts(c, carpinchos, libres);
        k := BuscarCarpincho(pid);
        e := BuscarEntrada(carpinchos[k].entries, pagina);
      }
      EscribirPagina(pid, pagina, Frame(carpinchos[k].file, carpinchos[k].entries[e].base), contenido);
      return 1;
    }

    /** buscarPaginaDinamico: the page's content; or, when the process does not hold it
        but holds others, the content of its last one; or the text "|". */
    method BuscarPaginaDinamico(pid: int, pagina: int) returns (data: seq<Byte>)
      requires Valid() && !c.fixed
      ensures Content(pid, pagina).Some? ==> data == Content(pid, pagina).value && |data| == c.pageSize
      ensures Content(pid, pagina).None? ==>
                var k := IndexOf(carpinchos, pid);
                if k < 0 || |carpinchos[k].entries| == 0 then data == [124, 0]
                else
                  var last := Frame(carpinchos[k].file, carpinchos[k].entries[|carpinchos[k].entries| - 1].base);
                  InRange(c, last) && data == Bytes(last)
    {
      var k := BuscarCarpincho(pid);
      if k == NONE { return [124, 0]; }
      var es := carpinchos[k].entries;
      if |es| == 0 { return [124, 0]; }
      var e := BuscarEntrada(es, pagina);
      if e == NONE { e := |es| - 1; }
      EntryRange(c, carpinchos, libres, k, e);
      data := LeerMarco(Frame(carpinchos[k].file, es[e].base));
    }

    /** The first entry for a page is wiped, dropped, and its frame goes to the pool. */
    method SoltarEntrada(k: int, e: int, cuenta: int)
      requires Valid() && !c.fixed && 0 <= k < |carpinchos| && 0 <= e < |carpinchos[k].entries|
      requires e == EntryOf(carpinchos[k].entries, carpinchos[k].entries[e].page)
      requires cuenta == carpinchos[k].count - 1 || (!c.repaired && cuenta == carpinchos[k].count)
      modifies `carpinchos, `libres, archivos
      ensures Valid() && carpinchos == old(carpinchos)[k := Dropped(old(carpinchos)[k], e, cuenta)]
      ensures libres == old(libres) + [Frame(old(carpinchos)[k].file, old(carpinchos)[k].entries[e].base)]
      ensures var f := Frame(old(carpinchos)[k].file, old(carpinchos)[k].entries[e].base);
        InRange(c, f) && Bytes(f) == Zeros(c.pageSize) &&
        forall g :: InRange(c, g) && Apart(c, f, g) ==> Bytes(g) == old(Bytes(g))
      ensures Once(old(carpinchos)[k].entries, old(carpinchos)[k].entries[e].page) ==>
                Lookup(carpinchos, old(carpinchos)[k].pid, old(carpinchos)[k].entries[e].page).None?
      ensures forall q, j :: (q, j) != (old(carpinchos)[k].pid, old(carpinchos)[k].entries[e].page) ==>
                Content(q, j) == old(Content(q, j))
    {
      hide Store, Counted, Lookup, FreeIn;
      var p := carpinchos[k];
      var pagina := p.entries[e].page;
      StoreFacts(c, carpinchos, libres);
      IndexIs(carpinchos, k);
      HeldAtEntry(carpinchos, k, e);
      LookupInside(c, carpinchos, libres, p.pid, pagina);
      DropKeeps(c, carpinchos, libres, k, e, cuenta);
      DropLookups(carpinchos, k, pagina, cuenta);
      CountsSame(c, carpinchos, cantPorArchivo, k, Dropped(p, e, cuenta));
      EscribirPagina(p.pid, pagina, Frame(p.file, p.entries[e].base), Zeros(c.pageSize));
      carpinchos := carpinchos[k := Dropped(p, e, cuenta)];
      libres := libres + [Frame(p.file, p.entries[e].base)];
    }

    /** One round of borrarCarpincho: the first entry goes. */
    method SoltarPrimera(k: int)
      requires Valid() && !c.fixed && 0 <= k < |carpinchos| && |carpinchos[k].entries| > 0
      modifies `carpinchos, `libres, archivos
      ensures Valid() && |carpinchos| == |old(carpinchos)|
      ensures var p := old(carpinchos)[k];
        carpinchos == old(carpinchos)[k := p.(entries := p.entries[1..], count := p.count - 1)]
      ensures var f := Frame(old(carpinchos)[k].file, old(carpinchos)[k].entries[0].base);
        && libres == old(libres) + [f] && InRange(c, f) && Bytes(f) == Zeros(c.pageSize)
        && forall g :: InRange(c, g) && Apart(c, f, g) ==> Bytes(g) == old(Bytes(g))
      ensures forall q, j :: q != old(carpinchos)[k].pid ==> Content(q, j) == old(Content(q, j))
    {
      hide Store, Counted, Lookup, InRange, Apart;
      ghost var p := carpinchos[k];
      assert Dropped(p, 0, p.count - 1) == p.(entries := p.entries[1..], count := p.count - 1);
      SoltarEntrada(k, 0, carpinchos[k].count - 1);
    }

    /** borrarPagina. As written the process's page count is not brought down. */
    method BorrarPagina(pid: int, pagina: int) returns (r: int)
      requires Valid() && !c.fixed
      modifies `carpinchos, `libres, archivos
      ensures Valid() && r in {1, -1} && (r == 1 <==> old(Lookup(carpinchos, pid, pagina)).Some?)
      ensures r == -1 ==> carpinchos == old(carpinchos) && libres == old(libres)
      ensures r == 1 ==>
                var k := IndexOf(old(carpinchos), pid); var e := EntryOf(old(carpinchos)[k].entries, pagina);
                &&
                   carpinchos == old(carpinchos)[k := Dropped(old(carpinchos)[k], e,
                                                              old(carpinchos)[k].count - if c.repaired then 1 else 0)]
                && libres == old(libres) + [Frame(old(carpinchos)[k].file, old(carpinchos)[k].entries[e].base)]
                && InRange(c, libres[|libres| - 1]) && Bytes(libres[|libres| - 1]) == Zeros(c.pageSize)
                && (Once(old(carpinchos)[k].entries, pagina) ==> Lookup(carpinchos, pid, pagina).None?)
      ensures forall q, j :: (q, j) != (pid, pagina) ==> Content(q, j) == old(Content(q, j))
    {
      hide Store, Counted, FreeIn;
      var k := BuscarCarpincho(pid);
      if k == NONE { return -1; }
      var e := BuscarEntrada(carpinchos[k].entries, pagina);
      if e == NONE { return -1; }
      SoltarEntrada(k, e, carpinchos[k].count - if c.repaired then 1 else 0);
      return 1;
    }

    /** borrarCarpincho: as many times as the page count says, the first page is wiped
        and its frame given back. With fewer pages than that, it reads past the list. */
    method BorrarCarpincho(pid: int) returns (r: int, ok: bool)
      requires Valid() && !c.fixed
      modifies `carpinchos, `libres, `cantPorArchivo, archivos
      ensures r in {1, -1} && (r == 1 <==> IndexOf(old(carpinchos), pid) >= 0)
      ensures var k := IndexOf(old(carpinchos), pid);
        !ok <==> k >= 0 && old(carpinchos)[k].count > |old(carpinchos)[k].entries|
      ensures ok ==> Valid() && forall q, j :: q != pid ==> Content(q, j) == old(Content(q, j))
      ensures ok && r == -1 ==> carpinchos == old(carpinchos)
      ensures ok && r == 1 ==>
                carpinchos == Without(old(carpinchos), IndexOf(old(carpinchos), pid)) && IndexOf(carpinchos, pid) < 0
      ensures ok && r == 1 ==>
                var fs := FramesOf(old(carpinchos)[IndexOf(old(carpinchos), pid)]);
                && libres == old(libres) + fs
                && forall e :: 0 <= e < |fs| ==> InRange(c, fs[e]) && Bytes(fs[e]) == Zeros(c.pageSize)
    {
      hide Store, Counted, FreeIn, Lookup, InRange, Apart, EntriesOk, FramesOf, Distinct, Zeros;
      StoreFacts(c, carpinchos, libres);
      r, ok := -1, true;
      var k := BuscarCarpincho(pid);
      if k == NONE { return; }
      r := 1;
      ghost var ps, done, fs := carpinchos, 0, FramesOf(carpinchos[k]);
      FramesApart(c, carpinchos, libres, k);
      while carpinchos[k].count > 0
        invariant Valid() && |carpinchos| == |ps| && carpinchos == ps[k := carpinchos[k]] && carpinchos[k].pid == pid
        invariant 0 <= done <= |fs| && carpinchos[k].entries == ps[k].entries[done..]
        invariant libres == old(libres) + fs[..done]
        invariant forall e :: 0 <= e < done ==> Bytes(fs[e]) == Zeros(c.pageSize)
        invariant carpinchos[k].file == ps[k].file &&
                  carpinchos[k].count - |carpinchos[k].entries| == ps[k].count - |ps[k].entries|
        invariant forall q, j :: q != pid ==> Content(q, j) == old(Content(q, j))
        decreases carpinchos[k].count
      {
        if |carpinchos[k].entries| == 0 {
          ok := false;
          return;
        }
        assert Frame(carpinchos[k].file, carpinchos[k].entries[0].base) == fs[done];
        SoltarPrimera(k);
        StoreFacts(c, carpinchos, libres);
        done := done + 1;
      }
      CountDone(c, carpinchos, libres, k);
      StoreFacts(c, carpinchos, libres);
      LeaveKeeps(c, carpinchos, libres, k, libres);
      LeaveLookups(carpinchos, k);
      GoneIndex(carpinchos, k);
      CountsLess(c, carpinchos, cantPorArchivo, k);
      CountedSize(c, carpinchos, cantPorArchivo);
      cantPorArchivo := cantPorArchivo[carpinchos[k].file := cantPorArchivo[carpinchos[k].file] - 1];
      carpinchos := carpinchos[..k] + carpinchos[k + 1..];
    }

    // ------------------------------------------------------ fixed allocation

    /** crearCarpinchoFijaDOS: a free unit of the best file, its pages' places laid out. */
    method CrearCarpinchoFija(pid: int) returns (r: int)
      requires Valid() && c.fixed
      modifies `carpinchos, `libres, `cantPorArchivo
      ensures Valid() && r in {1, -1} && (r == 1 <==> old(libres) != [] && IndexOf(old(carpinchos), pid) < 0)
      ensures r == -1 ==> carpinchos == old(carpinchos) && libres == old(libres)
      ensures r == 1 ==> |carpinchos| > 0 && var p := carpinchos[|carpinchos| - 1];
                carpinchos == old(carpinchos) + [p] && p == Process(pid, p.file, 0, p.base, Slots(c, p.base)) &&
                    p.base >= 0 &&
                Best(old(libres), old(cantPorArchivo), p.file) && FirstTaken(old(libres), libres, p.file, p.base)
      ensures forall q, j :: j >= 0 ==> Content(q, j) == old(Content(q, j))
    {
      hide Store, Counted, Best, Lookup, FreeIn, WellCut;
      var k := BuscarCarpincho(pid);
      var mejor := ElegirMejorArchivo();
      if mejor == NONE || k != NONE { return -1; }
      BestFile(libres, cantPorArchivo, mejor);
      StoreFacts(c, carpinchos, libres);
      CountedSize(c, carpinchos, cantPorArchivo);
      ghost var antes := libres;
      var base;
      ghost var i;
      base, i := BuscarMarcoLibre(mejor);
      var p := Process(pid, mejor, 0, base, Slots(c, base));
      FreeBase(c, carpinchos, antes, i);
      EnrolUnit(c, carpinchos, antes, p, i);
      EnrolLookups(carpinchos, p);
      CountsMore(c, carpinchos, cantPorArchivo, p);
      carpinchos := carpinchos + [p];
      cantPorArchivo := cantPorArchivo[mejor := cantPorArchivo[mejor] + 1];
      return 1;
    }

    /** A slot is given to a page or emptied. */
    method PonerRanura(k: int, e: int, pagina: int, cuenta: int)
      requires Valid() && c.fixed && 0 <= k < |carpinchos| && 0 <= e < |carpinchos[k].entries| && pagina >= NO_PAGE
      requires pagina == NO_PAGE ||
               (carpinchos[k].entries[e].page == NO_PAGE && EntryOf(carpinchos[k].entries, pagina) < 0)
      modifies `carpinchos
      ensures Valid() && carpinchos == old(carpinchos)[k := WithSlot(old(carpinchos)[k], e, pagina, cuenta)]
      ensures var was := old(carpinchos)[k].entries[e].page; var pid := old(carpinchos)[k].pid;
        &&
           (pagina >= 0 ==>
            Lookup(carpinchos, pid, pagina) == Some(Frame(old(carpinchos)[k].file, old(carpinchos)[k].entries[e].base)))
        && (was >= 0 ==> Lookup(carpinchos, pid, was).None?)
        &&
           (forall q, j :: j >= 0 && (q, j) != (pid, pagina) && (q, j) != (pid, was) ==>
            Content(q, j) == old(Content(q, j)))
    {
      hide Store, Counted, Lookup;
      StoreFacts(c, carpinchos, libres);
      SlotKeeps(c, carpinchos, libres, k, e, pagina, cuenta);
      SlotLookups(c, carpinchos, k, e, pagina, cuenta);
      CountsSame(c, carpinchos, cantPorArchivo, k, WithSlot(carpinchos[k], e, pagina, cuenta));
      carpinchos := carpinchos[k := WithSlot(carpinchos[k], e, pagina, cuenta)];
    }

    /** remplazoPaginaFija: the page's content is written, in an empty slot if it had
        none; there must be one then. */
    method RemplazoPaginaFija(pid: int, pagina: int, contenido: seq<Byte>) returns (r: int)
      requires Valid() && c.fixed && pagina >= 0 && |contenido| == c.pageSize
      requires var k := IndexOf(carpinchos, pid);
        k >= 0 && Lookup(carpinchos, pid, pagina).None? ==> EntryOf(carpinchos[k].entries, NO_PAGE) >= 0
      modifies `carpinchos, archivos
      ensures Valid() && r in {1, -1} && (r == 1 <==> IndexOf(old(carpinchos), pid) >= 0)
      ensures r == 1 ==> Content(pid, pagina) == Some(contenido)
      ensures forall q, j :: j >= 0 && (q, j) != (pid, pagina) ==> Content(q, j) == old(Content(q, j))
      ensures r == -1 ==> Content(pid, pagina) == old(Content(pid, pagina))
    {
      hide Store, Counted;
      var k := BuscarCarpincho(pid);
      if k == NONE { return -1; }
      StoreFacts(c, carpinchos, libres);
      var e := BuscarEntrada(carpinchos[k].entries, pagina);
      if e == NONE {
        e := BuscarEntrada(carpinchos[k].entries, NO_PAGE);
        PonerRanura(k, e, pagina, carpinchos[k].count + 1);
      }
      EscribirPagina(pid, pagina, Frame(carpinchos[k].file, carpinchos[k].entries[e].base), contenido);
      return 1;
    }

    /** buscarPaginaFija, for a known process: nothing if it does not hold the page. */
    method BuscarPaginaFija(pid: int, pagina: int) returns (data: Option<seq<Byte>>)
      requires Valid() && c.fixed && IndexOf(carpinchos, pid) >= 0
      ensures data == Content(pid, pagina)
    {
      var k := BuscarCarpincho(pid);
      var e := BuscarEntrada(carpinchos[k].entries, pagina);
      if e == NONE { return Option.None; }
      var d := LeerPagina(pid, pagina, Frame(carpinchos[k].file, carpinchos[k].entries[e].base));
      return Some(d);
    }

    /** BorrarPaginaFija, for a known process. */
    method BorrarPaginaFija(pid: int, pagina: int) returns (r: int)
      requires Valid() && c.fixed && pagina >= 0 && IndexOf(carpinchos, pid) >= 0
      modifies `carpinchos, archivos
      ensures Valid() && r in {1, -1} && (r == 1 <==> old(Lookup(carpinchos, pid, pagina)).Some?)
      ensures r == -1 ==> carpinchos == old(carpinchos)
      ensures Lookup(carpinchos, pid, pagina).None?
      ensures r == 1 ==>
                var k := IndexOf(old(carpinchos), pid); var e := EntryOf(old(carpinchos)[k].entries, pagina);
                &&
                   carpinchos == old(carpinchos)[k := WithSlot(old(carpinchos)[k], e, NO_PAGE,
                                                               old(carpinchos)[k].count)]
                && var f := Frame(old(carpinchos)[k].file, old(carpinchos)[k].entries[e].base);
                   InRange(c, f) && Bytes(f) == Zeros(c.pageSize)
      ensures forall q, j :: j >= 0 && (q, j) != (pid, pagina) ==> Content(q, j) == old(Content(q, j))
    {
      hide Store, Counted;
      var k := BuscarCarpincho(pid);
      var e := BuscarEntrada(carpinchos[k].entries, pagina);
      if e == NONE { return -1; }
      LookupInside(c, carpinchos, libres, pid, pagina);
      EscribirPagina(pid, pagina, Frame(carpinchos[k].file, carpinchos[k].entries[e].base), Zeros(c.pageSize));
      PonerRanura(k, e, NO_PAGE, carpinchos[k].count);
      return 1;
    }

    /** solicitarPaginaFija: an empty slot, if there is one, for a page not held. */
    method SolicitarPaginaFija(pid: int, pagina: int) returns (r: int)
      requires Valid() && c.fixed && pagina >= 0
      modifies `carpinchos
      ensures Valid() && r in {1, -1}
      ensures var k := IndexOf(old(carpinchos), pid);
        && (r == 1 <==> k >= 0)
        && (k < 0 || old(Lookup(carpinchos, pid, pagina)).Some? || EntryOf(old(carpinchos)[k].entries, NO_PAGE) < 0 ==>
              carpinchos == old(carpinchos))
        &&
           (k >= 0 && old(Lookup(carpinchos, pid, pagina)).None? &&
            EntryOf(old(carpinchos)[k].entries, NO_PAGE) >= 0 ==>
              carpinchos == old(carpinchos)[k := WithSlot(old(carpinchos)[k],
                                                          EntryOf(old(carpinchos)[k].entries, NO_PAGE), pagina,
                                                              old(carpinchos)[k].count)]
              && Lookup(carpinchos, pid, pagina).Some?)
      ensures forall q, j :: j >= 0 && (q, j) != (pid, pagina) ==> Content(q, j) == old(Content(q, j))
      ensures old(Lookup(carpinchos, pid, pagina)).Some? ==> Content(pid, pagina) == old(Content(pid, pagina))
    {
      hide Store, Counted;
      var k := BuscarCarpincho(pid);
      if k == NONE { return -1; }
      var e := BuscarEntrada(carpinchos[k].entries, pagina);
      if e == NONE {
        var libre := BuscarEntrada(carpinchos[k].entries, NO_PAGE);
        if libre != NONE { PonerRanura(k, libre, pagina, carpinchos[k].count); }
      }
      return 1;
    }

    /** borrarCarpinchoFija: the whole unit is wiped and given back. */
    method BorrarCarpinchoFija(pid: int) returns (r: int)
      requires Valid() && c.fixed
      modifies `carpinchos, `libres, `cantPorArchivo, archivos
      ensures Valid() && r in {1, -1} && (r == 1 <==> IndexOf(old(carpinchos), pid) >= 0)
      ensures r == -1 ==> carpinchos == old(carpinchos) && libres == old(libres)
      ensures r == 1 ==>
                var k := IndexOf(old(carpinchos), pid);
                && carpinchos == Without(old(carpinchos), k) &&
                   libres == old(libres) + [Frame(old(carpinchos)[k].file, old(carpinchos)[k].base)]
                && var p := old(carpinchos)[k];
                   && 0 <= p.file < c.files && 0 <= p.base && p.base + c.Unit() <= c.fileSize
                   && forall y :: p.base <= y < p.base + c.Unit() ==> archivos[p.file, y] == 0
      ensures IndexOf(carpinchos, pid) < 0
      ensures forall q, j :: q != pid ==> Content(q, j) == old(Content(q, j))
    {
      hide Store, Counted, Lookup;
      StoreFacts(c, carpinchos, libres);
      var k := BuscarCarpincho(pid);
      if k == NONE { return -1; }
      var p := carpinchos[k];
      UnitInside(c, carpinchos, libres, k);
      UnitApart(c, carpinchos, libres, k);
      BorrarUnidad(p.file, p.base);
      ghost var devuelto := libres + [Frame(p.file, p.base)];
      LeaveKeeps(c, carpinchos, libres, k, devuelto);
      LeaveLookups(carpinchos, k);
      GoneIndex(carpinchos, k);
      CountsLess(c, carpinchos, cantPorArchivo, k);
      CountedSize(c, carpinchos, cantPorArchivo);
      cantPorArchivo := cantPorArchivo[p.file := cantPorArchivo[p.file] - 1];
      carpinchos := carpinchos[..k] + carpinchos[k + 1..];
      libres := libres + [Frame(p.file, p.base)];
      return 1;
    }

    method BorrarUnidad(archivo: int, base: int)
      requires archivos.Length0 == c.files && archivos.Length1 == c.fileSize
      requires 0 <= archivo < c.files && 0 <= base && base + c.Unit() <= c.fileSize
      modifies archivos
      ensures forall g ::
                InRange(c, g) && (g.file != archivo || base + c.Unit() <= g.base || g.base + c.pageSize <= base) ==>
                Bytes(g) == old(Bytes(g))
      ensures forall y :: base <= y < base + c.Unit() ==> archivos[archivo, y] == 0
    {
      for k := 0 to c.Unit()
        invariant forall y :: base <= y < base + k ==> archivos[archivo, y] == 0
        invariant forall x, y ::
                    0 <= x < c.files && 0 <= y < c.fileSize && !(x == archivo && base <= y < base + c.Unit()) ==>
                    archivos[x, y] == old(archivos[x, y])
      {
        archivos[archivo, base + k] := 0;
      }
    }

    // ------------------------------------------------------------- requests

    /** OBTENER_PAGINA. The handler takes content that spells "|" for "no such page"; under
        fixed allocation it must be asked for a page that is held. */
    method ObtenerPagina(pid: int, pagina: int) returns (r: Option<seq<Byte>>)
      requires Valid() && (c.fixed ==> Lookup(carpinchos, pid, pagina).Some?)
      ensures Content(pid, pagina).Some? ==>
                r == if LooksMissing(Content(pid, pagina).value) then Option.None else Content(pid, pagina)
      ensures Content(pid, pagina).None? ==>
                var k := IndexOf(carpinchos, pid);
                if k < 0 || |carpinchos[k].entries| == 0 then r.None?
                else
                  var last := Frame(carpinchos[k].file, carpinchos[k].entries[|carpinchos[k].entries| - 1].base);
                  InRange(c, last) && r == if LooksMissing(Bytes(last)) then Option.None else Some(Bytes(last))
    {
      var data;
      if c.fixed {
        var d := BuscarPaginaFija(pid, pagina);
        data := d.value;
      } else {
        data := BuscarPaginaDinamico(pid, pagina);
      }
      return if LooksMissing(data) then Option.None else Some(data);
    }

    /** SOLICITUD_PAGINA for a known process, in either mode. A page that is held already
        gets one more frame under dynamic allocation, and nothing under fixed; in either
        case a place must be left, and the page's content stays. */
    method PedirPagina(pid: int, pagina: int) returns (ok: bool, ghost x: int)
      requires Valid() && IndexOf(carpinchos, pid) >= 0 && pagina >= 0
      modifies `carpinchos, `libres
      ensures Valid() && IndexOf(carpinchos, pid) == IndexOf(old(carpinchos), pid)
      ensures ok <==> RoomLeft(c, old(carpinchos)[IndexOf(old(carpinchos), pid)], old(libres)) > 0
      ensures !ok ==> carpinchos == old(carpinchos) && libres == old(libres)
      ensures ok ==>
        var k := IndexOf(old(carpinchos), pid);
        var p := old(carpinchos)[k];
        var idle := c.fixed && old(Lookup(carpinchos, pid, pagina)).Some?;
        && Content(pid, pagina).Some?
        && RoomLeft(c, carpinchos[k], libres) == RoomLeft(c, p, old(libres)) - (if idle then 0 else 1)
        && if idle then carpinchos == old(carpinchos)
           else if c.fixed then
             0 <= x < |p.entries| && p.entries[x].page == NO_PAGE &&
             carpinchos == old(carpinchos)[k := WithSlot(p, x, pagina, p.count)]
           else carpinchos == old(carpinchos)[k := Granted(p, pagina, x)]
      ensures forall q, j :: j >= 0 && ((q, j) != (pid, pagina) || old(Lookup(carpinchos, q, j)).Some?) ==>
                Content(q, j) == old(Content(q, j))
    {
      hide Store, Counted, FreeIn;
      var k := BuscarCarpincho(pid);
      StoreFacts(c, carpinchos, libres);
      if c.fixed {
        var libre := BuscarEntrada(carpinchos[k].entries, NO_PAGE);
        NoSlots(carpinchos[k].entries);
        x := libre;
        var r := SolicitarPaginaFija(pid, pagina);
        ok := libre != NONE && r == 1;
        if ok { SlotTaken(old(carpinchos)[k], libre, pagina); }
      } else {
        var queda := QuedaPaginasEnArchivo(k);
        var r, base := SolicitudPagina(pid, pagina);
        x := base;
        ok := queda && r == 1;
      }
      StoreFacts(c, carpinchos, libres);
      IndexIs(old(carpinchos), k);
      if ok { IndexIs(carpinchos, k); }
    }

    /** One more page of a request of which j were granted. */
    method PedirOtra(pid: int, paginas: seq<int>, j: int, ghost ps: seq<Process>) returns (ok: bool)
      requires Valid() && 0 <= j < |paginas| && NamedOnce(paginas) && paginas[j] >= 0
      requires IndexOf(ps, pid) == IndexOf(carpinchos, pid) >= 0 &&
               Handed(c, ps, carpinchos, IndexOf(ps, pid), paginas, j)
      modifies `carpinchos, `libres
      ensures Valid() && IndexOf(carpinchos, pid) == IndexOf(ps, pid)
      ensures ok <==> RoomLeft(c, old(carpinchos)[IndexOf(ps, pid)], old(libres)) > 0
      ensures !ok ==> carpinchos == old(carpinchos) && libres == old(libres)
      ensures ok ==> Content(pid, paginas[j]).Some? && Handed(c, ps, carpinchos, IndexOf(ps, pid), paginas, j + 1)
      ensures ok ==>
                RoomLeft(c, carpinchos[IndexOf(ps, pid)], libres) + Spent(c, ps[IndexOf(ps, pid)], paginas, j + 1) ==
                RoomLeft(c, old(carpinchos)[IndexOf(ps, pid)], old(libres)) + Spent(c, ps[IndexOf(ps, pid)], paginas, j)
      ensures forall q, i :: i >= 0 && ((q, i) != (pid, paginas[j]) || old(Lookup(carpinchos, q, i)).Some?) ==>
                Content(q, i) == old(Content(q, i))
    {
      hide Store, Counted, FreeIn, Lookup, Handed, EntriesOk, RoomLeft, NamedOnce, Spent;
      ghost var k, antes := IndexOf(ps, pid), carpinchos;
      HandedRange(c, ps, carpinchos, k, paginas, j);
      HandedNext(c, ps, carpinchos, k, paginas, j);
      HeldWhen(carpinchos, k, pid, paginas[j]);
      SpentNext(c, ps[k], paginas, j);
      ghost var x;
      ok, x := PedirPagina(pid, paginas[j]);
      if !ok { return; }
      if !c.fixed {
        HandedGrant(c, ps, antes, k, paginas, j, x);
      } else if EntryOf(ps[k].entries, paginas[j]) < 0 {
        HandedFill(c, ps, antes, k, paginas, j, x);
      } else {
        HandedSkip(c, ps, antes, k, paginas, j);
      }
    }

    /** solicitud_muchas_paginas: the pages one by one, until one is denied. */
    method SolicitudMuchasPaginas(pid: int, paginas: seq<int>) returns (r: int, ghost hi: int)
      requires Valid() && IndexOf(carpinchos, pid) >= 0 && NamedOnce(paginas)
      modifies `carpinchos, `libres
      ensures Valid() && r in {1, -1} && IndexOf(carpinchos, pid) == IndexOf(old(carpinchos), pid)
      ensures Handed(c, old(carpinchos), carpinchos, IndexOf(old(carpinchos), pid), paginas, hi)
      ensures r == 1 <==> AllFit(c, old(carpinchos)[IndexOf(old(carpinchos), pid)], old(libres), paginas)
      ensures r == 1 <==> hi == |paginas|
      ensures forall i :: 0 <= i < hi <= |paginas| ==> Content(pid, paginas[i]).Some?
      ensures forall q, j :: j >= 0 && (!(q == pid && j in paginas) || old(Lookup(carpinchos, q, j)).Some?) ==>
                Content(q, j) == old(Content(q, j))
    {
      hide Store, Counted, FreeIn, Lookup, Handed, EntriesOk, RoomLeft, NamedOnce, Spent;
      ghost var k, ps := IndexOf(carpinchos, pid), carpinchos;
      ghost var room := RoomLeft(c, ps[k], libres);
      HandedStart(c, ps, k, paginas);
      NamedPositive(paginas);
      SpentBound(c, ps[k], paginas, 0);
      var j := 0;
      while j < |paginas|
        invariant Valid() && 0 <= j <= |paginas| && IndexOf(carpinchos, pid) == k
        invariant Handed(c, ps, carpinchos, k, paginas, j)
        invariant RoomLeft(c, carpinchos[k], libres) == room - Spent(c, ps[k], paginas, j)
        invariant forall i :: 0 <= i < j ==> Spent(c, ps[k], paginas, i) < room
        invariant forall i :: 0 <= i < j ==> Content(pid, paginas[i]).Some?
        invariant forall q, i :: i >= 0 && (!(q == pid && i in paginas) || old(Lookup(carpinchos, q, i)).Some?) ==>
                    Content(q, i) == old(Content(q, i))
      {
        hi := j;
        var ok := PedirOtra(pid, paginas, j, ps);
        if !ok { return -1, hi; }
        j := j + 1;
      }
      hi := j;
      return 1, hi;
    }

    /** One page of a denied request is given up, if it is held. */
    method DeshacerUna(pid: int, pagina: int)
      requires Valid() && IndexOf(carpinchos, pid) >= 0 && pagina >= 0
      modifies `carpinchos, `libres, archivos
      ensures Valid() && IndexOf(carpinchos, pid) == IndexOf(old(carpinchos), pid)
      ensures var k := IndexOf(old(carpinchos), pid);
        var p := old(carpinchos)[k];
        && |carpinchos| == |old(carpinchos)|
        && carpinchos == old(carpinchos)[k := p.(entries := Undo1(c, p.entries, pagina), count := carpinchos[k].count)]
        && (c.fixed || !c.repaired ==> carpinchos[k].count == p.count)
        && (c.fixed ==> libres == old(libres))
      ensures forall q, j :: j >= 0 && (q, j) != (pid, pagina) ==> Content(q, j) == old(Content(q, j))
    {
      hide Store, Counted, FreeIn, Lookup, EntriesOk, Once, Undo1, InRange, Distinct;
      ghost var k := IndexOf(carpinchos, pid);
      StoreFacts(c, carpinchos, libres);
      UndoIs(c, carpinchos[k].entries, pagina);
      HeldWhen(carpinchos, k, pid, pagina);
      assert carpinchos == carpinchos[k := carpinchos[k]];
      if c.fixed {
        var _ := BorrarPaginaFija(pid, pagina);
      } else {
        var _ := BorrarPagina(pid, pagina);
      }
      StoreFacts(c, carpinchos, libres);
      IndexIs(carpinchos, k);
    }

    /** Taking back a denied request: each of its pages, granted or not, is given up once,
        in order. */
    method DeshacerPedido(pid: int, paginas: seq<int>)
      requires Valid() && IndexOf(carpinchos, pid) >= 0 && NamedOnce(paginas)
      modifies `carpinchos, `libres, archivos
      ensures Valid()
      ensures var k := IndexOf(old(carpinchos), pid);
        var p := old(carpinchos)[k];
        && |carpinchos| == |old(carpinchos)|
        &&
           carpinchos == old(carpinchos)[k := p.(entries := UndoAll(c, p.entries, paginas),
                                                 count := carpinchos[k].count)]
        && (c.fixed || !c.repaired ==> carpinchos[k].count == p.count)
        && (c.fixed ==> libres == old(libres))
      ensures forall q, j :: j >= 0 && !(q == pid && j in paginas) ==> Content(q, j) == old(Content(q, j))
    {
      hide Store, Counted, Lookup, UndoAll, Undo1;
      ghost var k, ps := IndexOf(carpinchos, pid), carpinchos;
      UndoNone(c, ps[k].entries, paginas);
      assert ps == ps[k := ps[k]];
      var i := 0;
      while i < |paginas|
        invariant Valid() && 0 <= i <= |paginas| && IndexOf(carpinchos, pid) == k && |carpinchos| == |ps|
        invariant carpinchos ==
                  ps[k := ps[k].(entries := UndoAll(c, ps[k].entries, paginas[..i]), count := carpinchos[k].count)]
        invariant (c.fixed || !c.repaired ==> carpinchos[k].count == ps[k].count) && (c.fixed ==> libres == old(libres))
        invariant forall q, j :: j >= 0 && !(q == pid && j in paginas) ==> Content(q, j) == old(Content(q, j))
      {
        UndoNext(c, ps[k].entries, paginas, i);
        DeshacerUna(pid, paginas[i]);
        i := i + 1;
      }
      assert paginas[..|paginas|] == paginas;
    }

    /** SOLITIDUC_MUCHAS_PAGINAS, for pages some of which may be held: granted exactly if a
        place is left whenever the next page's turn comes. A request that is denied leaves
        everything as it was, but for the page count as written, exactly if none of its
        pages was held; the pages that were held are looked up elsewhere or nowhere. */
    method MuchasPaginas(pid: int, paginas: seq<int>) returns (r: int)
      requires Valid() && IndexOf(carpinchos, pid) >= 0 && NamedOnce(paginas)
      modifies `carpinchos, `libres, archivos
      ensures Valid() && r in {1, -1}
      ensures r == 1 <==> AllFit(c, old(carpinchos)[IndexOf(old(carpinchos), pid)], old(libres), paginas)
      ensures r == 1 ==> forall i :: 0 <= i < |paginas| ==> Content(pid, paginas[i]).Some?
      ensures forall q, j :: j >= 0 && !(q == pid && j in paginas) ==> Content(q, j) == old(Content(q, j))
      ensures r == 1 ==>
                forall q, j :: j >= 0 && old(Lookup(carpinchos, q, j)).Some? ==> Content(q, j) == old(Content(q, j))
      ensures r == -1 ==> forall i :: 0 <= i < |paginas| ==>
                if old(Lookup(carpinchos, pid, paginas[i])).Some? then
                  Lookup(carpinchos, pid, paginas[i]) != old(Lookup(carpinchos, pid, paginas[i])) &&
                  (c.fixed ==> Content(pid, paginas[i]).None?)
                else Content(pid, paginas[i]).None?
      ensures r == -1 ==>
                ((forall j :: j >= 0 ==> Lookup(carpinchos, pid, j) == old(Lookup(carpinchos, pid, j))) &&
                 multiset(libres) == multiset(old(libres))
                 <==> forall i :: 0 <= i < |paginas| ==> old(Lookup(carpinchos, pid, paginas[i])).None?)
      ensures r == -1 && (forall i :: 0 <= i < |paginas| ==> old(Lookup(carpinchos, pid, paginas[i])).None?) ==>
                && |carpinchos| == |old(carpinchos)|
                && var k := IndexOf(old(carpinchos), pid);
                   && carpinchos == old(carpinchos)[k := old(carpinchos)[k].(count := carpinchos[k].count)]
                   && (c.fixed || c.repaired ==> carpinchos == old(carpinchos))
    {
      hide Store, Counted, FreeIn, Lookup, Handed, EntriesOk, AllFit, UndoAll, NamedOnce;
      ghost var k, ps, free := IndexOf(carpinchos, pid), carpinchos, libres;
      ghost var hi;
      NamedPositive(paginas);
      StoreFacts(c, carpinchos, libres);
      r, hi := SolicitudMuchasPaginas(pid, paginas);
      if r == -1 {
        ghost var mid, freeMid := carpinchos, libres;
        assert Store(c, mid, freeMid);
        HandedRange(c, ps, mid, k, paginas, hi);
        DeshacerPedido(pid, paginas);
        ghost var q := mid[k].(entries := UndoAll(c, mid[k].entries, paginas), count := carpinchos[k].count);
        assert carpinchos == mid[k := q] == ps[k := q] && Store(c, carpinchos, libres);
        DeniedExact(c, ps, free, mid, freeMid, k, paginas, hi, carpinchos[k].count, libres);
        DeniedPages(c, ps, mid, freeMid, k, paginas, hi, carpinchos[k].count);
        CountBack(c, ps, free, carpinchos, libres, k);
      }
    }
  }

  /** What a denied request leaves of each of its pages. */
  lemma {:induction false} DeniedPages(c: Layout, ps0: seq<Process>, ps: seq<Process>, free: seq<Frame>, k: int,
                                       pages: seq<int>, hi: int, count: int)
    requires Handed(c, ps0, ps, k, pages, hi) && NamedOnce(pages) && Store(c, ps, free) && Distinct(ps0)
    ensures 0 <= k < |ps0| == |ps|
    ensures var ps' := ps0[k := ps[k].(entries := UndoAll(c, ps[k].entries, pages), count := count)];
            var pid := ps0[k].pid;
      forall i :: 0 <= i < |pages| ==>
        if Lookup(ps0, pid, pages[i]).Some? then
          Lookup(ps', pid, pages[i]) != Lookup(ps0, pid, pages[i]) && (c.fixed ==> Lookup(ps', pid, pages[i]).None?)
        else Lookup(ps', pid, pages[i]).None?
  {
    hide Handed, Store, Lookup, UndoAll, NamedOnce, Distinct;
    HandedRange(c, ps0, ps, k, pages, hi);
    var ps' := ps0[k := ps[k].(entries := UndoAll(c, ps[k].entries, pages), count := count)];
    var pid := ps0[k].pid;
    forall i | 0 <= i < |pages|
      ensures if Lookup(ps0, pid, pages[i]).Some? then
                Lookup(ps', pid, pages[i]) != Lookup(ps0, pid, pages[i]) &&
                    (c.fixed ==> Lookup(ps', pid, pages[i]).None?)
              else Lookup(ps', pid, pages[i]).None?
    {
      NamedPositive(pages);
      HeldPageLost(c, ps0, ps, free, k, pages, hi, count, pages[i]);
    }
  }

  /** With the same list, a count that is kept right is the same. */
  lemma {:induction false} CountBack(c: Layout, ps0: seq<Process>, free0: seq<Frame>, ps: seq<Process>,
                                     free: seq<Frame>, k: int)
    requires Store(c, ps0, free0) && Store(c, ps, free) && 0 <= k < |ps0| == |ps|
    ensures ps == ps0[k := ps0[k].(count := ps[k].count)] && (c.fixed ==> ps[k].count == ps0[k].count) &&
            (c.fixed || c.repaired) ==>
              ps == ps0
  {
    if !c.fixed && c.repaired && ps == ps0[k := ps0[k].(count := ps[k].count)] {
      assert EntriesOk(c, ps[k]) && EntriesOk(c, ps0[k]);
    }
    assert ps0[k := ps0[k].(count := ps0[k].count)] == ps0;
  }

  lemma {:induction false} CountDone(c: Layout, ps: seq<Process>, free: seq<Frame>, k: int)
    requires Store(c, ps, free) && !c.fixed && 0 <= k < |ps| && ps[k].count <= 0
    ensures ps[k].entries == []
  {
    assert EntriesOk(c, ps[k]);
  }

  lemma {:induction false} FreeIsUnit(c: Layout, ps: seq<Process>, free: seq<Frame>, m: int)
    requires Store(c, ps, free) && 0 <= m < |free|
    ensures WellCut(c, free[m])
  {
    PoolOnce(c, free[m]);
    assert multiset(Pool(c))[free[m]] == Held(c, ps)[free[m]] + multiset(free)[free[m]];
  }

  lemma {:induction false} BestFile(free: seq<Frame>, counts: seq<int>, a: int)
    requires Best(free, counts, a)
    ensures 0 <= a < |counts| && FreeIn(free, a) > 0
  {
  }

  lemma {:induction false} CountedSize(c: Layout, ps: seq<Process>, counts: seq<int>)
    requires Counted(c, ps, counts)
    ensures |counts| == c.files
  {
  }

  lemma {:induction false} EnrolEmpty(c: Layout, ps: seq<Process>, free: seq<Frame>, p: Process)
    requires Store(c, ps, free) && !c.fixed && IndexOf(ps, p.pid) < 0 && p.entries == [] && p.count == 0 &&
             0 <= p.file < c.files
    ensures Store(c, ps + [p], free)
  {
    EnrolKeeps(c, ps, free, p, free);
  }

  lemma {:induction false} HeldAtEntry(ps: seq<Process>, k: int, e: int)
    requires Distinct(ps) && 0 <= k < |ps| && 0 <= e < |ps[k].entries| &&
             EntryOf(ps[k].entries, ps[k].entries[e].page) == e
    ensures Lookup(ps, ps[k].pid, ps[k].entries[e].page) == Some(SwapSpace.Frame(ps[k].file, ps[k].entries[e].base))
  {
    IndexIs(ps, k);
  }

  lemma {:induction false} GoneIndex(ps: seq<Process>, k: int)
    requires Distinct(ps) && 0 <= k < |ps|
    ensures IndexOf(Without(ps, k), ps[k].pid) < 0
  {
    var ps' := Without(ps, k);
    forall i | 0 <= i < |ps'| ensures ps'[i].pid != ps[k].pid {
      assert ps'[i] == ps[if i < k then i else i + 1];
    }
  }

  lemma {:induction false} FreeBase(c: Layout, ps: seq<Process>, free: seq<Frame>, i: int)
    requires Store(c, ps, free) && 0 <= i < |free|
    ensures 0 <= free[i].file < c.files && free[i].base >= 0
  {
    FreeIsUnit(c, ps, free, i);
  }

  lemma {:induction false} EnrolUnit(c: Layout, ps: seq<Process>, free: seq<Frame>, p: Process, i: int)
    requires Store(c, ps, free) && c.fixed && IndexOf(ps, p.pid) < 0 && 0 <= i < |free|
    requires free[i] == SwapSpace.Frame(p.file, p.base) && p.entries == Slots(c, p.base)
    ensures Store(c, ps + [p], Without(free, i))
  {
    FreeIsUnit(c, ps, free, i);
    TakeOut(free, i);
    EnrolKeeps(c, ps, free, p, Without(free, i));
  }

  lemma {:induction false} UnitInside(c: Layout, ps: seq<Process>, free: seq<Frame>, k: int)
    requires Store(c, ps, free) && c.fixed && 0 <= k < |ps|
    ensures 0 <= ps[k].file < c.files && 0 <= ps[k].base && ps[k].base + c.Unit() <= c.fileSize
  {
    HeldOnce(c, ps, free, k, SwapSpace.Frame(ps[k].file, ps[k].base));
  }

  /** A process's unit touches no page of another process. */
  lemma {:induction false} UnitApart(c: Layout, ps: seq<Process>, free: seq<Frame>, k: int)
    requires Store(c, ps, free) && c.fixed && 0 <= k < |ps|
    ensures forall q, j :: q != ps[k].pid && Lookup(ps, q, j).Some? ==>
              var g := Lookup(ps, q, j).value;
              InRange(c, g) && (g.file != ps[k].file || ps[k].base + c.Unit() <= g.base ||
                                g.base + c.pageSize <= ps[k].base)
  {
    forall q, j | q != ps[k].pid && Lookup(ps, q, j).Some?
      ensures var g := Lookup(ps, q, j).value;
        InRange(c, g) && (g.file != ps[k].file || ps[k].base + c.Unit() <= g.base || g.base + c.pageSize <= ps[k].base)
    {
      var m := IndexOf(ps, q);
      var u, w := SwapSpace.Frame(ps[k].file, ps[k].base), SwapSpace.Frame(ps[m].file, ps[m].base);
      LookupInside(c, ps, free, q, j);
      UnitHolds(c, ps, free, m, EntryOf(ps[m].entries, j));
      HeldOnce(c, ps, free, k, u);
      HeldOnce(c, ps, free, m, w);
      if u.file == w.file { MultiplesApart(u.base, w.base, c.Unit()); }
    }
  }

  lemma {:induction false} NoSlots(es: seq<Entry>)
    ensures |EmptySlots(es)| > 0 <==> EntryOf(es, NO_PAGE) >= 0
  {
    var e := EntryOf(es, NO_PAGE);
    assert e >= 0 ==> e in EmptySlots(es);
    assert e < 0 ==> EmptySlots(es) == {};
  }

  lemma {:induction false} SlotTaken(p: Process, e: int, page: int)
    requires 0 <= e < |p.entries| && p.entries[e].page == NO_PAGE && page >= 0
    ensures |EmptySlots(WithSlot(p, e, page, p.count).entries)| == |EmptySlots(p.entries)| - 1
  {
    assert EmptySlots(WithSlot(p, e, page, p.count).entries) == EmptySlots(p.entries) - {e};
  }

  lemma {:induction false} HeldWhen(ps: seq<Process>, k: int, pid: int, page: int)
    requires 0 <= k < |ps| && IndexOf(ps, pid) == k
    ensures Lookup(ps, pid, page).Some? <==> EntryOf(ps[k].entries, page) >= 0
  {
  }

}
