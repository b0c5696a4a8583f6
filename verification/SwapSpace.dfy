/** The swap store's bookkeeping: which frame of which file each page of each
    process has, which frames are free, and the counting that shows no frame is
    ever lost or given out twice. */
module SwapSpace {
  import opened Base

  const NO_PAGE: int := -1

  /** `unit` is the size in bytes of what the free pool hands out: one page, or,
      under fixed allocation, all the pages of a process. */
  datatype Layout = Layout(files: nat, fileSize: nat, pageSize: nat, maxPages: nat, fixed: bool, repaired: bool) {
    function Unit(): nat { if fixed then pageSize * maxPages else pageSize }

    ghost predicate Ok() {
      pageSize > 0 && maxPages > 0 && (!fixed ==> fileSize % pageSize == 0)
    }
  }

  datatype Frame = Frame(file: int, base: int)
  datatype Entry = Entry(page: int, base: int)
  datatype Process = Process(pid: int, file: int, count: int, base: int, entries: seq<Entry>)

  // ------------------------------------------------------------- look-ups

  /** buscarCarpincho: the first process with this pid, or -1. */
  ghost function IndexOf(ps: seq<Process>, pid: int): (k: int)
    ensures -1 <= k < |ps| && (k >= 0 ==> ps[k].pid == pid)
    ensures forall i :: 0 <= i < (if k < 0 then |ps| else k) ==> ps[i].pid != pid
  {
    if ps == [] then -1
    else if ps[0].pid == pid then 0
    else var k := IndexOf(ps[1..], pid); if k < 0 then -1 else k + 1
  }

  /** tieneMarcoPaginas, buscarMarcoXPagina: the first entry for this page, or -1. */
  ghost function EntryOf(es: seq<Entry>, page: int): (k: int)
    ensures -1 <= k < |es| && (k >= 0 ==> es[k].page == page)
    ensures forall i :: 0 <= i < (if k < 0 then |es| else k) ==> es[i].page != page
  {
    if es == [] then -1
    else if es[0].page == page then 0
    else var k := EntryOf(es[1..], page); if k < 0 then -1 else k + 1
  }

  /** The frame that holds (pid, page), if any. */
  ghost function Lookup(ps: seq<Process>, pid: int, page: int): Option<Frame> {
    var k := IndexOf(ps, pid);
    if k < 0 then None
    else
      var e := EntryOf(ps[k].entries, page);
      if e < 0 then None else Some(Frame(ps[k].file, ps[k].entries[e].base))
  }

  ghost predicate Distinct(ps: seq<Process>) {
    forall i, j :: 0 <= i < j < |ps| ==> ps[i].pid != ps[j].pid
  }

  lemma {:induction false} IndexIs(ps: seq<Process>, k: int)
    requires Distinct(ps) && 0 <= k < |ps|
    ensures IndexOf(ps, ps[k].pid) == k
  {
    assert IndexOf(ps, ps[k].pid) <= k;
  }

  /** Changing one process's entries changes only that process's look-ups. */
  lemma {:induction false} LookupAfter(ps: seq<Process>, k: int, p: Process)
    requires Distinct(ps) && 0 <= k < |ps| && p.pid == ps[k].pid
    ensures Distinct(ps[k := p])
    ensures forall q, j :: Lookup(ps[k := p], q, j) ==
                             if q == p.pid then
                               (var e := EntryOf(p.entries, j); if e < 0 then None
                                else Some(Frame(p.file, p.entries[e].base)))
                             else Lookup(ps, q, j)
  {
    var ps' := ps[k := p];
    forall q, j
      ensures Lookup(ps', q, j) ==
              if q == p.pid then
                (var e := EntryOf(p.entries, j); if e < 0 then None else Some(Frame(p.file, p.entries[e].base)))
              else Lookup(ps, q, j)
    {
      if q == p.pid {
        IndexIs(ps', k);
      } else {
        SameIndex(ps, ps', q);
      }
    }
  }

  lemma {:induction false} SameIndex(ps: seq<Process>, ps': seq<Process>, pid: int)
    requires |ps| == |ps'| && forall i :: 0 <= i < |ps| ==> (ps[i].pid == pid <==> ps'[i].pid == pid)
    ensures IndexOf(ps', pid) == IndexOf(ps, pid)
  {
    var a, b := IndexOf(ps, pid), IndexOf(ps', pid);
    assert a >= 0 ==> ps'[a].pid == pid;
    assert b >= 0 ==> ps[b].pid == pid;
  }

  // ------------------------------------------------------ the initial pool

  /** marcosLibes and marcosLIbresFija, one file: bases 0, unit, 2 unit, ... below limit. */
  ghost function Bases(file: int, unit: nat, limit: int, from: nat): (s: seq<Frame>)
    requires unit > 0
    decreases if from < limit then limit - from else 0
  {
    if from < limit then [Frame(file, from)] + Bases(file, unit, limit, from + unit) else []
  }

  /** Where the pool of a file ends: fixed allocation leaves out the last unit. */
  function Limit(c: Layout): int {
    if c.fixed then c.fileSize - c.Unit() else c.fileSize
  }

  ghost function PoolUpTo(c: Layout, files: nat): seq<Frame>
    requires c.Unit() > 0
  {
    if files == 0 then [] else PoolUpTo(c, files - 1) + Bases(files - 1, c.Unit(), Limit(c), 0)
  }

  ghost function Pool(c: Layout): seq<Frame>
    requires c.Unit() > 0
  {
    PoolUpTo(c, c.files)
  }

  lemma {:induction false} BasesFacts(file: int, unit: nat, limit: int, from: nat)
    requires unit > 0 && from % unit == 0
    ensures forall k :: 0 <= k < |Bases(file, unit, limit, from)| ==>
              var f := Bases(file, unit, limit, from)[k];
              f == Frame(file, from + k * unit) && f.base < limit && f.base % unit == 0
    decreases if from < limit then limit - from else 0
  {
    if from < limit {
      NextMultiple(from, unit);
      BasesFacts(file, unit, limit, from + unit);
      var s, t := Bases(file, unit, limit, from), Bases(file, unit, limit, from + unit);
      forall k | 0 <= k < |s|
        ensures s[k] == Frame(file, from + k * unit) && s[k].base < limit && s[k].base % unit == 0
      {
        if k > 0 {
          assert s[k] == t[k - 1];
          assert (k - 1) * unit + unit == k * unit;
        }
      }
    }
  }

  lemma {:induction false} NextMultiple(a: nat, unit: nat)
    requires unit > 0 && a % unit == 0
    ensures (a + unit) % unit == 0
  {
    PieceOf(a / unit + 1, 0, unit);
    assert (a / unit + 1) * unit == a / unit * unit + unit;
  }

  /** Two pool units of one file do not overlap, and no unit is listed twice. */
  ghost predicate WellCut(c: Layout, f: Frame)
    requires c.Unit() > 0
  {
    0 <= f.file < c.files && 0 <= f.base < Limit(c) && f.base % c.Unit() == 0
  }

  lemma {:induction false} PoolFacts(c: Layout, files: nat)
    requires c.Unit() > 0 && files <= c.files
    ensures forall f :: f in PoolUpTo(c, files) ==> WellCut(c, f) && f.file < files
    ensures forall i, j :: 0 <= i < j < |PoolUpTo(c, files)| ==> PoolUpTo(c, files)[i] != PoolUpTo(c, files)[j]
  {
    if files > 0 {
      PoolFacts(c, files - 1);
      var s, t := PoolUpTo(c, files - 1), Bases(files - 1, c.Unit(), Limit(c), 0);
      BasesCut(c, files - 1);
      assert forall f :: f in s ==> f.file < files - 1;
      JoinDistinct(s, t);
    }
  }

  lemma {:induction false} BasesCut(c: Layout, file: nat)
    requires c.Unit() > 0 && file < c.files
    ensures var t := Bases(file, c.Unit(), Limit(c), 0);
      && (forall f :: f in t ==> WellCut(c, f) && f.file == file)
      && (forall i, j :: 0 <= i < j < |t| ==> t[i] != t[j])
  {
    var unit, t := c.Unit(), Bases(file, c.Unit(), Limit(c), 0);
    PieceOf(0, 0, unit);
    BasesFacts(file, unit, Limit(c), 0);
    forall k | 0 <= k < |t| ensures WellCut(c, t[k]) && t[k].file == file {
      MulGrows(0, k, unit);
    }
    forall i, j | 0 <= i < j < |t| ensures t[i] != t[j] {
      MulGrows(i + 1, j, unit);
      assert (i + 1) * unit == i * unit + unit;
    }
  }

  lemma {:induction false} JoinDistinct(s: seq<Frame>, t: seq<Frame>)
    requires forall i, j :: 0 <= i < j < |s| ==> s[i] != s[j]
    requires forall i, j :: 0 <= i < j < |t| ==> t[i] != t[j]
    requires forall f :: f in s ==> f !in t
    ensures forall i, j :: 0 <= i < j < |s + t| ==> (s + t)[i] != (s + t)[j]
  {
    forall i, j | 0 <= i < j < |s + t| ensures (s + t)[i] != (s + t)[j] {
      if i < |s| && j >= |s| { assert (s + t)[i] in s && (s + t)[j] in t; }
    }
  }

  lemma {:induction false} MultiplesApart(a: nat, b: nat, unit: nat)
    requires unit > 0 && a % unit == 0 && b % unit == 0 && a != b
    ensures a + unit <= b || b + unit <= a
  {
    var i, j := a / unit, b / unit;
    assert a == i * unit && b == j * unit;
    PiecesApart(i, j, unit);
    assert (i + 1) * unit == a + unit && (j + 1) * unit == b + unit;
  }

  /** Every unit of the pool lies inside its file exactly when, under dynamic
      allocation, pages divide the file evenly; under fixed allocation always. */
  lemma {:induction false} PoolInside(c: Layout)
    requires c.Unit() > 0 && c.files > 0 && c.fileSize > 0
    ensures (forall f :: f in Pool(c) ==> f.base + c.Unit() <= c.fileSize) <==> c.fixed || c.fileSize % c.pageSize == 0
  {
    PoolFacts(c, c.files);
    if c.fixed {
    } else if c.fileSize % c.pageSize == 0 {
      forall f | f in Pool(c) ensures f.base + c.Unit() <= c.fileSize {
        assert WellCut(c, f);
        MultiplesApart(f.base, c.fileSize, c.pageSize);
      }
    } else {
      var q := c.fileSize / c.pageSize;
      var last := Frame(0, q * c.pageSize);
      PieceOf(0, 0, c.pageSize);
      BasesAll(0, c.pageSize, c.fileSize, 0, q);
      FileIn(c, c.files, 0);
      assert last in Pool(c) && last.base + c.Unit() > c.fileSize;
    }
  }

  lemma {:induction false} BasesAll(file: int, unit: nat, limit: int, from: nat, k: nat)
    requires unit > 0 && from + k * unit < limit
    ensures Frame(file, from + k * unit) in Bases(file, unit, limit, from)
    decreases k
  {
    assert 0 <= k * unit by { MulGrows(0, k, unit); }
    if k > 0 {
      assert k * unit == unit + (k - 1) * unit;
      BasesAll(file, unit, limit, from + unit, k - 1);
      assert from + unit + (k - 1) * unit == from + k * unit;
    }
  }

  lemma {:induction false} FileIn(c: Layout, files: nat, file: nat)
    requires c.Unit() > 0 && file < files
    ensures forall f :: f in Bases(file, c.Unit(), Limit(c), 0) ==> f in PoolUpTo(c, files)
  {
    if file + 1 < files { FileIn(c, files - 1, file); }
  }

  /** The free pool at the start, in full: in each file every multiple of the unit below the
      file's size, or, under fixed allocation, below one unit less; nothing else, nothing
      twice, file after file and upwards in each. */
  lemma {:induction false} PoolExact(c: Layout)
    requires c.Unit() > 0
    ensures var unit := if c.fixed then c.pageSize * c.maxPages else c.pageSize;
            forall file, base :: Frame(file, base) in Pool(c) <==>
              (0 <= file < c.files && base % unit == 0 &&
               0 <= base < (if c.fixed then c.fileSize - unit else c.fileSize))
    ensures Ascends(Pool(c))
  {
    PoolFacts(c, c.files);
    PoolAscends(c, c.files);
    forall file, base | 0 <= file < c.files && 0 <= base < Limit(c) && base % c.Unit() == 0
      ensures Frame(file, base) in Pool(c)
    {
      var k := base / c.Unit();
      assert base == 0 + k * c.Unit();
      BasesAll(file, c.Unit(), Limit(c), 0, k);
      FileIn(c, c.files, file);
    }
  }

  predicate Precedes(f: Frame, g: Frame) {
    f.file < g.file || (f.file == g.file && f.base < g.base)
  }

  /** File after file, and upwards in each: so nothing is listed twice. */
  ghost predicate Ascends(s: seq<Frame>) {
    forall i, j :: 0 <= i < j < |s| ==> Precedes(s[i], s[j])
  }

  lemma {:induction false} PoolAscends(c: Layout, files: nat)
    requires c.Unit() > 0 && files <= c.files
    ensures Ascends(PoolUpTo(c, files))
  {
    if files > 0 {
      PoolAscends(c, files - 1);
      PoolFacts(c, files - 1);
      var s, t := PoolUpTo(c, files - 1), Bases(files - 1, c.Unit(), Limit(c), 0);
      BasesAscend(c, files - 1);
      BasesCut(c, files - 1);
      forall i, j | 0 <= i < j < |s + t|
        ensures Precedes((s + t)[i], (s + t)[j])
      {
        if i < |s| && j >= |s| { assert (s + t)[i] in s && (s + t)[j] in t; }
      }
    }
  }

  lemma {:induction false} BasesAscend(c: Layout, file: nat)
    requires c.Unit() > 0 && file < c.files
    ensures Ascends(Bases(file, c.Unit(), Limit(c), 0))
  {
    var unit, t := c.Unit(), Bases(file, c.Unit(), Limit(c), 0);
    PieceOf(0, 0, unit);
    BasesFacts(file, unit, Limit(c), 0);
    forall i, j | 0 <= i < j < |t| ensures Precedes(t[i], t[j]) {
      MulGrows(i + 1, j, unit);
      assert (i + 1) * unit == i * unit + unit;
    }
  }

  // ------------------------------------------------------- who holds what

  ghost function EntryFrames(file: int, es: seq<Entry>): multiset<Frame> {
    if es == [] then multiset{} else EntryFrames(file, es[..|es| - 1]) + multiset{Frame(file, es[|es| - 1].base)}
  }

  /** What a process took from the pool. */
  ghost function Holding(c: Layout, p: Process): multiset<Frame> {
    if c.fixed then multiset{Frame(p.file, p.base)} else EntryFrames(p.file, p.entries)
  }

  ghost function Held(c: Layout, ps: seq<Process>): multiset<Frame> {
    if ps == [] then multiset{} else Held(c, ps[..|ps| - 1]) + Holding(c, ps[|ps| - 1])
  }

  lemma {:induction false} EntryFramesJoin(file: int, a: seq<Entry>, b: seq<Entry>)
    ensures EntryFrames(file, a + b) == EntryFrames(file, a) + EntryFrames(file, b)
    decreases |b|
  {
    if b == [] {
      assert a + b == a;
    } else {
      assert (a + b)[..|a + b| - 1] == a + b[..|b| - 1];
      EntryFramesJoin(file, a, b[..|b| - 1]);
    }
  }

  lemma {:induction false} HeldJoin(c: Layout, a: seq<Process>, b: seq<Process>)
    ensures Held(c, a + b) == Held(c, a) + Held(c, b)
    decreases |b|
  {
    if b == [] {
      assert a + b == a;
    } else {
      assert (a + b)[..|a + b| - 1] == a + b[..|b| - 1];
      HeldJoin(c, a, b[..|b| - 1]);
    }
  }

  lemma {:induction false} HeldOne(c: Layout, p: Process)
    ensures Held(c, [p]) == Holding(c, p)
  {
    assert [p][..0] == [];
  }

  lemma {:induction false} EntryOne(file: int, e: Entry)
    ensures EntryFrames(file, [e]) == multiset{Frame(file, e.base)}
  {
    assert [e][..0] == [];
  }

  /** Splitting out one process, or putting another in its place. */
  lemma {:induction false} HeldAt(c: Layout, ps: seq<Process>, k: int)
    requires 0 <= k < |ps|
    ensures Held(c, ps) == Held(c, ps[..k] + ps[k + 1..]) + Holding(c, ps[k])
  {
    hide Held;
    var a, x, b := ps[..k], [ps[k]], ps[k + 1..];
    HeldJoin(c, a, b);
    HeldJoin(c, a, x);
    HeldJoin(c, a + x, b);
    HeldOne(c, ps[k]);
    assert a + x + b == ps;
  }

  lemma {:induction false} HeldSwap(c: Layout, ps: seq<Process>, k: int, p: Process)
    requires 0 <= k < |ps|
    ensures Held(c, ps[k := p]) + Holding(c, ps[k]) == Held(c, ps) + Holding(c, p)
  {
    hide Held;
    var ps' := ps[k := p];
    HeldAt(c, ps, k);
    HeldAt(c, ps', k);
    assert ps'[..k] == ps[..k] && ps'[k + 1..] == ps[k + 1..];
  }

  lemma {:induction false} EntriesAt(file: int, es: seq<Entry>, k: int)
    requires 0 <= k < |es|
    ensures EntryFrames(file, es) == EntryFrames(file, es[..k] + es[k + 1..]) + multiset{Frame(file, es[k].base)}
  {
    hide EntryFrames;
    var a, x, b := es[..k], [es[k]], es[k + 1..];
    EntryFramesJoin(file, a, b);
    EntryFramesJoin(file, a, x);
    EntryFramesJoin(file, a + x, b);
    EntryOne(file, es[k]);
    assert a + x + b == es;
  }

  // ------------------------------------------------------------ the invariant

  /** Free units and held units together are the initial pool, each exactly once. */
  ghost predicate Conserved(c: Layout, ps: seq<Process>, free: seq<Frame>)
    requires c.Unit() > 0
  {
    Held(c, ps) + multiset(free) == multiset(Pool(c))
  }

  /** Entries of one process: page numbers, and under fixed allocation one entry per
      page of its unit, no page twice. */
  ghost predicate EntriesOk(c: Layout, p: Process) {
    if c.fixed then
      && |p.entries| == c.maxPages
      &&
         (forall i :: 0 <= i < |p.entries| ==>
          p.entries[i].base == p.base + c.pageSize * i && p.entries[i].page >= NO_PAGE)
      &&
         (forall i, j :: 0 <= i < j < |p.entries| && p.entries[i].page != NO_PAGE ==>
          p.entries[i].page != p.entries[j].page)
    else
      && (forall i :: 0 <= i < |p.entries| ==> p.entries[i].page >= 0)
      && (if c.repaired then p.count == |p.entries| else p.count >= |p.entries|)
  }

  ghost function InFile(ps: seq<Process>, file: int): nat {
    if ps == [] then 0 else InFile(ps[..|ps| - 1], file) + if ps[|ps| - 1].file == file then 1 else 0
  }

  ghost predicate Store(c: Layout, ps: seq<Process>, free: seq<Frame>) {
    && c.Ok() && c.Unit() > 0
    && Distinct(ps)
    && Conserved(c, ps, free)
    && (forall k :: 0 <= k < |ps| ==> EntriesOk(c, ps[k]) && 0 <= ps[k].file < c.files)
  }

  lemma {:induction false} StoreFacts(c: Layout, ps: seq<Process>, free: seq<Frame>)
    requires Store(c, ps, free)
    ensures c.Ok() && c.Unit() > 0 && Distinct(ps)
    ensures forall k :: 0 <= k < |ps| ==> EntriesOk(c, ps[k]) && 0 <= ps[k].file < c.files
  {
  }

  lemma {:induction false} PoolOnce(c: Layout, f: Frame)
    requires c.Unit() > 0
    ensures multiset(Pool(c))[f] <= 1
    ensures f in multiset(Pool(c)) ==> WellCut(c, f)
  {
    PoolFacts(c, c.files);
    OnceIn(Pool(c), f);
  }

  lemma {:induction false} OnceIn(s: seq<Frame>, f: Frame)
    requires forall i, j :: 0 <= i < j < |s| ==> s[i] != s[j]
    ensures multiset(s)[f] <= 1
  {
    if s != [] {
      var t := s[..|s| - 1];
      assert s == t + [s[|s| - 1]];
      OnceIn(t, f);
      assert s[|s| - 1] !in t;
    }
  }

  /** A held unit is a unit of the pool and is not free; two processes, or two
      entries of one, never hold the same unit. */
  lemma {:induction false} HeldOnce(c: Layout, ps: seq<Process>, free: seq<Frame>, k: int, f: Frame)
    requires Store(c, ps, free) && 0 <= k < |ps| && f in Holding(c, ps[k])
    ensures WellCut(c, f) && f !in free && Holding(c, ps[k])[f] == 1
    ensures forall m :: 0 <= m < |ps| && m != k ==> f !in Holding(c, ps[m])
  {
    hide Held, Holding, Pool, EntriesOk, Distinct;
    HeldAt(c, ps, k);
    PoolOnce(c, f);
    assert multiset(Pool(c))[f] == Held(c, ps)[f] + multiset(free)[f];
    var rest := ps[..k] + ps[k + 1..];
    forall m | 0 <= m < |ps| && m != k ensures f !in Holding(c, ps[m]) {
      var r := if m < k then m else m - 1;
      assert rest[r] == ps[m];
      HeldAt(c, rest, r);
    }
  }

  lemma {:induction false} EntryHeld(file: int, es: seq<Entry>, i: int, j: int)
    requires 0 <= i < |es| && 0 <= j < |es|
    ensures Frame(file, es[i].base) in EntryFrames(file, es)
    ensures i != j && es[i].base == es[j].base ==> EntryFrames(file, es)[Frame(file, es[i].base)] >= 2
  {
    hide EntryFrames;
    EntriesAt(file, es, i);
    if i != j {
      var rest := es[..i] + es[i + 1..];
      var r := if j < i then j else j - 1;
      assert rest[r] == es[j];
      EntriesAt(file, rest, r);
    }
  }

  /** Different pages are stored in disjoint byte ranges, each inside its file. */
  lemma {:induction false} PagesApart(c: Layout, ps: seq<Process>, free: seq<Frame>, k: int, i: int, m: int, j: int)
    requires Store(c, ps, free) && 0 <= k < |ps| && 0 <= m < |ps|
    requires 0 <= i < |ps[k].entries| && 0 <= j < |ps[m].entries| && (k, i) != (m, j)
    ensures ps[k].file != ps[m].file
            || ps[k].entries[i].base + c.pageSize <= ps[m].entries[j].base
            || ps[m].entries[j].base + c.pageSize <= ps[k].entries[i].base
  {
    if c.fixed && k == m {
      SlotsApart(c, ps[k], i, j);
    } else {
      hide Held, Pool, EntriesOk, Holding;
      var a, b := UnitOf(c, ps, k, i), UnitOf(c, ps, m, j);
      UnitHolds(c, ps, free, k, i);
      UnitHolds(c, ps, free, m, j);
      if k == m {
        TwiceHeld(c, ps[k], i, j);
        HeldOnce(c, ps, free, k, a);
      } else {
        HeldOnce(c, ps, free, k, a);
      }
      assert a != b;
      if a.file == b.file { MultiplesApart(a.base, b.base, c.Unit()); }
    }
  }

  lemma {:induction false} SlotsApart(c: Layout, p: Process, i: int, j: int)
    requires c.Ok() && c.fixed && EntriesOk(c, p) && 0 <= i < |p.entries| && 0 <= j < |p.entries| && i != j
    ensures p.entries[i].base + c.pageSize <= p.entries[j].base || p.entries[j].base + c.pageSize <= p.entries[i].base
  {
    PiecesApart(i, j, c.pageSize);
    assert (i + 1) * c.pageSize == c.pageSize * i + c.pageSize && (j + 1) * c.pageSize == c.pageSize * j + c.pageSize;
  }

  lemma {:induction false} TwiceHeld(c: Layout, p: Process, i: int, j: int)
    requires !c.fixed && 0 <= i < |p.entries| && 0 <= j < |p.entries| && i != j
    ensures p.entries[i].base == p.entries[j].base ==> Holding(c, p)[Frame(p.file, p.entries[i].base)] >= 2
  {
    EntryHeld(p.file, p.entries, i, j);
  }

  /** The pool unit in which entry i of process k lies. */
  ghost function UnitOf(c: Layout, ps: seq<Process>, k: int, i: int): Frame
    requires 0 <= k < |ps| && 0 <= i < |ps[k].entries|
  {
    Frame(ps[k].file, if c.fixed then ps[k].base else ps[k].entries[i].base)
  }

  lemma {:induction false} UnitHolds(c: Layout, ps: seq<Process>, free: seq<Frame>, k: int, i: int)
    requires Store(c, ps, free) && 0 <= k < |ps| && 0 <= i < |ps[k].entries|
    ensures var u := UnitOf(c, ps, k, i); var b := ps[k].entries[i].base;
      && u in Holding(c, ps[k]) && WellCut(c, u)
      && u.base <= b && b + c.pageSize <= u.base + c.Unit() <= c.fileSize
  {
    var u := UnitOf(c, ps, k, i);
    if !c.fixed { EntryHeld(ps[k].file, ps[k].entries, i, i); }
    HeldOnce(c, ps, free, k, u);
    if c.fixed {
      MulGrows(0, i, c.pageSize);
      MulGrows(i + 1, c.maxPages, c.pageSize);
      assert (i + 1) * c.pageSize == c.pageSize * i + c.pageSize;
    } else {
      MultiplesApart(u.base, c.fileSize, c.pageSize);
    }
  }

  ghost predicate Apart(c: Layout, a: Frame, b: Frame) {
    a.file != b.file || a.base + c.pageSize <= b.base || b.base + c.pageSize <= a.base
  }

  ghost predicate InRange(c: Layout, f: Frame) {
    0 <= f.file < c.files && 0 <= f.base && f.base + c.pageSize <= c.fileSize
  }

  /** The frames of a process's entries, in order. */
  ghost function FramesOf(p: Process): (fs: seq<Frame>)
    ensures |fs| == |p.entries| && forall e :: 0 <= e < |fs| ==> fs[e] == Frame(p.file, p.entries[e].base)
  {
    seq(|p.entries|, e requires 0 <= e < |p.entries| => Frame(p.file, p.entries[e].base))
  }

  lemma {:induction false} FramesApart(c: Layout, ps: seq<Process>, free: seq<Frame>, k: int)
    requires Store(c, ps, free) && 0 <= k < |ps|
    ensures var fs := FramesOf(ps[k]);
      && (forall e :: 0 <= e < |fs| ==> InRange(c, fs[e]))
      && forall d, e :: 0 <= d < e < |fs| ==> Apart(c, fs[e], fs[d])
  {
    hide Store;
    var fs := FramesOf(ps[k]);
    forall e | 0 <= e < |fs| ensures InRange(c, fs[e]) { EntryRange(c, ps, free, k, e); }
    forall d, e | 0 <= d < e < |fs| ensures Apart(c, fs[e], fs[d]) { PagesApart(c, ps, free, k, d, k, e); }
  }

  lemma {:induction false} EntryRange(c: Layout, ps: seq<Process>, free: seq<Frame>, k: int, e: int)
    requires Store(c, ps, free) && 0 <= k < |ps| && 0 <= e < |ps[k].entries|
    ensures InRange(c, Frame(ps[k].file, ps[k].entries[e].base))
  {
    UnitHolds(c, ps, free, k, e);
  }

  /** A held page's frame lies inside its file. */
  lemma {:induction false} LookupInside(c: Layout, ps: seq<Process>, free: seq<Frame>, pid: int, page: int)
    requires Store(c, ps, free)
    ensures Lookup(ps, pid, page).Some? ==> InRange(c, Lookup(ps, pid, page).value)
  {
    if Lookup(ps, pid, page).Some? {
      var k := IndexOf(ps, pid);
      UnitHolds(c, ps, free, k, EntryOf(ps[k].entries, page));
    }
  }

  /** Two pages held never share a byte. */
  lemma {:induction false} LookupsApart(c: Layout, ps: seq<Process>, free: seq<Frame>, pid: int, page: int)
    requires Store(c, ps, free) && Lookup(ps, pid, page).Some?
    ensures InRange(c, Lookup(ps, pid, page).value)
    ensures forall q, j :: (q, j) != (pid, page) && Lookup(ps, q, j).Some? ==>
              InRange(c, Lookup(ps, q, j).value) && Apart(c, Lookup(ps, pid, page).value, Lookup(ps, q, j).value)
  {
    LookupInside(c, ps, free, pid, page);
    var k := IndexOf(ps, pid);
    var e := EntryOf(ps[k].entries, page);
    forall q, j | (q, j) != (pid, page) && Lookup(ps, q, j).Some?
      ensures InRange(c, Lookup(ps, q, j).value) && Apart(c, Lookup(ps, pid, page).value, Lookup(ps, q, j).value)
    {
      LookupInside(c, ps, free, q, j);
      var m := IndexOf(ps, q);
      PagesApart(c, ps, free, k, e, m, EntryOf(ps[m].entries, j));
    }
  }

  // --------------------------------------------------- what the steps preserve

  /** Process k is replaced by p, which holds the same or differs by one unit. */
  lemma {:induction false} Exchange(c: Layout, ps: seq<Process>, free: seq<Frame>, k: int, p: Process,
                                    free': seq<Frame>)
    requires Store(c, ps, free) && 0 <= k < |ps| && p.pid == ps[k].pid && p.file == ps[k].file && EntriesOk(c, p)
    requires Holding(c, p) + multiset(free') == Holding(c, ps[k]) + multiset(free)
    ensures Store(c, ps[k := p], free')
  {
    hide Held, Holding, Pool, EntriesOk;
    HeldSwap(c, ps, k, p);
    Balance(Held(c, ps[k := p]), Held(c, ps), Holding(c, ps[k]), Holding(c, p), multiset(free), multiset(free'),
            multiset(Pool(c)));
  }

  lemma {:induction false} Balance<T>(h': multiset<T>, h: multiset<T>, x: multiset<T>, x': multiset<T>,
                                      f: multiset<T>, f': multiset<T>, all: multiset<T>)
    requires h' + x == h + x' && x' + f' == x + f && h + f == all
    ensures h' + f' == all
  {
    forall t ensures (h' + f')[t] == all[t] {
      assert (h' + x)[t] == (h + x')[t] && (x' + f')[t] == (x + f)[t] && (h + f)[t] == all[t];
    }
  }

  lemma {:induction false} EntryMore(file: int, es: seq<Entry>, e: Entry)
    ensures EntryFrames(file, es + [e]) == EntryFrames(file, es) + multiset{Frame(file, e.base)}
  {
    EntryFramesJoin(file, es, [e]);
    EntryOne(file, e);
  }

  /** solicitudPagina: free unit i becomes process k's frame for this page. */
  function Granted(p: Process, page: int, base: int): Process {
    p.(entries := p.entries + [Entry(page, base)], count := p.count + 1)
  }

  lemma {:induction false} GrantKeeps(c: Layout, ps: seq<Process>, free: seq<Frame>, k: int, i: int, page: int)
    requires Store(c, ps, free) && !c.fixed && 0 <= k < |ps| && 0 <= i < |free| && free[i].file == ps[k].file &&
             page >= 0
    ensures Store(c, ps[k := Granted(ps[k], page, free[i].base)], Without(free, i))
  {
    var p := Granted(ps[k], page, free[i].base);
    EntryMore(ps[k].file, ps[k].entries, Entry(page, free[i].base));
    TakeOut(free, i);
    Exchange(c, ps, free, k, p, Without(free, i));
  }

  lemma {:induction false} GrantLookups(ps: seq<Process>, k: int, page: int, base: int)
    requires Distinct(ps) && 0 <= k < |ps|
    ensures var ps' := ps[k := Granted(ps[k], page, base)];
      && Lookup(ps', ps[k].pid, page).Some?
      && (Lookup(ps, ps[k].pid, page).None? ==> Lookup(ps', ps[k].pid, page) == Some(Frame(ps[k].file, base)))
      &&
         (forall q, j :: (q, j) != (ps[k].pid, page) || Lookup(ps, q, j).Some? ==>
          Lookup(ps', q, j) == Lookup(ps, q, j))
  {
    var p, ps' := Granted(ps[k], page, base), ps[k := Granted(ps[k], page, base)];
    LookupAfter(ps, k, p);
    IndexIs(ps, k);
    EntryAppend(ps[k].entries, Entry(page, base), page);
    forall q, j | (q, j) != (ps[k].pid, page) || Lookup(ps, q, j).Some? ensures Lookup(ps', q, j) == Lookup(ps, q, j) {
      EntryAppend(ps[k].entries, Entry(page, base), j);
    }
  }

  lemma {:induction false} EntryAppend(es: seq<Entry>, e: Entry, page: int)
    ensures EntryOf(es + [e], page) == if EntryOf(es, page) < 0 && e.page == page then |es| else EntryOf(es, page)
  {
    var a, b := EntryOf(es, page), EntryOf(es + [e], page);
    assert (es + [e])[|es|] == e;
    assert forall i :: 0 <= i < |es| ==> (es + [e])[i] == es[i];
    assert b >= 0 ==> (es + [e])[b].page == page;
    assert a >= 0 ==> (es + [e])[a].page == page;
  }

  /** borrarPagina: process k loses entry e. As written its page count stays. */
  function Dropped(p: Process, e: int, count: int): Process
    requires 0 <= e < |p.entries|
  {
    p.(entries := Without(p.entries, e), count := count)
  }

  lemma {:induction false} DropKeeps(c: Layout, ps: seq<Process>, free: seq<Frame>, k: int, e: int, count: int)
    requires Store(c, ps, free) && !c.fixed && 0 <= k < |ps| && 0 <= e < |ps[k].entries|
    requires count == ps[k].count - 1 || (!c.repaired && count == ps[k].count)
    ensures Store(c, ps[k := Dropped(ps[k], e, count)], free + [Frame(ps[k].file, ps[k].entries[e].base)])
  {
    var p := Dropped(ps[k], e, count);
    EntriesAt(ps[k].file, ps[k].entries, e);
    Exchange(c, ps, free, k, p, free + [Frame(ps[k].file, ps[k].entries[e].base)]);
  }

  /** A page held once is held no more once its entry went; other pages keep theirs. */
  lemma {:induction false} DropLookups(ps: seq<Process>, k: int, page: int, count: int)
    requires Distinct(ps) && 0 <= k < |ps| && EntryOf(ps[k].entries, page) >= 0
    ensures var ps' := ps[k := Dropped(ps[k], EntryOf(ps[k].entries, page), count)];
      && (forall q, j :: (q, j) != (ps[k].pid, page) ==> Lookup(ps', q, j) == Lookup(ps, q, j))
      && (Once(ps[k].entries, page) ==> Lookup(ps', ps[k].pid, page).None?)
  {
    var e := EntryOf(ps[k].entries, page);
    var p := Dropped(ps[k], e, count);
    LookupAfter(ps, k, p);
    IndexIs(ps, k);
    hide EntryOf, IndexOf, Distinct, Once;
    OthersStay(ps[k].entries, e, page);
    if Once(ps[k].entries, page) { OnceDropped(ps[k].entries, e, page); }
  }

  /** Without an entry for this page, every other page is found with the base it had. */
  lemma {:induction false} OthersStay(es: seq<Entry>, e: int, page: int)
    requires 0 <= e < |es| && es[e].page == page
    ensures forall j :: j != page ==>
              var a, b := EntryOf(es, j), EntryOf(Without(es, e), j);
              (a >= 0 <==> b >= 0) && (b >= 0 ==> Without(es, e)[b] == es[a])
  {
    hide EntryOf;
    forall j | j != page
      ensures EntryOf(Without(es, e), j) >= 0 <==> EntryOf(es, j) >= 0
      ensures EntryOf(Without(es, e), j) >= 0 ==> Without(es, e)[EntryOf(Without(es, e), j)] == es[EntryOf(es, j)]
    {
      EntryWithout(es, e, j);
    }
  }

  lemma {:induction false} OnceDropped(es: seq<Entry>, e: int, page: int)
    requires Once(es, page) && 0 <= e < |es| && es[e].page == page
    ensures EntryOf(Without(es, e), page) < 0
  {
    var es' := Without(es, e);
    forall i | 0 <= i < |es'| ensures es'[i].page != page {
      assert es'[i] == es[if i < e then i else i + 1];
    }
  }

  ghost predicate Once(es: seq<Entry>, page: int) {
    forall i, j :: 0 <= i < j < |es| && es[i].page == page ==> es[j].page != page
  }

  lemma {:induction false} EntryWithout(es: seq<Entry>, e: int, page: int)
    requires 0 <= e < |es| && es[e].page != page
    ensures var r := EntryOf(es, page); EntryOf(Without(es, e), page) == if r > e then r - 1 else r
  {
    var a, b := EntryOf(es, page), EntryOf(Without(es, e), page);
    assert forall i :: 0 <= i < |es| - 1 ==> Without(es, e)[i] == es[if i < e then i else i + 1];
    assert a >= 0 ==> a != e && Without(es, e)[if a < e then a else a - 1].page == page;
    assert b >= 0 ==> es[if b < e then b else b + 1].page == page;
  }

  /** Fixed allocation: slot e of process k is given to a page, or emptied. */
  function WithSlot(p: Process, e: int, page: int, count: int): Process
    requires 0 <= e < |p.entries|
  {
    p.(entries := p.entries[e := Entry(page, p.entries[e].base)], count := count)
  }

  lemma {:induction false} SlotKeeps(c: Layout, ps: seq<Process>, free: seq<Frame>, k: int, e: int, page: int,
                                     count: int)
    requires Store(c, ps, free) && c.fixed && 0 <= k < |ps| && 0 <= e < |ps[k].entries| && page >= NO_PAGE
    requires page == NO_PAGE || EntryOf(ps[k].entries, page) < 0
    ensures Store(c, ps[k := WithSlot(ps[k], e, page, count)], free)
  {
    Exchange(c, ps, free, k, WithSlot(ps[k], e, page, count), free);
  }

  lemma {:induction false} SlotLookups(c: Layout, ps: seq<Process>, k: int, e: int, page: int, count: int)
    requires Distinct(ps) && c.fixed && 0 <= k < |ps| && EntriesOk(c, ps[k]) && 0 <= e < |ps[k].entries| &&
             page >= NO_PAGE
    requires page == NO_PAGE || (ps[k].entries[e].page == NO_PAGE && EntryOf(ps[k].entries, page) < 0)
    ensures var ps', was := ps[k := WithSlot(ps[k], e, page, count)], ps[k].entries[e].page;
      && (page >= 0 ==> Lookup(ps', ps[k].pid, page) == Some(Frame(ps[k].file, ps[k].entries[e].base)))
      && (was >= 0 ==> Lookup(ps', ps[k].pid, was).None?)
      &&
         (forall q, j :: j >= 0 && (q, j) != (ps[k].pid, page) && (q, j) != (ps[k].pid, was) ==>
          Lookup(ps', q, j) == Lookup(ps, q, j))
  {
    var ps', was := ps[k := WithSlot(ps[k], e, page, count)], ps[k].entries[e].page;
    if page >= 0 { SlotLookup(c, ps, k, e, page, count, ps[k].pid, page); }
    if was >= 0 { SlotLookup(c, ps, k, e, page, count, ps[k].pid, was); }
    forall q, j | j >= 0 && (q, j) != (ps[k].pid, page) && (q, j) != (ps[k].pid, was)
      ensures Lookup(ps', q, j) == Lookup(ps, q, j)
    {
      SlotLookup(c, ps, k, e, page, count, q, j);
    }
  }

  lemma {:induction false} SlotLookup(c: Layout, ps: seq<Process>, k: int, e: int, page: int, count: int, q: int,
                                      j: int)
    requires Distinct(ps) && c.fixed && 0 <= k < |ps| && EntriesOk(c, ps[k]) && 0 <= e < |ps[k].entries| &&
             page >= NO_PAGE
    requires page == NO_PAGE || (ps[k].entries[e].page == NO_PAGE && EntryOf(ps[k].entries, page) < 0)
    requires j >= 0
    ensures Lookup(ps[k := WithSlot(ps[k], e, page, count)], q, j) ==
              if q == ps[k].pid && j == page then Some(Frame(ps[k].file, ps[k].entries[e].base))
              else if q == ps[k].pid && j == ps[k].entries[e].page then None
              else Lookup(ps, q, j)
  {
    var p, p' := ps[k], WithSlot(ps[k], e, page, count);
    LookupAfter(ps, k, p');
    if q == p.pid {
      IndexIs(ps, k);
      SlotEntries(c, p, e, page, count, j);
      var a, b := EntryOf(p.entries, j), EntryOf(p'.entries, j);
      assert Lookup(ps, q, j) == if a < 0 then None else Some(Frame(p.file, p.entries[a].base));
      assert Lookup(ps[k := p'], q, j) == if b < 0 then None else Some(Frame(p.file, p'.entries[b].base));
      assert b >= 0 ==> p'.entries[b].base == p.entries[b].base;
    }
  }

  lemma {:induction false} SlotEntries(c: Layout, p: Process, e: int, page: int, count: int, j: int)
    requires c.fixed && EntriesOk(c, p) && 0 <= e < |p.entries| && page >= NO_PAGE && j >= 0
    requires page == NO_PAGE || (p.entries[e].page == NO_PAGE && EntryOf(p.entries, page) < 0)
    ensures EntryOf(WithSlot(p, e, page, count).entries, j) ==
              if j == page then e else if j == p.entries[e].page then -1 else EntryOf(p.entries, j)
  {
    var es, es' := p.entries, WithSlot(p, e, page, count).entries;
    var a, b := EntryOf(es, j), EntryOf(es', j);
    OnlySlot(c, p, j);
    assert es'[e].page == page && (es[e].page == j ==> e == a);
    assert forall i :: 0 <= i < |es| && i != e ==> es'[i] == es[i];
    assert b >= 0 ==> es'[b].page == j;
    assert a >= 0 && a != e ==> es'[a].page == j;
  }

  /** A process comes: it holds nothing (dynamic), or the free unit i (fixed). */
  function Slots(c: Layout, base: int): (es: seq<Entry>)
  {
    seq(c.maxPages, i => Entry(NO_PAGE, base + c.pageSize * i))
  }

  lemma {:induction false} EnrolKeeps(c: Layout, ps: seq<Process>, free: seq<Frame>, p: Process, free': seq<Frame>)
    requires Store(c, ps, free) && IndexOf(ps, p.pid) < 0 && EntriesOk(c, p) && 0 <= p.file < c.files
    requires Holding(c, p) + multiset(free') == multiset(free)
    ensures Store(c, ps + [p], free')
  {
    hide Holding, Pool, EntriesOk, Held;
    HeldJoin(c, ps, [p]);
    HeldOne(c, p);
  }

  lemma {:induction false} EnrolLookups(ps: seq<Process>, p: Process)
    requires IndexOf(ps, p.pid) < 0 && forall i :: 0 <= i < |p.entries| ==> p.entries[i].page < 0
    ensures forall q, j :: j >= 0 ==> Lookup(ps + [p], q, j) == Lookup(ps, q, j)
  {
    forall q, j | j >= 0 ensures Lookup(ps + [p], q, j) == Lookup(ps, q, j) {
      var a, b := IndexOf(ps, q), IndexOf(ps + [p], q);
      assert forall i :: 0 <= i < |ps| ==> (ps + [p])[i] == ps[i];
      assert b >= 0 ==> (ps + [p])[b].pid == q;
      assert a >= 0 ==> a == b;
      assert a < 0 && b >= 0 ==> b == |ps|;
    }
  }

  /** A process goes, and what it held becomes free. */
  lemma {:induction false} LeaveKeeps(c: Layout, ps: seq<Process>, free: seq<Frame>, k: int, free': seq<Frame>)
    requires Store(c, ps, free) && 0 <= k < |ps| && multiset(free') == multiset(free) + Holding(c, ps[k])
    ensures Store(c, Without(ps, k), free')
  {
    hide Holding, Pool, EntriesOk, Held;
    HeldAt(c, ps, k);
  }

  lemma {:induction false} LeaveLookups(ps: seq<Process>, k: int)
    requires Distinct(ps) && 0 <= k < |ps|
    ensures forall q, j :: Lookup(Without(ps, k), q, j) == if q == ps[k].pid then None else Lookup(ps, q, j)
  {
    var ps' := Without(ps, k);
    forall q, j ensures Lookup(ps', q, j) == if q == ps[k].pid then None else Lookup(ps, q, j) {
      LeaveIndex(ps, k, q);
      hide IndexOf, EntryOf;
    }
  }

  lemma {:induction false} LeaveIndex(ps: seq<Process>, k: int, q: int)
    requires Distinct(ps) && 0 <= k < |ps|
    ensures var a, b, ps' := IndexOf(ps, q), IndexOf(Without(ps, k), q), Without(ps, k);
      if q == ps[k].pid then b < 0 else (a < 0 <==> b < 0) && (a >= 0 ==> ps'[b] == ps[a])
  {
    hide IndexOf;
    var ps' := Without(ps, k);
    var a, b := IndexOf(ps, q), IndexOf(ps', q);
    if b >= 0 { assert ps'[b] == ps[if b < k then b else b + 1]; }
    if a >= 0 && a != k { assert ps'[if a < k then a else a - 1] == ps[a]; }
  }

  // ------------------------------------------------ choosing a file for a process

  ghost function FreeIn(free: seq<Frame>, file: int): nat {
    if free == [] then 0 else FreeIn(free[..|free| - 1], file) + if free[|free| - 1].file == file then 1 else 0
  }

  lemma {:induction false} FreeInSome(free: seq<Frame>, file: int)
    ensures FreeIn(free, file) > 0 <==> exists i :: 0 <= i < |free| && free[i].file == file
    ensures FreeIn(free, file) <= |free|
  {
    if free != [] {
      FreeInSome(free[..|free| - 1], file);
      if FreeIn(free[..|free| - 1], file) > 0 {
        var i :| 0 <= i < |free| - 1 && free[..|free| - 1][i].file == file;
        assert free[i].file == file;
      }
      if i :| 0 <= i < |free| && free[i].file == file {
        assert i < |free| - 1 ==> free[..|free| - 1][i].file == file;
      }
    }
  }

  /** The free units of a file, counted. */
  lemma {:induction false} FreeInIs(free: seq<Frame>, file: int)
    ensures FreeIn(free, file) == |set i | 0 <= i < |free| && free[i].file == file|
  {
    var b := set i | 0 <= i < |free| && free[i].file == file;
    if free == [] {
      assert b == {};
    } else {
      var n := |free| - 1;
      var less := free[..n];
      FreeInIs(less, file);
      var a := set i | 0 <= i < |less| && less[i].file == file;
      assert b == if free[n].file == file then a + {n} else a;
    }
  }

  /** The processes of a file, counted. */
  lemma {:induction false} InFileIs(ps: seq<Process>, file: int)
    ensures InFile(ps, file) == |set k | 0 <= k < |ps| && ps[k].file == file|
  {
    var b := set k | 0 <= k < |ps| && ps[k].file == file;
    if ps == [] {
      assert b == {};
    } else {
      var n := |ps| - 1;
      var less := ps[..n];
      InFileIs(less, file);
      var a := set k | 0 <= k < |less| && less[k].file == file;
      assert b == if ps[n].file == file then a + {n} else a;
    }
  }

  /** What the best file is, on the lists themselves: none has more free units; among those
      with as many, none has fewer processes; and among those with as few, it is the first. */
  lemma {:induction false} BestMeans(c: Layout, ps: seq<Process>, free: seq<Frame>, counts: seq<int>, a: int, f: int)
    requires Best(free, counts, a) && Counted(c, ps, counts) && 0 <= f < c.files
    ensures 0 <= a < c.files
    ensures var m := (x: int) => |set i | 0 <= i < |free| && free[i].file == x|;
            var n := (x: int) => |set k | 0 <= k < |ps| && ps[k].file == x|;
      m(a) > 0 && m(f) <= m(a) && (m(f) == m(a) ==> n(a) <= n(f) && (n(a) == n(f) ==> a <= f))
  {
    FreeInIs(free, a);
    FreeInIs(free, f);
    InFileIs(ps, a);
    InFileIs(ps, f);
  }

  lemma {:induction false} FreeInJoin(a: seq<Frame>, b: seq<Frame>, file: int)
    ensures FreeIn(a + b, file) == FreeIn(a, file) + FreeIn(b, file)
    decreases |b|
  {
    if b == [] {
      assert a + b == a;
    } else {
      assert (a + b)[..|a + b| - 1] == a + b[..|b| - 1];
      FreeInJoin(a, b[..|b| - 1], file);
    }
  }

  lemma {:induction false} FreeInTake(free: seq<Frame>, i: int, file: int)
    requires 0 <= i < |free|
    ensures FreeIn(Without(free, i), file) == FreeIn(free, file) - if free[i].file == file then 1 else 0
  {
    hide FreeIn;
    var a, x, b := free[..i], [free[i]], free[i + 1..];
    FreeInJoin(a, b, file);
    FreeInJoin(a, x, file);
    FreeInJoin(a + x, b, file);
    FreeInOne(free[i], file);
    assert a + x + b == free;
  }

  lemma {:induction false} FreeInOne(f: Frame, file: int)
    ensures FreeIn([f], file) == if f.file == file then 1 else 0
  {
    assert [f][..0] == [];
    assert FreeIn([], file) == 0;
  }

  /** The number of processes of each file is kept beside the list. */
  ghost predicate Counted(c: Layout, ps: seq<Process>, counts: seq<int>) {
    |counts| == c.files && forall f :: 0 <= f < c.files ==> counts[f] == InFile(ps, f)
  }

  lemma {:induction false} InFileJoin(a: seq<Process>, b: seq<Process>, file: int)
    ensures InFile(a + b, file) == InFile(a, file) + InFile(b, file)
    decreases |b|
  {
    if b == [] {
      assert a + b == a;
    } else {
      assert (a + b)[..|a + b| - 1] == a + b[..|b| - 1];
      InFileJoin(a, b[..|b| - 1], file);
    }
  }

  lemma {:induction false} InFileOne(p: Process, file: int)
    ensures InFile([p], file) == if p.file == file then 1 else 0
  {
    assert [p][..0] == [];
    assert InFile([], file) == 0;
  }

  lemma {:induction false} InFileAt(ps: seq<Process>, k: int, file: int)
    requires 0 <= k < |ps|
    ensures InFile(ps, file) == InFile(Without(ps, k), file) + if ps[k].file == file then 1 else 0
  {
    hide InFile;
    var a, x, b := ps[..k], [ps[k]], ps[k + 1..];
    InFileJoin(a, b, file);
    InFileJoin(a, x, file);
    InFileJoin(a + x, b, file);
    InFileOne(ps[k], file);
    assert a + x + b == ps;
  }

  lemma {:induction false} CountsSame(c: Layout, ps: seq<Process>, counts: seq<int>, k: int, p: Process)
    requires Counted(c, ps, counts) && 0 <= k < |ps| && p.file == ps[k].file
    ensures Counted(c, ps[k := p], counts)
  {
    hide InFile;
    forall f | 0 <= f < c.files ensures counts[f] == InFile(ps[k := p], f) {
      InFileAt(ps, k, f);
      InFileAt(ps[k := p], k, f);
      assert Without(ps[k := p], k) == Without(ps, k);
    }
  }

  lemma {:induction false} CountsMore(c: Layout, ps: seq<Process>, counts: seq<int>, p: Process)
    requires Counted(c, ps, counts) && 0 <= p.file < c.files
    ensures Counted(c, ps + [p], counts[p.file := counts[p.file] + 1])
  {
    hide InFile;
    forall f | 0 <= f < c.files ensures counts[p.file := counts[p.file] + 1][f] == InFile(ps + [p], f) {
      InFileJoin(ps, [p], f);
      InFileOne(p, f);
    }
  }

  lemma {:induction false} CountsLess(c: Layout, ps: seq<Process>, counts: seq<int>, k: int)
    requires Counted(c, ps, counts) && 0 <= k < |ps| && 0 <= ps[k].file < c.files
    ensures Counted(c, Without(ps, k), counts[ps[k].file := counts[ps[k].file] - 1])
  {
    hide InFile;
    forall f | 0 <= f < c.files ensures counts[ps[k].file := counts[ps[k].file] - 1][f] == InFile(Without(ps, k), f) {
      InFileAt(ps, k, f);
    }
  }

  /** File a is the one a new process should go to: most free units; among those,
      fewest processes; among those, the first. */
  ghost predicate Best(free: seq<Frame>, counts: seq<int>, a: int) {
    && 0 <= a < |counts| && FreeIn(free, a) > 0
    && forall f :: 0 <= f < |counts| ==>
         || FreeIn(free, f) < FreeIn(free, a)
         || (FreeIn(free, f) == FreeIn(free, a) && (counts[f] > counts[a] || (counts[f] == counts[a] && a <= f)))
  }

  // ---------------------------------------- many pages at once, and the way back

  /** Places left for pages of process p. */
  ghost function RoomLeft(c: Layout, p: Process, free: seq<Frame>): nat {
    if c.fixed then |EmptySlots(p.entries)| else FreeIn(free, p.file)
  }

  ghost function EmptySlots(es: seq<Entry>): set<int> {
    set e | 0 <= e < |es| && es[e].page == NO_PAGE
  }

  /** Pages a request may name: each once. The process may hold some of them already. */
  ghost predicate NamedOnce(pages: seq<int>) {
    && (forall i :: 0 <= i < |pages| ==> pages[i] >= 0)
    && (forall i, j :: 0 <= i < j < |pages| ==> pages[i] != pages[j])
  }

  lemma {:induction false} NamedPositive(pages: seq<int>)
    requires NamedOnce(pages)
    ensures forall i :: 0 <= i < |pages| ==> pages[i] >= 0
  {
  }

  /** The places of the pages called this, in the order of the list. A look-up finds the first. */
  ghost function Places(es: seq<Entry>, page: int): seq<int> {
    if es == [] then [] else Places(es[..|es| - 1], page) + Own(es[|es| - 1], page)
  }

  ghost function Own(e: Entry, page: int): seq<int> {
    if e.page == page then [e.base] else []
  }

  /** All but the first. */
  function Rest(s: seq<int>): seq<int> {
    if s == [] then [] else s[1..]
  }

  lemma {:induction false} PlacesMore(es: seq<Entry>, e: Entry, page: int)
    ensures Places(es + [e], page) == Places(es, page) + Own(e, page)
  {
    assert (es + [e])[..|es|] == es;
  }

  lemma {:induction false} PlacesJoin(a: seq<Entry>, b: seq<Entry>, page: int)
    ensures Places(a + b, page) == Places(a, page) + Places(b, page)
    decreases |b|
  {
    if b == [] {
      assert a + b == a;
    } else {
      assert (a + b)[..|a + b| - 1] == a + b[..|b| - 1];
      PlacesJoin(a, b[..|b| - 1], page);
    }
  }

  lemma {:induction false} PlacesNone(es: seq<Entry>, page: int)
    requires forall i :: 0 <= i < |es| ==> es[i].page != page
    ensures Places(es, page) == []
  {
    if es != [] { PlacesNone(es[..|es| - 1], page); }
  }

  lemma {:induction false} PlacesOne(e: Entry, page: int)
    ensures Places([e], page) == Own(e, page)
  {
    assert [] + [e] == [e];
    PlacesMore([], e, page);
  }

  /** The list around its entry k. */
  lemma {:induction false} PlacesAt(es: seq<Entry>, k: int, e: Entry, page: int)
    requires 0 <= k < |es|
    ensures Places(es, page) == Places(es[..k], page) + Own(es[k], page) + Places(es[k + 1..], page)
    ensures Places(es[k := e], page) == Places(es[..k], page) + Own(e, page) + Places(es[k + 1..], page)
    ensures Places(Without(es, k), page) == Places(es[..k], page) + Places(es[k + 1..], page)
  {
    hide Places;
    var a, b := es[..k], es[k + 1..];
    assert es == a + ([es[k]] + b) && es[k := e] == a + ([e] + b);
    PlacesJoin(a, [es[k]] + b, page);
    PlacesJoin([es[k]], b, page);
    PlacesJoin(a, [e] + b, page);
    PlacesJoin([e], b, page);
    PlacesJoin(a, b, page);
    PlacesOne(es[k], page);
    PlacesOne(e, page);
  }

  lemma {:induction false} PlacesFirst(es: seq<Entry>, page: int)
    ensures var e := EntryOf(es, page);
      if e < 0 then Places(es, page) == [] else Places(es, page) != [] && Places(es, page)[0] == es[e].base
  {
    var e := EntryOf(es, page);
    if e < 0 {
      PlacesNone(es, page);
    } else {
      PlacesAt(es, e, es[e], page);
      PlacesNone(es[..e], page);
    }
  }

  /** What is left of a process's list after one page was taken back: its first entry
      goes, or, under fixed allocation, is emptied. */
  ghost function Undo1(c: Layout, es: seq<Entry>, page: int): seq<Entry> {
    var e := EntryOf(es, page);
    if e < 0 then es else if c.fixed then es[e := Entry(NO_PAGE, es[e].base)] else Without(es, e)
  }

  lemma {:induction false} UndoIs(c: Layout, es: seq<Entry>, page: int)
    ensures var e := EntryOf(es, page);
      Undo1(c, es, page) ==
        if e < 0 then es else if c.fixed then es[e := Entry(NO_PAGE, es[e].base)] else Without(es, e)
  {
  }

  /** ... after all of these pages were. */
  ghost function UndoAll(c: Layout, es: seq<Entry>, pages: seq<int>): seq<Entry> {
    if pages == [] then es else Undo1(c, UndoAll(c, es, pages[..|pages| - 1]), pages[|pages| - 1])
  }

  lemma {:induction false} UndoPlaces(c: Layout, es: seq<Entry>, page: int, j: int)
    requires j >= 0
    ensures Places(Undo1(c, es, page), j) == if j == page then Rest(Places(es, j)) else Places(es, j)
  {
    hide Places;
    var e := EntryOf(es, page);
    PlacesFirst(es, page);
    if e >= 0 {
      PlacesAt(es, e, Entry(NO_PAGE, es[e].base), j);
      if j == page {
        BeforeFirst(es, page);
        PlacesNone(es[..e], page);
      }
    }
  }

  lemma {:induction false} BeforeFirst(es: seq<Entry>, page: int)
    ensures var e := EntryOf(es, page); e >= 0 ==> forall i :: 0 <= i < |es[..e]| ==> es[..e][i].page != page
  {
  }

  lemma {:induction false} UndoAllPlaces(c: Layout, es: seq<Entry>, pages: seq<int>, j: int)
    requires NamedOnce(pages) && j >= 0
    ensures Places(UndoAll(c, es, pages), j) == if j in pages then Rest(Places(es, j)) else Places(es, j)
  {
    if pages != [] {
      var n := |pages| - 1;
      assert pages == pages[..n] + [pages[n]];
      UndoAllPlaces(c, es, pages[..n], j);
      UndoPlaces(c, UndoAll(c, es, pages[..n]), pages[n], j);
    }
  }

  lemma {:induction false} UndoNext(c: Layout, es: seq<Entry>, pages: seq<int>, i: int)
    requires 0 <= i < |pages|
    ensures UndoAll(c, es, pages[..i + 1]) == Undo1(c, UndoAll(c, es, pages[..i]), pages[i])
  {
    assert pages[..i + 1][..i] == pages[..i] && pages[..i + 1][i] == pages[i];
  }

  /** Process k of ps0 has been granted the first hi pages of a request. Under dynamic
      allocation each got a frame, also where the page was held; under fixed allocation
      only those not held got a slot. */
  ghost predicate Handed(c: Layout, ps0: seq<Process>, ps: seq<Process>, k: int, pages: seq<int>, hi: int) {
    && 0 <= k < |ps0| == |ps| && ps == ps0[k := ps[k]] && 0 <= hi <= |pages|
    && ps[k] == ps0[k].(entries := ps[k].entries, count := ps[k].count)
    && ps[k].count == ps0[k].count + (if c.fixed then 0 else hi)
    &&
       if c.fixed then SlotsFilled(ps0[k].entries, ps[k].entries, pages[..hi])
          else TailAdded(ps0[k].entries, ps[k].entries, pages[..hi])
  }

  ghost predicate SlotsFilled(es0: seq<Entry>, es: seq<Entry>, pages: seq<int>) {
    && |es| == |es0|
    && (forall e :: 0 <= e < |es| ==> es[e].base == es0[e].base)
    && (forall e :: 0 <= e < |es| ==>
          es[e].page == es0[e].page || (es0[e].page == NO_PAGE && es[e].page in pages && EntryOf(es0, es[e].page) < 0))
  }

  ghost predicate TailAdded(es0: seq<Entry>, es: seq<Entry>, pages: seq<int>) {
    && |es| == |es0| + |pages| && es[..|es0|] == es0
    && forall i :: 0 <= i < |pages| ==> es[|es0| + i].page == pages[i]
  }

  lemma {:induction false} HandedStart(c: Layout, ps: seq<Process>, k: int, pages: seq<int>)
    requires 0 <= k < |ps|
    ensures Handed(c, ps, ps, k, pages, 0)
  {
  }

  lemma {:induction false} HandedRange(c: Layout, ps0: seq<Process>, ps: seq<Process>, k: int, pages: seq<int>, hi: int)
    requires Handed(c, ps0, ps, k, pages, hi)
    ensures 0 <= hi <= |pages| && 0 <= k < |ps0| == |ps| && ps[k].pid == ps0[k].pid && ps[k].file == ps0[k].file
    ensures ps == ps0[k := ps0[k].(entries := ps[k].entries, count := ps[k].count)]
    ensures ps[k].count == ps0[k].count + if c.fixed then 0 else hi
  {
  }

  /** The next page of the request is held exactly if it was before. */
  lemma {:induction false} HandedNext(c: Layout, ps0: seq<Process>, ps: seq<Process>, k: int, pages: seq<int>, hi: int)
    requires Handed(c, ps0, ps, k, pages, hi) && NamedOnce(pages) && hi < |pages|
    ensures pages[hi] >= 0 && (EntryOf(ps[k].entries, pages[hi]) < 0 <==> EntryOf(ps0[k].entries, pages[hi]) < 0)
  {
    var es0, es, p := ps0[k].entries, ps[k].entries, pages[hi];
    var a, b := EntryOf(es0, p), EntryOf(es, p);
    assert p !in pages[..hi];
    if c.fixed {
      assert a >= 0 ==> es[a].page == es0[a].page;
    } else {
      assert a >= 0 ==> es[..|es0|][a] == es[a];
      assert 0 <= b < |es0| ==> es[..|es0|][b] == es[b];
      forall i | |es0| <= i < |es| ensures es[i].page != p {
        assert es[|es0| + (i - |es0|)].page == pages[..hi][i - |es0|];
      }
    }
  }

  lemma {:induction false} HandedGrant(c: Layout, ps0: seq<Process>, ps: seq<Process>, k: int, pages: seq<int>,
                                       hi: int, base: int)
    requires Handed(c, ps0, ps, k, pages, hi) && hi < |pages| && !c.fixed
    ensures Handed(c, ps0, ps[k := Granted(ps[k], pages[hi], base)], k, pages, hi + 1)
  {
    var es, es' := ps[k].entries, ps[k].entries + [Entry(pages[hi], base)];
    assert es'[..|ps0[k].entries|] == es[..|ps0[k].entries|];
    assert forall i :: 0 <= i < hi ==> pages[..hi + 1][i] == pages[..hi][i];
  }

  lemma {:induction false} HandedFill(c: Layout, ps0: seq<Process>, ps: seq<Process>, k: int, pages: seq<int>, hi: int,
                                      e: int)
    requires Handed(c, ps0, ps, k, pages, hi) && NamedOnce(pages) && hi < |pages| && c.fixed
    requires EntryOf(ps0[k].entries, pages[hi]) < 0
    requires 0 <= e < |ps[k].entries| && ps[k].entries[e].page == NO_PAGE
    ensures Handed(c, ps0, ps[k := WithSlot(ps[k], e, pages[hi], ps[k].count)], k, pages, hi + 1)
  {
    assert pages[..hi + 1] == pages[..hi] + [pages[hi]];
    assert forall x :: x in pages[..hi] ==> x >= 0;
  }

  lemma {:induction false} HandedSkip(c: Layout, ps0: seq<Process>, ps: seq<Process>, k: int, pages: seq<int>, hi: int)
    requires Handed(c, ps0, ps, k, pages, hi) && hi < |pages| && c.fixed
    ensures Handed(c, ps0, ps, k, pages, hi + 1)
  {
    assert pages[..hi + 1] == pages[..hi] + [pages[hi]];
  }

  /** How many of these pages the process does not hold yet. */
  ghost function NewCount(es: seq<Entry>, pages: seq<int>): nat {
    if pages == [] then 0
    else NewCount(es, pages[..|pages| - 1]) + if EntryOf(es, pages[|pages| - 1]) < 0 then 1 else 0
  }

  /** The places the first n pages of a request take up: under fixed allocation a page
      that is held takes none, under dynamic allocation every page takes one. */
  ghost function Spent(c: Layout, p: Process, pages: seq<int>, n: int): int
    requires 0 <= n <= |pages|
  {
    if c.fixed then NewCount(p.entries, pages[..n]) else n
  }

  /** A request is granted: a place is left whenever the next page's turn comes. */
  ghost predicate AllFit(c: Layout, p: Process, free: seq<Frame>, pages: seq<int>) {
    forall n :: 0 <= n < |pages| ==> Spent(c, p, pages, n) < RoomLeft(c, p, free)
  }

  /** When a request is granted, on the lists themselves. Under dynamic allocation: if there are
      as many free frames in the process's file as pages. Under fixed allocation: if the pages
      before the last that the process does not hold are fewer than its empty slots. */
  lemma {:induction false} AllFitMeans(c: Layout, p: Process, free: seq<Frame>, pages: seq<int>)
    ensures AllFit(c, p, free, pages) <==>
              || pages == []
              || if c.fixed then
                   var es, n := p.entries, |pages| - 1;
                   |set i | 0 <= i < n && (forall e :: 0 <= e < |es| ==> es[e].page != pages[i])| <
                   |set e | 0 <= e < |es| && es[e].page == NO_PAGE|
                 else |pages| <= |set i | 0 <= i < |free| && free[i].file == p.file|
  {
    FreeInIs(free, p.file);
    assert EmptySlots(p.entries) == set e | 0 <= e < |p.entries| && p.entries[e].page == NO_PAGE;
    if pages != [] {
      var last := |pages| - 1;
      NewCountIs(p.entries, pages, last);
      forall n | 0 <= n < |pages| ensures Spent(c, p, pages, n) <= Spent(c, p, pages, last) {
        SpentGrows(c, p, pages, n, last);
      }
      assert AllFit(c, p, free, pages) <==> Spent(c, p, pages, last) < RoomLeft(c, p, free);
    }
  }

  lemma {:induction false} SpentGrows(c: Layout, p: Process, pages: seq<int>, n: nat, m: nat)
    requires n <= m <= |pages|
    ensures Spent(c, p, pages, n) <= Spent(c, p, pages, m)
    decreases m
  {
    if n < m {
      SpentNext(c, p, pages, m - 1);
      SpentGrows(c, p, pages, n, m - 1);
    }
  }

  lemma {:induction false} NewCountIs(es: seq<Entry>, pages: seq<int>, n: nat)
    requires n <= |pages|
    ensures NewCount(es, pages[..n]) ==
            |set i | 0 <= i < n && (forall e :: 0 <= e < |es| ==> es[e].page != pages[i])|
  {
    var b := set i | 0 <= i < n && (forall e :: 0 <= e < |es| ==> es[e].page != pages[i]);
    if n == 0 {
      assert b == {};
    } else {
      NewCountIs(es, pages, n - 1);
      var a := set i | 0 <= i < n - 1 && (forall e :: 0 <= e < |es| ==> es[e].page != pages[i]);
      assert pages[..n][..n - 1] == pages[..n - 1];
      hide EntryOf;
      assert EntryOf(es, pages[n - 1]) < 0 <==> (forall e :: 0 <= e < |es| ==> es[e].page != pages[n - 1]);
      assert b == if EntryOf(es, pages[n - 1]) < 0 then a + {n - 1} else a;
    }
  }

  lemma {:induction false} SpentNext(c: Layout, p: Process, pages: seq<int>, n: int)
    requires 0 <= n < |pages|
    ensures Spent(c, p, pages, n + 1) ==
              Spent(c, p, pages, n) + if c.fixed && EntryOf(p.entries, pages[n]) >= 0 then 0 else 1
  {
    assert pages[..n + 1][..n] == pages[..n];
  }

  lemma {:induction false} SpentBound(c: Layout, p: Process, pages: seq<int>, n: int)
    requires 0 <= n <= |pages|
    ensures 0 <= Spent(c, p, pages, n) <= n
    ensures (forall i :: 0 <= i < n ==> EntryOf(p.entries, pages[i]) < 0) ==> Spent(c, p, pages, n) == n
  {
    if n > 0 {
      SpentNext(c, p, pages, n - 1);
      SpentBound(c, p, pages, n - 1);
    } else {
      assert pages[..0] == [];
    }
  }

  /** For pages none of which is held, that is the number of places left. */
  lemma {:induction false} AllFitNew(c: Layout, p: Process, free: seq<Frame>, pages: seq<int>)
    requires forall i :: 0 <= i < |pages| ==> EntryOf(p.entries, pages[i]) < 0
    ensures AllFit(c, p, free, pages) <==> |pages| <= RoomLeft(c, p, free)
  {
    forall n | 0 <= n <= |pages| ensures Spent(c, p, pages, n) == n {
      SpentBound(c, p, pages, n);
    }
    if AllFit(c, p, free, pages) && pages != [] {
      assert Spent(c, p, pages, |pages| - 1) < RoomLeft(c, p, free);
    }
  }

  /** Taking back a request none of whose pages was held leaves the list it found. */
  lemma {:induction false} UndoneNew(c: Layout, ps0: seq<Process>, ps: seq<Process>, k: int, pages: seq<int>, hi: int)
    requires Handed(c, ps0, ps, k, pages, hi) && NamedOnce(pages)
    requires forall i :: 0 <= i < |pages| ==> EntryOf(ps0[k].entries, pages[i]) < 0
    requires c.fixed ==> EntriesOk(c, ps[k])
    ensures UndoAll(c, ps[k].entries, pages) == ps0[k].entries
  {
    if c.fixed {
      UndoneSlots(c, ps[k], pages, |pages|);
      assert pages[..|pages|] == pages;
      SlotsBack(ps0[k].entries, ps[k].entries, UndoAll(c, ps[k].entries, pages), pages, hi);
    } else {
      UndoneTail(c, ps0[k].entries, ps[k].entries, pages, hi, |pages|);
      TailNames(ps[k].entries, ps0[k].entries, pages, hi, hi);
      assert pages[..|pages|] == pages;
    }
  }

  /** The tail loses its first entries one by one, then nothing more. */
  lemma {:induction false} UndoneTail(c: Layout, es0: seq<Entry>, es: seq<Entry>, pages: seq<int>, hi: int, n: int)
    requires !c.fixed && 0 <= hi <= |pages| && NamedOnce(pages) && 0 <= n <= |pages| && TailAdded(es0, es, pages[..hi])
    requires forall i :: 0 <= i < |pages| ==> EntryOf(es0, pages[i]) < 0
    ensures UndoAll(c, es, pages[..n]) == es0 + TailFrom(es, es0, if n < hi then n else hi)
  {
    hide Undo1, UndoAll, EntryOf, NamedOnce, TailAdded;
    if n == 0 {
      UndoNone(c, es, pages);
      TailAll(es, es0, pages[..hi]);
    } else {
      UndoneTail(c, es0, es, pages, hi, n - 1);
      UndoNext(c, es, pages, n - 1);
      var m := if n - 1 < hi then n - 1 else hi;
      var tail := TailFrom(es, es0, m);
      TailNames(es, es0, pages, hi, m);
      DropFirstOf(c, es0, tail, pages, m, n - 1);
    }
  }

  /** What was added to es0, without its first m entries. */
  ghost function TailFrom(es: seq<Entry>, es0: seq<Entry>, m: int): seq<Entry> {
    if 0 <= m && |es0| + m <= |es| then es[|es0| + m..] else []
  }

  lemma {:induction false} UndoNone(c: Layout, es: seq<Entry>, pages: seq<int>)
    ensures UndoAll(c, es, pages[..0]) == es
  {
  }

  lemma {:induction false} TailAll(es: seq<Entry>, es0: seq<Entry>, pages: seq<int>)
    requires TailAdded(es0, es, pages)
    ensures es0 + TailFrom(es, es0, 0) == es
  {
  }

  lemma {:induction false} TailNames(es: seq<Entry>, es0: seq<Entry>, pages: seq<int>, hi: int, m: int)
    requires 0 <= m <= hi <= |pages| && TailAdded(es0, es, pages[..hi])
    ensures var tail := TailFrom(es, es0, m);
      && m + |tail| == hi && (forall i :: 0 <= i < |tail| ==> tail[i].page == pages[m + i])
      && (tail != [] ==> tail[1..] == TailFrom(es, es0, m + 1))
  {
    var tail := TailFrom(es, es0, m);
    forall i | 0 <= i < |tail| ensures tail[i].page == pages[m + i] {
      assert tail[i] == es[|es0| + (m + i)] && pages[..hi][m + i] == pages[m + i];
    }
  }

  lemma {:induction false} DropFirstOf(c: Layout, es0: seq<Entry>, tail: seq<Entry>, pages: seq<int>, m: int, n: int)
    requires !c.fixed && NamedOnce(pages) && 0 <= m <= n < |pages| && m + |tail| <= |pages| && (m < n ==> tail == [])
    requires forall i :: 0 <= i < |tail| ==> tail[i].page == pages[m + i]
    requires EntryOf(es0, pages[n]) < 0
    ensures Undo1(c, es0 + tail, pages[n]) == es0 + if tail == [] then [] else tail[1..]
  {
    hide NamedOnce, EntryOf;
    var all := es0 + tail;
    forall i | 0 <= i < |es0| ensures all[i].page != pages[n] {
      assert all[i] == es0[i];
    }
    if tail == [] {
      assert all == es0;
    } else {
      assert all[|es0|] == tail[0] && m == n && EntryOf(all, pages[n]) == |es0|;
      assert Without(all, |es0|) == es0 + tail[1..];
    }
  }

  /** The entries with these pages' slots emptied. */
  ghost predicate Emptied(es: seq<Entry>, back: seq<Entry>, pages: seq<int>) {
    |back| == |es| && forall e :: 0 <= e < |es| ==>
        back[e] == if es[e].page in pages then Entry(NO_PAGE, es[e].base) else es[e]
  }

  lemma {:induction false} UndoneSlots(c: Layout, p: Process, pages: seq<int>, n: int)
    requires c.fixed && NamedOnce(pages) && 0 <= n <= |pages| && EntriesOk(c, p)
    ensures Emptied(p.entries, UndoAll(c, p.entries, pages[..n]), pages[..n])
  {
    if n == 0 {
      assert pages[..0] == [];
    } else {
      UndoneSlots(c, p, pages, n - 1);
      UndoNext(c, p.entries, pages, n - 1);
      assert pages[..n] == pages[..n - 1] + [pages[n - 1]];
      EmptyOne(c, p, UndoAll(c, p.entries, pages[..n - 1]), pages[..n - 1], pages[n - 1]);
    }
  }

  lemma {:induction false} EmptyOne(c: Layout, p: Process, es: seq<Entry>, pages: seq<int>, page: int)
    requires c.fixed && EntriesOk(c, p) && Emptied(p.entries, es, pages) && page >= 0 && page !in pages
    ensures Emptied(p.entries, Undo1(c, es, page), pages + [page])
  {
    var e := EntryOf(es, page);
    OnlySlot(c, p, page);
    var f := EntryOf(p.entries, page);
    assert f >= 0 ==> es[f] == p.entries[f];
    assert e >= 0 ==> es[e] == p.entries[e] && e == f;
  }

  lemma {:induction false} SlotsBack(es0: seq<Entry>, es: seq<Entry>, back: seq<Entry>, pages: seq<int>, hi: int)
    requires 0 <= hi <= |pages| && SlotsFilled(es0, es, pages[..hi]) && Emptied(es, back, pages)
    requires forall i :: 0 <= i < |pages| ==> EntryOf(es0, pages[i]) < 0
    ensures back == es0
  {
    forall e | 0 <= e < |back| ensures back[e] == es0[e] {
      assert es[e].page in pages[..hi] ==> es[e].page in pages;
      assert es0[e].page !in pages;
    }
  }

  lemma {:induction false} OnlySlot(c: Layout, p: Process, page: int)
    requires c.fixed && EntriesOk(c, p) && page >= 0
    ensures forall i :: 0 <= i < |p.entries| && i != EntryOf(p.entries, page) ==> p.entries[i].page != page
  {
    var e := EntryOf(p.entries, page);
    forall i | 0 <= i < |p.entries| && i != e ensures p.entries[i].page != page {
      assert 0 <= e < i ==> p.entries[e].page != p.entries[i].page;
    }
  }

  /** No frame is listed twice. */
  ghost predicate BasesApart(es: seq<Entry>) {
    forall i, j :: 0 <= i < j < |es| ==> es[i].base != es[j].base
  }

  lemma {:induction false} StoreApart(c: Layout, ps: seq<Process>, free: seq<Frame>, k: int)
    requires Store(c, ps, free) && 0 <= k < |ps|
    ensures BasesApart(ps[k].entries)
  {
    forall i, j | 0 <= i < j < |ps[k].entries| ensures ps[k].entries[i].base != ps[k].entries[j].base {
      PagesApart(c, ps, free, k, i, k, j);
    }
  }

  lemma {:induction false} PlacesOut(es: seq<Entry>, page: int, b: int)
    requires forall i :: 0 <= i < |es| ==> es[i].base != b
    ensures b !in Places(es, page)
  {
    if es != [] { PlacesOut(es[..|es| - 1], page, b); }
  }

  /** The first place goes with its entry: it is not among the others. */
  lemma {:induction false} FirstPlaceOnce(es: seq<Entry>, page: int)
    requires BasesApart(es) && Places(es, page) != []
    ensures Places(es, page)[0] !in Rest(Places(es, page))
  {
    var e := EntryOf(es, page);
    PlacesFirst(es, page);
    PlacesAt(es, e, es[e], page);
    BeforeFirst(es, page);
    PlacesNone(es[..e], page);
    var after := es[e + 1..];
    forall i | 0 <= i < |after| ensures after[i].base != es[e].base {
      assert after[i] == es[e + 1 + i];
    }
    PlacesOut(after, page, es[e].base);
  }

  /** Frames granted, held pages keep their first place. */
  lemma {:induction false} HandedPlaces(c: Layout, ps0: seq<Process>, ps: seq<Process>, k: int, pages: seq<int>,
                                        hi: int, j: int)
    requires Handed(c, ps0, ps, k, pages, hi) && NamedOnce(pages) && j >= 0
    ensures EntryOf(ps0[k].entries, j) >= 0 ==>
              EntryOf(ps[k].entries, j) >= 0 &&
                  ps[k].entries[EntryOf(ps[k].entries, j)].base == ps0[k].entries[EntryOf(ps0[k].entries, j)].base
    ensures EntryOf(ps0[k].entries, j) < 0 && j !in pages ==> EntryOf(ps[k].entries, j) < 0
  {
    var es0, es := ps0[k].entries, ps[k].entries;
    var a, b := EntryOf(es0, j), EntryOf(es, j);
    if c.fixed {
      assert a >= 0 ==> es[a].page == es0[a].page;
      assert b >= 0 && es[b].page != es0[b].page ==> es[b].page in pages[..hi] && EntryOf(es0, j) < 0;
    } else {
      assert a >= 0 ==> es[..|es0|][a] == es[a];
      assert 0 <= b < |es0| ==> es[..|es0|][b] == es[b];
      assert b >= |es0| ==> es[|es0| + (b - |es0|)].page == pages[..hi][b - |es0|];
    }
  }

  /** What a denied request does to a page the process held: under dynamic allocation
      its old frame is given up, and it is looked up elsewhere or nowhere; under fixed
      allocation it is held no more. Pages not held, and pages not named, are looked
      up as before. */
  lemma {:induction false} HeldPageLost(c: Layout, ps0: seq<Process>, ps: seq<Process>, free: seq<Frame>, k: int,
                                        pages: seq<int>, hi: int, count: int, j: int)
    requires Handed(c, ps0, ps, k, pages, hi) && NamedOnce(pages) && Store(c, ps, free) && Distinct(ps0) && j >= 0
    ensures var q := ps[k].(entries := UndoAll(c, ps[k].entries, pages), count := count); var pid := ps0[k].pid;
      && (j in pages && Lookup(ps0, pid, j).Some? ==> Lookup(ps0[k := q], pid, j) != Lookup(ps0, pid, j))
      && (j in pages && Lookup(ps0, pid, j).Some? && c.fixed ==> Lookup(ps0[k := q], pid, j).None?)
      && (j !in pages || Lookup(ps0, pid, j).None? ==> Lookup(ps0[k := q], pid, j) == Lookup(ps0, pid, j))
  {
    hide Handed, Store, UndoAll, Places, NamedOnce, EntryOf, BasesApart, EntriesOk;
    HandedRange(c, ps0, ps, k, pages, hi);
    StoreFacts(c, ps, free);
    var es0, es, back := ps0[k].entries, ps[k].entries, UndoAll(c, ps[k].entries, pages);
    LookupFirst(ps0, k, ps[k].(entries := back, count := count), j);
    StoreApart(c, ps, free, k);
    UndoAllPlaces(c, es, pages, j);
    HandedPlaces(c, ps0, ps, k, pages, hi, j);
    PlacesFirst(es0, j);
    PlacesFirst(es, j);
    PlacesFirst(back, j);
    if j in pages {
      if EntryOf(es0, j) >= 0 {
        FirstPlaceOnce(es, j);
        if c.fixed { OnePlace(c, ps, free, k, j); }
      } else {
        NewPlace(c, ps0, ps, k, pages, hi, j);
      }
    }
  }

  lemma {:induction false} LookupFirst(ps: seq<Process>, k: int, p: Process, j: int)
    requires Distinct(ps) && 0 <= k < |ps| && p.pid == ps[k].pid && p.file == ps[k].file
    ensures var e := EntryOf(ps[k].entries, j);
      Lookup(ps, p.pid, j) == if e < 0 then None else Some(Frame(p.file, ps[k].entries[e].base))
    ensures var e := EntryOf(p.entries, j);
      Lookup(ps[k := p], p.pid, j) == if e < 0 then None else Some(Frame(p.file, p.entries[e].base))
  {
    IndexIs(ps, k);
    LookupAfter(ps, k, p);
  }

  lemma {:induction false} OnePlace(c: Layout, ps: seq<Process>, free: seq<Frame>, k: int, j: int)
    requires Store(c, ps, free) && c.fixed && 0 <= k < |ps| && j >= 0
    ensures |Places(ps[k].entries, j)| <= 1
  {
    hide Places;
    var es := ps[k].entries;
    var e := EntryOf(es, j);
    PlacesFirst(es, j);
    if e >= 0 {
      OnlySlot(c, ps[k], j);
      PlacesAt(es, e, es[e], j);
      PlacesNone(es[..e], j);
      PlacesNone(es[e + 1..], j);
    }
  }

  /** A page that was not held has one place at most after the grants. */
  lemma {:induction false} NewPlace(c: Layout, ps0: seq<Process>, ps: seq<Process>, k: int, pages: seq<int>, hi: int,
                                    j: int)
    requires Handed(c, ps0, ps, k, pages, hi) && NamedOnce(pages) && j in pages && EntryOf(ps0[k].entries, j) < 0 &&
             j >= 0
    requires c.fixed ==> EntriesOk(c, ps[k])
    ensures |Places(ps[k].entries, j)| <= 1
  {
    hide Places;
    var es0, es := ps0[k].entries, ps[k].entries;
    var e := EntryOf(es, j);
    PlacesFirst(es, j);
    if e >= 0 {
      if c.fixed {
        OnlySlot(c, ps[k], j);
      } else {
        OnlyInTail(es0, es, pages, hi, j);
      }
      PlacesAt(es, e, es[e], j);
      PlacesNone(es[..e], j);
      PlacesNone(es[e + 1..], j);
    }
  }

  lemma {:induction false} OnlyInTail(es0: seq<Entry>, es: seq<Entry>, pages: seq<int>, hi: int, j: int)
    requires 0 <= hi <= |pages| && TailAdded(es0, es, pages[..hi]) && NamedOnce(pages) && EntryOf(es0, j) < 0 &&
             EntryOf(es, j) >= 0
    ensures forall i :: 0 <= i < |es| && i != EntryOf(es, j) ==> es[i].page != j
  {
    var e := EntryOf(es, j);
    forall i | 0 <= i < |es0| ensures es[i].page != j {
      assert es[..|es0|][i] == es[i];
    }
    forall i | |es0| <= i < |es| && i != e ensures es[i].page != j {
      var x, y := e - |es0|, i - |es0|;
      assert es[|es0| + x].page == pages[..hi][x] && es[|es0| + y].page == pages[..hi][y];
    }
  }

  /** When a denied request leaves no trace: exactly if none of its pages was held.
      Then the list is what it was but for the page count, and the same frames are free. */
  lemma {:induction false} DeniedExact(c: Layout, ps0: seq<Process>, free0: seq<Frame>, ps: seq<Process>,
                                       free1: seq<Frame>, k: int,
                                       pages: seq<int>, hi: int, count: int, free: seq<Frame>)
    requires Store(c, ps0, free0) && Handed(c, ps0, ps, k, pages, hi) && NamedOnce(pages) && Store(c, ps, free1)
    requires Store(c, ps0[k := ps[k].(entries := UndoAll(c, ps[k].entries, pages), count := count)], free)
    ensures var ps' := ps0[k := ps[k].(entries := UndoAll(c, ps[k].entries, pages), count := count)];
      var unheld := forall i :: 0 <= i < |pages| ==> Lookup(ps0, ps0[k].pid, pages[i]).None?;
      && (unheld ==> ps' == ps0[k := ps0[k].(count := count)])
      &&
         (unheld <==>
          (forall j :: j >= 0 ==> Lookup(ps', ps0[k].pid, j) == Lookup(ps0, ps0[k].pid, j)) &&
          multiset(free) == multiset(free0))
  {
    hide Handed, Store, UndoAll, NamedOnce, EntryOf, Lookup, EntriesOk;
    HandedRange(c, ps0, ps, k, pages, hi);
    StoreFacts(c, ps0, free0);
    StoreFacts(c, ps, free1);
    var pid := ps0[k].pid;
    var ps' := ps0[k := ps[k].(entries := UndoAll(c, ps[k].entries, pages), count := count)];
    if forall i :: 0 <= i < |pages| ==> Lookup(ps0, pid, pages[i]).None? {
      forall i | 0 <= i < |pages| ensures EntryOf(ps0[k].entries, pages[i]) < 0 {
        LookupFirst(ps0, k, ps0[k], pages[i]);
      }
      UndoneNew(c, ps0, ps, k, pages, hi);
      SameFree(c, ps0, free0, k, count, free);
    } else {
      var i :| 0 <= i < |pages| && !Lookup(ps0, pid, pages[i]).None?;
      NamedPositive(pages);
      HeldPageLost(c, ps0, ps, free1, k, pages, hi, count, pages[i]);
    }
  }

  /** With the same pages held, the free pool is the same, in whatever order. */
  lemma {:induction false} SameFree(c: Layout, ps0: seq<Process>, free0: seq<Frame>, k: int, count: int,
                                    free: seq<Frame>)
    requires Store(c, ps0, free0) && 0 <= k < |ps0| && Store(c, ps0[k := ps0[k].(count := count)], free)
    ensures multiset(free) == multiset(free0)
    ensures forall q, j :: Lookup(ps0[k := ps0[k].(count := count)], q, j) == Lookup(ps0, q, j)
  {
    var p := ps0[k].(count := count);
    HeldSwap(c, ps0, k, p);
    LookupAfter(ps0, k, p);
    IndexIs(ps0, k);
    SameMultiset(Held(c, ps0[k := p]), Held(c, ps0), Holding(c, p), multiset(free), multiset(free0), multiset(Pool(c)));
  }

  lemma {:induction false} SameMultiset<T>(h': multiset<T>, h: multiset<T>, x: multiset<T>, f': multiset<T>,
                                           f: multiset<T>, all: multiset<T>)
    requires h' + x == h + x && h' + f' == all && h + f == all
    ensures f' == f
  {
    forall t ensures f'[t] == f[t] {
      assert (h' + x)[t] == (h + x)[t] && (h' + f')[t] == all[t] && (h + f)[t] == all[t];
    }
  }

  // ------------------------------------------------------ what is never handed out

  /** Fixed allocation never hands out the last unit of a file, though it fits. */
  lemma {:induction false} LastUnitLeftOut(c: Layout, n: nat, file: int)
    requires c.fixed && c.Unit() > 0 && n > 0 && c.fileSize == n * c.Unit()
    ensures Frame(file, (n - 1) * c.Unit()) !in Pool(c) && (n - 1) * c.Unit() + c.Unit() <= c.fileSize
  {
    PoolFacts(c, c.files);
    assert n * c.Unit() == (n - 1) * c.Unit() + c.Unit();
  }
}
