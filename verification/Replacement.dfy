/** What the replacement algorithms promise: which page they choose, and what
    choosing does to the use bits. Independent of how the sweeps are coded. */
module Replacement {
  import opened Base
  import opened Vm

  // ------------------------------------------------------------ the clock

  /** How many steps ahead of hand h frame f is, on a circle of n frames. */
  function Dist(h: int, f: int, n: int): int {
    if f >= h then f - h else f - h + n
  }

  function Advance(p: int, n: int): int {
    if p + 1 == n then 0 else p + 1
  }

  /** (use, modified) read as a number: the clock prefers low classes. */
  function Class(p: Page): int
    requires p.In?
  {
    (if p.use == 0 then 0 else 2) + (if p.dirty then 1 else 0)
  }

  /** The candidates are occupied frames. */
  ghost predicate Occupied(frames: seq<Frame>, tables: Tables, cand: set<int>) {
    forall f :: f in cand ==> 0 <= f < |frames| && Resident(tables, frames[f].pid, frames[f].page) &&
                              tables[frames[f].pid][frames[f].page].frame == f
  }

  ghost function PageIn(frames: seq<Frame>, tables: Tables, cand: set<int>, f: int): (p: Page)
    requires Occupied(frames, tables, cand) && f in cand
    ensures p.In? && p.frame == f
  {
    tables[frames[f].pid][frames[f].page]
  }

  ghost function ClassOf(frames: seq<Frame>, tables: Tables, cand: set<int>, f: int): int
    requires Occupied(frames, tables, cand) && f in cand
  {
    Class(PageIn(frames, tables, cand, f))
  }

  /** v is, in circular order from h, the first candidate of class k. */
  ghost predicate FirstOf(frames: seq<Frame>, tables: Tables, cand: set<int>, h: int, k: int, v: int)
    requires Occupied(frames, tables, cand)
  {
    && v in cand && ClassOf(frames, tables, cand, v) == k
    && forall w :: w in cand && ClassOf(frames, tables, cand, w) == k ==>
         Dist(h, v, |frames|) <= Dist(h, w, |frames|)
  }

  ghost predicate NoneOf(frames: seq<Frame>, tables: Tables, cand: set<int>, k: int)
    requires Occupied(frames, tables, cand)
  {
    forall w :: w in cand ==> ClassOf(frames, tables, cand, w) != k
  }

  /** No candidate of class k fewer than d steps ahead of h. */
  ghost predicate NoneBefore(frames: seq<Frame>, tables: Tables, cand: set<int>, h: int, k: int, d: int)
    requires Occupied(frames, tables, cand)
  {
    forall f :: f in cand && Dist(h, f, |frames|) < d ==> ClassOf(frames, tables, cand, f) != k
  }

  lemma {:induction false} NoneAtStart(frames: seq<Frame>, tables: Tables, cand: set<int>, h: int, k: int)
    requires Occupied(frames, tables, cand) && 0 <= h < |frames|
    ensures NoneBefore(frames, tables, cand, h, k, 0)
  {
  }

  /** Looking at candidate f, the next one not yet seen. */
  lemma {:induction false} NoneStep(frames: seq<Frame>, tables: Tables, cand: set<int>, h: int, k: int, d: int, f: int)
    requires Occupied(frames, tables, cand) && f in cand && NoneBefore(frames, tables, cand, h, k, d)
    requires 0 <= h < |frames|
    requires forall g :: g in cand ==> Dist(h, g, |frames|) < d || Dist(h, f, |frames|) <= Dist(h, g, |frames|)
    ensures ClassOf(frames, tables, cand, f) == k ==> FirstOf(frames, tables, cand, h, k, f)
    ensures ClassOf(frames, tables, cand, f) != k ==>
              NoneBefore(frames, tables, cand, h, k, Dist(h, f, |frames|) + 1)
  {
  }

  lemma {:induction false} NoneAtAll(frames: seq<Frame>, tables: Tables, cand: set<int>, h: int, k: int, d: int)
    requires Occupied(frames, tables, cand) && NoneBefore(frames, tables, cand, h, k, d)
    requires Passed(cand, h, |frames|, d) == cand
    ensures NoneOf(frames, tables, cand, k)
  {
    forall w | w in cand ensures ClassOf(frames, tables, cand, w) != k {
      assert w in Passed(cand, h, |frames|, d);
    }
  }

  /** The clock's promise: the first candidate, from the hand on, of the least
      class there is. */
  ghost predicate ClockVictim(frames: seq<Frame>, tables: Tables, cand: set<int>, h: int, v: int)
    requires Occupied(frames, tables, cand)
  {
    && v in cand
    && FirstOf(frames, tables, cand, h, ClassOf(frames, tables, cand, v), v)
    && forall w :: w in cand ==> ClassOf(frames, tables, cand, v) <= ClassOf(frames, tables, cand, w)
  }

  /** Use bits cleared on the candidates fewer than d steps ahead of h. */
  ghost function Cooled(tables: Tables, cand: set<int>, h: int, n: int, d: int): (t: Tables)
    ensures t.Keys == tables.Keys
    ensures forall pid :: pid in t ==> |t[pid]| == |tables[pid]|
    ensures forall pid, i :: HasPage(tables, pid, i) ==>
              t[pid][i] == CooledPage(tables[pid][i], cand, h, n, d)
  {
    map pid | pid in tables :: seq(|tables[pid]|, i requires 0 <= i < |tables[pid]| =>
      CooledPage(tables[pid][i], cand, h, n, d))
  }

  ghost function CooledPage(p: Page, cand: set<int>, h: int, n: int, d: int): Page {
    if p.In? && p.frame in cand && Dist(h, p.frame, n) < d then In(p.frame, p.dirty, 0) else p
  }

  /** The tables after the clock chose v: untouched if some page was unused and
      clean, cleared up to v if the best was unused but modified, else all cleared. */
  ghost function AfterClock(frames: seq<Frame>, tables: Tables, cand: set<int>, h: int, v: int): Tables
    requires Occupied(frames, tables, cand) && v in cand
  {
    var k := ClassOf(frames, tables, cand, v);
    if k == 0 then tables
    else Cooled(tables, cand, h, |frames|, if k == 1 then Dist(h, v, |frames|) else |frames|)
  }

  /** There is only one such victim. */
  lemma {:induction false} ClockVictimUnique(frames: seq<Frame>, tables: Tables, cand: set<int>, h: int, v: int, w: int)
    requires Occupied(frames, tables, cand) && 0 <= h < |frames|
    requires ClockVictim(frames, tables, cand, h, v) && ClockVictim(frames, tables, cand, h, w)
    ensures v == w
  {
  }

  lemma {:induction false} CooledFacts(frames: seq<Frame>, tables: Tables, cand: set<int>, h: int, d: int)
    requires Occupied(frames, tables, cand)
    ensures var t := Cooled(tables, cand, h, |frames|, d);
      && Occupied(frames, t, cand) && SameButUse(tables, t)
      && forall f :: f in cand ==>
           PageIn(frames, t, cand, f) == CooledPage(PageIn(frames, tables, cand, f), cand, h, |frames|, d)
  {
  }

  /** Clearing one more candidate's use bit: f is the next one from h. */
  lemma {:induction false} CoolNext(frames: seq<Frame>, tables: Tables, cand: set<int>, h: int, d: int, f: int)
    requires Occupied(frames, tables, cand) && Linked(frames, tables) && 0 <= h < |frames| && f in cand
    requires d <= Dist(h, f, |frames|)
    requires forall g :: g in cand ==> Dist(h, g, |frames|) < d || Dist(h, f, |frames|) <= Dist(h, g, |frames|)
    ensures var n := |frames|; var t := Cooled(tables, cand, h, n, d);
      && t == Cooled(tables, cand, h, n, Dist(h, f, n))
      && Occupied(frames, t, cand)
      && ClassOf(frames, t, cand, f) == ClassOf(frames, tables, cand, f)
      && Cooled(tables, cand, h, n, Dist(h, f, n) + 1) ==
         SetPage(t, frames[f].pid, frames[f].page, In(f, PageIn(frames, t, cand, f).dirty, 0))
  {
    var n := |frames|;
    CooledGap(tables, cand, h, n, d, Dist(h, f, n));
    var t := Cooled(tables, cand, h, n, d);
    CooledFacts(frames, tables, cand, h, d);
    var p := PageIn(frames, tables, cand, f);
    var t' := Cooled(tables, cand, h, n, Dist(h, f, n) + 1);
    forall pid, i | HasPage(t', pid, i)
      ensures t'[pid][i] == SetPage(t, frames[f].pid, frames[f].page, In(f, p.dirty, 0))[pid][i]
    {
      assert HasPage(tables, pid, i);
      if tables[pid][i].In? && tables[pid][i].frame == f {
        assert Resident(tables, pid, i);
      } else if tables[pid][i].In? && tables[pid][i].frame in cand {
        assert Dist(h, tables[pid][i].frame, n) != Dist(h, f, n);
      }
    }
    TablesEqual(t', SetPage(t, frames[f].pid, frames[f].page, In(f, p.dirty, 0)));
  }

  /** The sweep for (0,1), s steps ahead of h: none found, all passed ones cleared. */
  ghost predicate Swept(frames: seq<Frame>, tables: Tables, cand: set<int>, h: int, s: int, now: Tables) {
    && Occupied(frames, tables, cand) && Occupied(frames, now, cand) && Linked(frames, tables)
    && 0 <= h < |frames| && NoneBefore(frames, tables, cand, h, 1, s) && now == Cooled(tables, cand, h, |frames|, s)
  }

  lemma {:induction false} SweepStarts(frames: seq<Frame>, tables: Tables, cand: set<int>, h: int)
    requires Occupied(frames, tables, cand) && Linked(frames, tables) && 0 <= h < |frames|
    ensures Swept(frames, tables, cand, h, 0, tables)
  {
    CooledNone(tables, cand, h, |frames|);
  }

  /** Looking at f, the next candidate: it is the victim, or it is cleared and passed. */
  lemma {:induction false} SweepStep(frames: seq<Frame>, tables: Tables, cand: set<int>, h: int, s: int, now: Tables,
                                     f: int)
    requires Swept(frames, tables, cand, h, s, now) && f in cand && s <= Dist(h, f, |frames|)
    requires forall g :: g in cand ==> Dist(h, g, |frames|) < s || Dist(h, f, |frames|) <= Dist(h, g, |frames|)
    ensures Occupied(frames, now, cand) && Occupied(frames, tables, cand)
    ensures HasPage(now, frames[f].pid, frames[f].page)
    ensures ClassOf(frames, now, cand, f) == 1 ==>
              FirstOf(frames, tables, cand, h, 1, f) && now == Cooled(tables, cand, h, |frames|, Dist(h, f, |frames|))
    ensures ClassOf(frames, now, cand, f) != 1 ==>
              Swept(frames, tables, cand, h, Dist(h, f, |frames|) + 1,
                    SetPage(now, frames[f].pid, frames[f].page, In(f, PageIn(frames, now, cand, f).dirty, 0)))
  {
    hide Cooled;
    NoneStep(frames, tables, cand, h, 1, s, f);
    CoolNext(frames, tables, cand, h, s, f);
    CooledFacts(frames, tables, cand, h, Dist(h, f, |frames|) + 1);
  }

  lemma {:induction false} SweepEnds(frames: seq<Frame>, tables: Tables, cand: set<int>, h: int, s: int, now: Tables)
    requires Swept(frames, tables, cand, h, s, now) && s <= |frames|
    requires Passed(cand, h, |frames|, s) == cand
    ensures Occupied(frames, tables, cand) && NoneOf(frames, tables, cand, 1) &&
            now == Cooled(tables, cand, h, |frames|, |frames|)
  {
    NoneAtAll(frames, tables, cand, h, 1, s);
    assert forall f :: f in cand ==> f in Passed(cand, h, |frames|, s);
    CooledGap(tables, cand, h, |frames|, s, |frames|);
  }

  lemma {:induction false} CooledNone(tables: Tables, cand: set<int>, h: int, n: int)
    requires 0 <= h < n && forall f :: f in cand ==> 0 <= f
    ensures Cooled(tables, cand, h, n, 0) == tables
  {
    TablesEqual(Cooled(tables, cand, h, n, 0), tables);
  }

  /** Clearing up to d or up to d' is the same if no candidate lies between. */
  lemma {:induction false} CooledGap(tables: Tables, cand: set<int>, h: int, n: int, d: int, d': int)
    requires d <= d' && forall f :: f in cand ==> Dist(h, f, n) < d || d' <= Dist(h, f, n)
    ensures Cooled(tables, cand, h, n, d') == Cooled(tables, cand, h, n, d)
  {
    TablesEqual(Cooled(tables, cand, h, n, d'), Cooled(tables, cand, h, n, d));
  }

  /** All frames in use, or the frames of one process, can be candidates. */
  lemma {:induction false} AllOccupied(frames: seq<Frame>, tables: Tables, cand: set<int>)
    requires Linked(frames, tables)
    requires forall f :: f in cand ==> 0 <= f < |frames| && frames[f].pid != FREE
    ensures Occupied(frames, tables, cand)
  {
  }

  /** The position s steps ahead of h, for s up to a full turn. */
  function Wrap(h: int, s: int, n: int): int {
    if h + s < n then h + s else h + s - n
  }

  lemma {:induction false} WrapStep(h: int, s: int, n: int)
    requires 0 <= h < n && 0 <= s < n
    ensures 0 <= Wrap(h, s, n) < n && Dist(h, Wrap(h, s, n), n) == s
    ensures Advance(Wrap(h, s, n), n) == Wrap(h, s + 1, n)
    ensures forall g :: 0 <= g < n ==> Dist(h, g, n) < s || s <= Dist(h, g, n)
    ensures forall g :: 0 <= g < n && Dist(h, g, n) == s ==> g == Wrap(h, s, n)
  {
  }

  lemma {:induction false} WrapEnds(h: int, n: nat)
    requires 0 <= h < n
    ensures Wrap(h, 0, n) == h == Wrap(h, n, n) && Passed(Below(n), h, n, n) == Below(n)
  {
  }

  lemma {:induction false} DistFrom(h: int, s: int, f: int, n: int)
    requires 0 <= h < n && 0 <= s < n && 0 <= f < n
    ensures Dist(Wrap(h, s, n), f, n) == if Dist(h, f, n) >= s then Dist(h, f, n) - s else Dist(h, f, n) - s + n
  {
  }

  /** Candidates fewer than s steps ahead of h. */
  ghost function Passed(cand: set<int>, h: int, n: int, s: int): set<int> {
    set f | f in cand && Dist(h, f, n) < s
  }

  /** The first candidate from hand p, with s steps already made from h and some
      candidate not yet passed, is the first one not passed. */
  lemma {:induction false} NextCandidate(cand: set<int>, h: int, n: int, s: int, f: int)
    requires 0 <= h < n && 0 <= s <= n && f in cand && forall g :: g in cand ==> 0 <= g < n
    requires Passed(cand, h, n, s) != cand
    requires forall g :: g in cand ==> Dist(Wrap(h, s, n), f, n) <= Dist(Wrap(h, s, n), g, n)
    ensures s <= Dist(h, f, n) < n
    ensures Passed(cand, h, n, Dist(h, f, n) + 1) == Passed(cand, h, n, s) + {f} && f !in Passed(cand, h, n, s)
    ensures forall g :: g in cand ==> Dist(h, g, n) < s || Dist(h, f, n) <= Dist(h, g, n)
    ensures Advance(f, n) == Wrap(h, Dist(h, f, n) + 1, n)
  {
    var g :| g in cand && g !in Passed(cand, h, n, s);
    forall x | x in cand && s < n
      ensures Dist(Wrap(h, s, n), x, n) == if Dist(h, x, n) >= s then Dist(h, x, n) - s else Dist(h, x, n) - s + n
    {
      DistFrom(h, s, x, n);
    }
  }

  /** Once all were passed, the hand sees them in the order it began with. */
  lemma {:induction false} FullTurn(cand: set<int>, h: int, n: int, s: int)
    requires 0 <= h < n && 0 <= s <= n && forall g :: g in cand ==> 0 <= g < n
    requires Passed(cand, h, n, s) == cand
    ensures SameOrder(cand, h, Wrap(h, s, n), n)
  {
    if s < n {
      forall x | x in cand ensures Dist(Wrap(h, s, n), x, n) == Dist(h, x, n) - s + n {
        DistFrom(h, s, x, n);
        assert x in Passed(cand, h, n, s);
      }
    }
  }

  /** A subset as large as the whole is the whole. */
  lemma {:induction false} AllPassed(a: set<int>, b: set<int>)
    requires a <= b
    ensures |a| <= |b| && (|a| == |b| ==> a == b)
  {
    assert b == a + (b - a);
    assert |b| == |a| + |b - a|;
  }

  lemma {:induction false} PassedStart(cand: set<int>, h: int, n: int)
    requires 0 <= h < n && forall g :: g in cand ==> 0 <= g < n
    ensures Passed(cand, h, n, 0) == {} && Wrap(h, 0, n) == h
  {
  }

  lemma {:induction false} EveryPassed(cand: set<int>, h: int, n: int, s: int)
    requires |Passed(cand, h, n, s)| == |cand|
    ensures Passed(cand, h, n, s) == cand
    ensures forall f :: f in cand ==> Dist(h, f, n) < s
  {
    AllPassed(Passed(cand, h, n, s), cand);
    assert forall f :: f in cand ==> f in Passed(cand, h, n, s);
  }

  /** The candidates come in the same order from either hand. */
  ghost predicate SameOrder(cand: set<int>, h: int, h': int, n: int) {
    forall f, g :: f in cand && g in cand ==>
      (Dist(h, f, n) < Dist(h, g, n) <==> Dist(h', f, n) < Dist(h', g, n))
  }

  /** First sweep pair: (0,0) was not found, then (0,1) was. */
  lemma {:induction false} SecondSweepHit(frames: seq<Frame>, tables: Tables, cand: set<int>, h: int, h': int, v: int)
    requires Occupied(frames, tables, cand) && 0 <= h < |frames| && 0 <= h' < |frames|
    requires NoneOf(frames, tables, cand, 0) && SameOrder(cand, h, h', |frames|)
    requires FirstOf(frames, tables, cand, h', 1, v)
    ensures ClockVictim(frames, tables, cand, h, v)
    ensures Cooled(tables, cand, h', |frames|, Dist(h', v, |frames|)) == AfterClock(frames, tables, cand, h, v)
  {
    TablesEqual(Cooled(tables, cand, h', |frames|, Dist(h', v, |frames|)), AfterClock(frames, tables, cand, h, v));
  }

  lemma {:induction false} FirstSweepHit(frames: seq<Frame>, tables: Tables, cand: set<int>, h: int, v: int)
    requires Occupied(frames, tables, cand) && FirstOf(frames, tables, cand, h, 0, v)
    ensures ClockVictim(frames, tables, cand, h, v) && AfterClock(frames, tables, cand, h, v) == tables
  {
  }

  /** After two fruitless sweeps every candidate is unused, two classes lower. */
  lemma {:induction false} AfterTwoSweeps(frames: seq<Frame>, tables: Tables, cand: set<int>, h: int, h': int)
    requires Occupied(frames, tables, cand) && 0 <= h < |frames| && 0 <= h' < |frames|
    requires NoneOf(frames, tables, cand, 0) && NoneOf(frames, tables, cand, 1)
    ensures var t := Cooled(tables, cand, h', |frames|, |frames|);
      && t == Cooled(tables, cand, h, |frames|, |frames|) && Occupied(frames, t, cand)
      && forall f :: f in cand ==> ClassOf(frames, t, cand, f) == ClassOf(frames, tables, cand, f) - 2
  {
    var t := Cooled(tables, cand, h', |frames|, |frames|);
    CooledFacts(frames, tables, cand, h', |frames|);
    TablesEqual(t, Cooled(tables, cand, h, |frames|, |frames|));
  }

  /** Third sweep: the first unused clean page is the victim; nothing else changes. */
  lemma {:induction false} ThirdSweepHit(frames: seq<Frame>, tables: Tables, cand: set<int>, h: int, h'': int,
                                         t: Tables, v: int)
    requires Occupied(frames, tables, cand) && 0 <= h < |frames|
    requires Occupied(frames, t, cand) && t == Cooled(tables, cand, h, |frames|, |frames|)
    requires forall f :: f in cand ==> ClassOf(frames, t, cand, f) == ClassOf(frames, tables, cand, f) - 2
    requires SameOrder(cand, h, h'', |frames|) && FirstOf(frames, t, cand, h'', 0, v)
    ensures ClockVictim(frames, tables, cand, h, v) && AfterClock(frames, tables, cand, h, v) == t
  {
    assert ClassOf(frames, tables, cand, v) == 2;
    assert forall w :: w in cand && ClassOf(frames, tables, cand, w) == 2 ==> ClassOf(frames, t, cand, w) == 0;
    assert forall w :: w in cand ==> ClassOf(frames, t, cand, w) >= 0;
  }

  /** Fourth sweep: all candidates are unused and modified. */
  lemma {:induction false} FourthSweepHit(frames: seq<Frame>, tables: Tables, cand: set<int>, h: int, h'': int,
                                          t: Tables, v: int)
    requires Occupied(frames, tables, cand) && 0 <= h < |frames| && 0 <= h'' < |frames|
    requires Occupied(frames, t, cand) && t == Cooled(tables, cand, h, |frames|, |frames|)
    requires forall f :: f in cand ==> ClassOf(frames, t, cand, f) == ClassOf(frames, tables, cand, f) - 2
    requires NoneOf(frames, t, cand, 0)
    requires SameOrder(cand, h, h'', |frames|) && FirstOf(frames, t, cand, h'', 1, v)
    ensures ClockVictim(frames, tables, cand, h, v) && AfterClock(frames, tables, cand, h, v) == t
    ensures Cooled(t, cand, h'', |frames|, Dist(h'', v, |frames|)) == t
  {
    assert ClassOf(frames, tables, cand, v) == 3;
    forall w | w in cand ensures ClassOf(frames, tables, cand, w) == 3 && ClassOf(frames, t, cand, w) == 1 {
      assert ClassOf(frames, tables, cand, w) <= 3 && ClassOf(frames, t, cand, w) != 0;
    }
    assert ClockVictim(frames, tables, cand, h, v);
    TablesEqual(Cooled(t, cand, h'', |frames|, Dist(h'', v, |frames|)), t);
  }

  // ------------------------------------------------ the clock in plain terms

  /** The hand goes round upwards: places ahead of it are counted modulo the number of frames. */
  lemma {:induction false} HandGoesRound(h: int, f: int, s: int, n: int)
    requires 0 <= h < n && 0 <= f < n && 0 <= s <= n
    ensures Dist(h, f, n) == (f - h) % n && Advance(f, n) == (f + 1) % n && Wrap(h, s, n) == (h + s) % n
  {
    PieceOf(0, Dist(h, f, n), n);
    PieceOf(-1, Dist(h, f, n), n);
    PieceOf(0, Advance(f, n), n);
    PieceOf(1, Advance(f, n), n);
    PieceOf(0, Wrap(h, s, n), n);
    if h + s >= n { PieceOf(1, h + s - n, n); }
  }

  /** The clock's victim: unused if any candidate is; unmodified if one of those it is chosen from
      is; and the first of its kind, upwards and round from the hand. */
  lemma {:induction false} ClockMeans(frames: seq<Frame>, tables: Tables, cand: set<int>, h: int, v: int, w: int)
    requires Occupied(frames, tables, cand) && 0 <= h < |frames| && w in cand
    requires ClockVictim(frames, tables, cand, h, v)
    ensures v in cand
    ensures var n := |frames|;
            var p, q := tables[frames[v].pid][frames[v].page], tables[frames[w].pid][frames[w].page];
      && p.In? && p.frame == v && q.In? && q.frame == w
      && (q.use == 0 ==> p.use == 0)
      && ((p.use == 0 <==> q.use == 0) && !q.dirty ==> !p.dirty)
      && ((p.use == 0 <==> q.use == 0) && p.dirty == q.dirty ==> (v - h) % n <= (w - h) % n)
  {
    HandGoesRound(h, v, 0, |frames|);
    HandGoesRound(h, w, 0, |frames|);
  }

  /** What choosing v does to use bits: nothing if v was unused and unmodified; if it was
      unused but modified, those of the candidates from the hand up to v are cleared; if it was
      used, those of all candidates. */
  lemma {:induction false} AfterClockMeans(frames: seq<Frame>, tables: Tables, cand: set<int>, h: int, v: int)
    requires Occupied(frames, tables, cand) && 0 <= h < |frames| && v in cand
    ensures var t, p := AfterClock(frames, tables, cand, h, v), tables[frames[v].pid][frames[v].page];
      && t.Keys == tables.Keys && (forall pid :: pid in t ==> |t[pid]| == |tables[pid]|)
      && forall pid, i :: HasPage(tables, pid, i) ==>
           var q := tables[pid][i];
           t[pid][i] ==
             if q.In? && q.frame in cand &&
                (p.use != 0 || (p.dirty && (q.frame - h) % |frames| < (v - h) % |frames|))
             then In(q.frame, q.dirty, 0) else q
  {
    var n := |frames|;
    HandGoesRound(h, v, 0, n);
    forall f | f in cand ensures Dist(h, f, n) == (f - h) % n && Dist(h, f, n) < n { HandGoesRound(h, f, 0, n); }
  }

  // ------------------------------------ the sweeps put together, turn by turn

  /** Where the clock stands before turn 0 or turn 1: nothing has changed, or
      every candidate was seen used and has been cleared. */
  ghost predicate Turned(frames: seq<Frame>, tables: Tables, cand: set<int>, h: int, h': int, t: Tables, turn: int) {
    && Occupied(frames, tables, cand) && Occupied(frames, t, cand)
    && 0 <= h < |frames| && 0 <= h' < |frames| && SameOrder(cand, h, h', |frames|)
    && if turn == 0 then t == tables
       else turn == 1 && t == Cooled(tables, cand, h, |frames|, |frames|) &&
            forall f :: f in cand ==> ClassOf(frames, t, cand, f) == ClassOf(frames, tables, cand, f) - 2
  }

  lemma {:induction false} TurnedStart(frames: seq<Frame>, tables: Tables, cand: set<int>, h: int)
    requires Occupied(frames, tables, cand) && 0 <= h < |frames|
    ensures Turned(frames, tables, cand, h, h, tables, 0) && SameOrder(cand, h, h, |frames|)
  {
  }

  lemma {:induction false} TurnedFacts(frames: seq<Frame>, tables: Tables, cand: set<int>, h: int, h': int, t: Tables,
                                       turn: int)
    requires Turned(frames, tables, cand, h, h', t, turn) && Linked(frames, tables)
    ensures Occupied(frames, t, cand) && Linked(frames, t)
  {
    CooledFacts(frames, tables, cand, h, |frames|);
    assert forall pid, i :: Resident(t, pid, i) <==> Resident(tables, pid, i);
  }

  lemma {:induction false} TurnHits00(frames: seq<Frame>, tables: Tables, cand: set<int>, h: int, h': int, t: Tables,
                                      turn: int, v: int)
    requires Turned(frames, tables, cand, h, h', t, turn) && FirstOf(frames, t, cand, h', 0, v)
    ensures v in cand && ClockVictim(frames, tables, cand, h, v) && t == AfterClock(frames, tables, cand, h, v)
  {
    if turn == 0 {
      OrderKeepsFirst(frames, t, cand, h, h', 0, v);
      FirstSweepHit(frames, tables, cand, h, v);
    } else {
      ThirdSweepHit(frames, tables, cand, h, h', t, v);
    }
  }

  lemma {:induction false} OrderKeepsFirst(frames: seq<Frame>, t: Tables, cand: set<int>, h: int, h': int, k: int,
                                           v: int)
    requires Occupied(frames, t, cand) && SameOrder(cand, h, h', |frames|)
    requires FirstOf(frames, t, cand, h', k, v)
    ensures FirstOf(frames, t, cand, h, k, v)
  {
  }

  lemma {:induction false} TurnHits01(frames: seq<Frame>, tables: Tables, cand: set<int>, h: int, h': int, h'': int,
                                      t: Tables, turn: int, v: int)
    requires Turned(frames, tables, cand, h, h', t, turn) && 0 <= h'' < |frames|
    requires NoneOf(frames, t, cand, 0) && SameOrder(cand, h', h'', |frames|) && FirstOf(frames, t, cand, h'', 1, v)
    ensures v in cand && ClockVictim(frames, tables, cand, h, v)
    ensures Cooled(t, cand, h'', |frames|, Dist(h'', v, |frames|)) == AfterClock(frames, tables, cand, h, v)
  {
    if turn == 0 {
      SecondSweepHit(frames, tables, cand, h, h'', v);
    } else {
      FourthSweepHit(frames, tables, cand, h, h'', t, v);
    }
  }

  lemma {:induction false} TurnMisses(frames: seq<Frame>, tables: Tables, cand: set<int>, h: int, h': int, h'': int,
                                      t: Tables, turn: int, f: int)
    requires Turned(frames, tables, cand, h, h', t, turn) && 0 <= h'' < |frames| && f in cand
    requires NoneOf(frames, t, cand, 0) && NoneOf(frames, t, cand, 1) && SameOrder(cand, h', h'', |frames|)
    ensures turn == 0 && Turned(frames, tables, cand, h, h'', Cooled(t, cand, h'', |frames|, |frames|), 1)
  {
    assert turn == 0 by {
      assert ClassOf(frames, tables, cand, f) <= 3 && ClassOf(frames, t, cand, f) >= 0;
    }
    AfterTwoSweeps(frames, tables, cand, h, h'');
  }

  lemma {:induction false} TurnGoesOn(frames: seq<Frame>, tables: Tables, cand: set<int>, h: int, h': int, h'': int,
                                      t: Tables, turn: int)
    requires Turned(frames, tables, cand, h, h', t, turn) && 0 <= h'' < |frames| && SameOrder(cand, h', h'', |frames|)
    ensures Turned(frames, tables, cand, h, h'', t, turn)
  {
  }

  // ------------------------------------------------- oldest access, oldest entry

  /** The position of the last occurrence of x, or -1. */
  ghost function Last<K>(hist: seq<K>, x: K): (p: int)
    ensures -1 <= p < |hist| && (p >= 0 ==> hist[p] == x)
    ensures forall q :: p < q < |hist| ==> hist[q] != x
  {
    if hist == [] then -1
    else if hist[|hist| - 1] == x then |hist| - 1
    else Last(hist[..|hist| - 1], x)
  }

  lemma {:induction false} LastAppend<K>(hist: seq<K>, x: K, y: K)
    ensures Last(hist + [x], y) == if x == y then |hist| else Last(hist, y)
  {
    assert (hist + [x])[..|hist|] == hist;
  }

  /** Use values order the present pages by their last access. */
  ghost predicate Recency(t: Tables, hist: seq<(int, int)>, now: int) {
    && (forall p, i :: Resident(t, p, i) ==> 0 <= Last(hist, (p, i)) && t[p][i].use < now)
    && (forall p, i, q, j :: Resident(t, p, i) && Resident(t, q, j) && (p, i) != (q, j) ==>
          (t[p][i].use < t[q][j].use <==> Last(hist, (p, i)) < Last(hist, (q, j))))
  }

  /** Accessing a page, possibly while others left memory. */
  lemma {:induction false} RecencyAccess(t: Tables, t': Tables, hist: seq<(int, int)>, now: int, now': int, pid: int,
                                         i: int)
    requires Recency(t, hist, now)
    requires Resident(t', pid, i) && now <= t'[pid][i].use < now'
    requires forall q, j :: Resident(t', q, j) && (q, j) != (pid, i) ==>
               Resident(t, q, j) && t'[q][j].use == t[q][j].use
    ensures Recency(t', hist + [(pid, i)], now')
  {
    forall q, j ensures Last(hist + [(pid, i)], (q, j)) == if (q, j) == (pid, i) then |hist| else Last(hist, (q, j)) {
      LastAppend(hist, (pid, i), (q, j));
    }
  }

  /** Pages leaving memory, and nothing else. */
  lemma {:induction false} RecencyShrinks(t: Tables, t': Tables, hist: seq<(int, int)>, now: int, now': int)
    requires Recency(t, hist, now) && now <= now'
    requires forall q, j :: Resident(t', q, j) ==> Resident(t, q, j) && t'[q][j].use == t[q][j].use
    ensures Recency(t', hist, now')
  {
  }

  /** (pid, i) has the least use value among the present pages of the scope. */
  ghost predicate LeastUse(t: Tables, own: bool, who: int, pid: int, i: int) {
    && Resident(t, pid, i) && (own ==> pid == who)
    && forall q, j :: Resident(t, q, j) && (own ==> q == who) ==> t[pid][i].use <= t[q][j].use
  }

  /** LRU is exact: the page of least use value is the one accessed longest ago. */
  lemma {:induction false} LeastUseIsOldest(t: Tables, hist: seq<(int, int)>, now: int, own: bool, who: int, pid: int,
                                            i: int)
    requires Recency(t, hist, now) && LeastUse(t, own, who, pid, i)
    ensures forall q, j :: Resident(t, q, j) && (own ==> q == who) && (q, j) != (pid, i) ==>
              Last(hist, (pid, i)) < Last(hist, (q, j))
  {
    forall q, j | Resident(t, q, j) && (own ==> q == who) && (q, j) != (pid, i)
      ensures Last(hist, (pid, i)) < Last(hist, (q, j))
    {
      assert Last(hist, (pid, i)) != Last(hist, (q, j));
    }
  }
}
