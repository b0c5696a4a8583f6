/** The heap's metadata: nine-byte headers in the process's own memory, chained
    both ways. A heap is the chain that its bytes spell; the lemmas say what
    replacing a few neighbouring segments does to the chain and to the blocks
    in use. */
module HeapChain {
  import opened Base

  const SIZE: int := 9
  const LAST: int := -1
  const FIRST: int := -2

  // ---------------------------------------------------------------- bytes

  datatype Header = Header(prev: int, next: int, free: bool)

  predicate Small(v: int) {
    -0x8000_0000 <= v < 0x8000_0000
  }

  /** A 32-bit field, least significant byte first; negatives in two's complement. */
  function Enc(v: int): (s: seq<Byte>)
    requires Small(v)
    ensures |s| == 4
  {
    var u := if v < 0 then v + 0x1_0000_0000 else v;
    [(u % 256) as Byte, (u / 256 % 256) as Byte, (u / 0x1_0000 % 256) as Byte, (u / 0x100_0000) as Byte]
  }

  function Dec(s: seq<Byte>): int
    requires |s| == 4
  {
    var u := s[0] as int + 256 * (s[1] as int) + 0x1_0000 * (s[2] as int) + 0x100_0000 * (s[3] as int);
    if u >= 0x8000_0000 then u - 0x1_0000_0000 else u
  }

  lemma {:induction false} DecEnc(v: int)
    requires Small(v)
    ensures Dec(Enc(v)) == v
  {
    var u := if v < 0 then v + 0x1_0000_0000 else v;
    var a, b := u / 256, u / 0x1_0000;
    assert u == 256 * a + u % 256;
    assert a / 256 == b && a == 256 * b + a % 256;
    assert b / 256 == u / 0x100_0000 && b == 256 * (u / 0x100_0000) + b % 256;
  }

  function HeaderBytes(h: Header): (s: seq<Byte>)
    requires Small(h.prev) && Small(h.next)
    ensures |s| == SIZE
  {
    Enc(h.prev) + Enc(h.next) + [if h.free then 1 else 0]
  }

  function HeaderAt(mem: seq<Byte>, a: int): Header
    requires 0 <= a && a + SIZE <= |mem|
  {
    Header(Dec(mem[a..a + 4]), Dec(mem[a + 4..a + 8]), mem[a + 8] != 0)
  }

  function Written(mem: seq<Byte>, a: int, data: seq<Byte>): (m: seq<Byte>)
    requires 0 <= a && a + |data| <= |mem|
    ensures |m| == |mem|
  {
    mem[..a] + data + mem[a + |data|..]
  }

  lemma {:induction false} WriteThenRead(mem: seq<Byte>, a: int, h: Header)
    requires 0 <= a && a + SIZE <= |mem| && Small(h.prev) && Small(h.next)
    ensures HeaderAt(Written(mem, a, HeaderBytes(h)), a) == h
    ensures SameBut(mem, Written(mem, a, HeaderBytes(h)), {a})
  {
    var m := Written(mem, a, HeaderBytes(h));
    assert m[a..a + 4] == Enc(h.prev) && m[a + 4..a + 8] == Enc(h.next);
    DecEnc(h.prev);
    DecEnc(h.next);
  }

  /** Where both memories reach, they differ only inside headers at these addresses. */
  ghost predicate SameBut(m0: seq<Byte>, m1: seq<Byte>, at: set<int>) {
    forall x :: 0 <= x < |m0| && x < |m1| && Clear(at, x, 1) ==> m1[x] == m0[x]
  }

  /** Bytes x to x + n - 1 touch no header at these addresses. */
  ghost predicate Clear(at: set<int>, x: int, n: int) {
    forall a :: a in at ==> x + n <= a || a + SIZE <= x
  }

  lemma {:induction false} HeaderKept(m0: seq<Byte>, m1: seq<Byte>, at: set<int>, b: int)
    requires SameBut(m0, m1, at) && 0 <= b && b + SIZE <= |m0| && b + SIZE <= |m1| && Clear(at, b, SIZE)
    ensures HeaderAt(m1, b) == HeaderAt(m0, b)
  {
    forall x | b <= x < b + SIZE ensures m1[x] == m0[x] {
      assert Clear(at, x, 1);
    }
    assert m1[b..b + 4] == m0[b..b + 4] && m1[b + 4..b + 8] == m0[b + 4..b + 8];
  }

  lemma {:induction false} SameButJoin(m0: seq<Byte>, m1: seq<Byte>, m2: seq<Byte>, a: set<int>, b: set<int>)
    requires SameBut(m0, m1, a) && SameBut(m1, m2, b) && |m0| <= |m1|
    ensures SameBut(m0, m2, a + b)
  {
    forall x | 0 <= x < |m0| && x < |m2| && Clear(a + b, x, 1) ensures m2[x] == m0[x] {
      assert Clear(a, x, 1) by {
        forall y | y in a ensures x + 1 <= y || y + SIZE <= x { assert y in a + b; }
      }
      assert Clear(b, x, 1) by {
        forall y | y in b ensures x + 1 <= y || y + SIZE <= x { assert y in a + b; }
      }
    }
  }

  // ---------------------------------------------------------------- chains

  datatype Seg = Seg(start: int, free: bool)

  function EndOf(segs: seq<Seg>, total: int, i: int): int
    requires 0 <= i < |segs|
  {
    if i + 1 < |segs| then segs[i + 1].start else total
  }

  /** Bytes of a segment that are not its header. */
  function Room(segs: seq<Seg>, total: int, i: int): int
    requires 0 <= i < |segs|
  {
    EndOf(segs, total, i) - segs[i].start - SIZE
  }

  function HeaderOf(segs: seq<Seg>, i: int): Header
    requires 0 <= i < |segs|
  {
    Header(if i == 0 then FIRST else segs[i - 1].start, if i + 1 < |segs| then segs[i + 1].start else LAST,
           segs[i].free)
  }

  /** The segments tile [0, total). */
  ghost predicate Tiling(segs: seq<Seg>, total: int) {
    && |segs| > 0 && segs[0].start == 0 && total < 0x8000_0000
    && forall i :: 0 <= i < |segs| ==> Room(segs, total, i) >= 0
  }

  /** Free neighbours are always merged. */
  ghost predicate NoFreePair(segs: seq<Seg>) {
    forall i :: 0 <= i && i + 1 < |segs| ==> !(segs[i].free && segs[i + 1].free)
  }

  lemma {:induction false} Ordered(segs: seq<Seg>, total: int, i: int, j: int)
    requires Tiling(segs, total) && 0 <= i <= j < |segs|
    ensures 0 <= segs[i].start && segs[i].start + SIZE <= EndOf(segs, total, j) <= total
    ensures i < j ==> segs[i].start + SIZE <= EndOf(segs, total, i) <= segs[j].start
    decreases |segs| - i
  {
    assert Room(segs, total, i) >= 0 && Room(segs, total, j) >= 0;
    if i < j {
      Ordered(segs, total, i + 1, j);
      if i > 0 { Below(segs, total, i); }
    } else {
      Below(segs, total, i);
      Above(segs, total, i);
    }
  }

  lemma {:induction false} Below(segs: seq<Seg>, total: int, i: int)
    requires Tiling(segs, total) && 0 <= i < |segs|
    ensures 0 <= segs[i].start
  {
    if i > 0 {
      Below(segs, total, i - 1);
      assert Room(segs, total, i - 1) >= 0;
    }
  }

  lemma {:induction false} Above(segs: seq<Seg>, total: int, i: int)
    requires Tiling(segs, total) && 0 <= i < |segs|
    ensures EndOf(segs, total, i) <= total
    decreases |segs| - i
  {
    if i + 1 < |segs| {
      assert Room(segs, total, i + 1) >= 0;
      Above(segs, total, i + 1);
    }
  }

  ghost predicate Here(mem: seq<Byte>, segs: seq<Seg>, i: int)
    requires 0 <= i < |segs|
  {
    0 <= segs[i].start && segs[i].start + SIZE <= |mem| && HeaderAt(mem, segs[i].start) == HeaderOf(segs, i)
  }

  /** The memory spells this chain of segments. */
  ghost predicate Chain(mem: seq<Byte>, segs: seq<Seg>) {
    Tiling(segs, |mem|) && forall i :: 0 <= i < |segs| ==> Here(mem, segs, i)
  }

  /** A memory spells one chain at most: its headers say all there is. */
  lemma {:induction false} ChainUnique(mem: seq<Byte>, a: seq<Seg>, b: seq<Seg>)
    requires Chain(mem, a) && Chain(mem, b)
    ensures a == b
  {
    var n := if |a| < |b| then |a| else |b|;
    SamePrefix(mem, a, b, n);
    if |a| < |b| {
      assert Here(mem, a, n - 1) && Here(mem, b, n - 1) && a[n - 1].start == b[n - 1].start;
      Ordered(b, |mem|, n, n);
    } else if |b| < |a| {
      assert Here(mem, a, n - 1) && Here(mem, b, n - 1) && a[n - 1].start == b[n - 1].start;
      Ordered(a, |mem|, n, n);
    }
  }

  lemma {:induction false} SamePrefix(mem: seq<Byte>, a: seq<Seg>, b: seq<Seg>, n: nat)
    requires Chain(mem, a) && Chain(mem, b) && n <= |a| && n <= |b|
    ensures forall i :: 0 <= i < n ==> a[i] == b[i]
  {
    if n > 0 {
      SamePrefix(mem, a, b, n - 1);
      if n > 1 { assert Here(mem, a, n - 2) && Here(mem, b, n - 2); }
      assert Here(mem, a, n - 1) && Here(mem, b, n - 1);
    }
  }

  // ------------------------------------------------------------ blocks in use

  /** A block: where its bytes start, and how many they are. */
  function BlockOf(segs: seq<Seg>, total: int, i: int): (int, int)
    requires 0 <= i < |segs|
  {
    (segs[i].start + SIZE, Room(segs, total, i))
  }

  ghost function Live(segs: seq<Seg>, total: int): set<(int, int)> {
    set i | 0 <= i < |segs| && !segs[i].free :: BlockOf(segs, total, i)
  }

  /** Blocks in use never share a byte, nor lie outside memory. */
  lemma {:induction false} LiveApart(segs: seq<Seg>, total: int, p: (int, int), q: (int, int))
    requires Tiling(segs, total) && p in Live(segs, total) && q in Live(segs, total) && p != q
    ensures p.0 + p.1 + SIZE <= q.0 || q.0 + q.1 + SIZE <= p.0
    ensures SIZE <= p.0 && 0 <= p.1 && p.0 + p.1 <= total
  {
    var i :| 0 <= i < |segs| && !segs[i].free && BlockOf(segs, total, i) == p;
    var j :| 0 <= j < |segs| && !segs[j].free && BlockOf(segs, total, j) == q;
    Ordered(segs, total, i, i);
    assert Room(segs, total, i) >= 0;
    if i < j { Ordered(segs, total, i, j); } else { Ordered(segs, total, j, i); }
  }

  /** Headers and blocks in use do not overlap either. */
  lemma {:induction false} LiveClear(segs: seq<Seg>, total: int, p: (int, int), k: int)
    requires Tiling(segs, total) && p in Live(segs, total) && 0 <= k < |segs|
    ensures p.0 + p.1 <= segs[k].start || segs[k].start + SIZE <= p.0
  {
    var i :| 0 <= i < |segs| && !segs[i].free && BlockOf(segs, total, i) == p;
    if i < k { Ordered(segs, total, i, k); } else { Ordered(segs, total, k, i); }
  }

  // --------------------------------------------- replacing segments i to j - 1

  function Replaced(segs: seq<Seg>, i: int, j: int, mid: seq<Seg>): seq<Seg>
    requires 0 <= i <= j <= |segs|
  {
    segs[..i] + mid + segs[j..]
  }

  /** What `mid` must satisfy to take the place of segments i to j - 1. */
  ghost predicate Slots(segs: seq<Seg>, total: int, total': int, i: int, j: int, mid: seq<Seg>) {
    && Tiling(segs, total) && total' < 0x8000_0000
    && 0 <= i < j <= |segs| && |mid| > 0 && mid[0].start == segs[i].start
    && (j < |segs| ==> total' == total)
    && var end := if j < |segs| then segs[j].start else total';
       forall k :: 0 <= k < |mid| ==> Room(mid, end, k) >= 0
  }

  /** Where the replaced stretch ends, before and after. */
  function Stop(segs: seq<Seg>, total: int, j: int): int
    requires 0 <= j <= |segs|
  {
    if j < |segs| then segs[j].start else total
  }

  lemma {:induction false} ReplacedAt(segs: seq<Seg>, i: int, j: int, mid: seq<Seg>)
    requires 0 <= i <= j <= |segs|
    ensures var s := Replaced(segs, i, j, mid); var d := i + |mid| - j;
      && |s| == |segs| + d
      && (forall k :: 0 <= k < i ==> s[k] == segs[k])
      && (forall k :: i <= k < i + |mid| ==> s[k] == mid[k - i])
      && (forall k :: i + |mid| <= k < |s| ==> s[k] == segs[k - d])
  {
  }

  lemma {:induction false} ReplacedEnds(segs: seq<Seg>, total: int, total': int, i: int, j: int, mid: seq<Seg>)
    requires Slots(segs, total, total', i, j, mid)
    ensures var s := Replaced(segs, i, j, mid); var d := i + |mid| - j;
      && |s| == |segs| + d
      && (forall k :: 0 <= k < i ==> s[k] == segs[k] && EndOf(s, total', k) == EndOf(segs, total, k))
      &&
         (forall k :: i <= k < i + |mid| ==>
          s[k] == mid[k - i] && EndOf(s, total', k) == EndOf(mid, Stop(segs, total', j), k - i))
      && (forall k :: i + |mid| <= k < |s| ==> s[k] == segs[k - d] && EndOf(s, total', k) == EndOf(segs, total, k - d))
  {
    ReplacedAt(segs, i, j, mid);
  }

  lemma {:induction false} ReplacedTiling(segs: seq<Seg>, total: int, total': int, i: int, j: int, mid: seq<Seg>)
    requires Slots(segs, total, total', i, j, mid)
    ensures Tiling(Replaced(segs, i, j, mid), total')
  {
    ReplacedEnds(segs, total, total', i, j, mid);
    var s, d := Replaced(segs, i, j, mid), i + |mid| - j;
    forall k | 0 <= k < |s| ensures Room(s, total', k) >= 0 {
      assert if k < i then Room(segs, total, k) >= 0
        else if k < i + |mid| then Room(mid, Stop(segs, total', j), k - i) >= 0
        else Room(segs, total, k - d) >= 0;
    }
  }

  /** Headers are written inside the replaced stretch, in the next segment, or,
      with what they said already, before the stretch. */
  ghost predicate Inside(m0: seq<Byte>, m1: seq<Byte>, segs: seq<Seg>, i: int, j: int, at: set<int>)
    requires 0 <= i < j <= |segs|
  {
    forall a :: a in at ==> Within(segs, i, j, a) || exists p :: Restored(m0, m1, segs, i, p, a)
  }

  ghost predicate Within(segs: seq<Seg>, i: int, j: int, a: int)
    requires 0 <= i < j <= |segs|
  {
    segs[i].start <= a && (j < |segs| ==> a + SIZE <= segs[j].start || a == segs[j].start)
  }

  ghost predicate Restored(m0: seq<Byte>, m1: seq<Byte>, segs: seq<Seg>, i: int, p: int, a: int)
    requires i <= |segs|
  {
    0 <= p < i && segs[p].start == a && 0 <= a && a + SIZE <= |m0| && a + SIZE <= |m1| &&
        HeaderAt(m1, a) == HeaderAt(m0, a)
  }

  /** The new chain is spelt once the new segments' headers are, and the next
      segment points back at the last of them. */
  lemma {:induction false} ReplacedChain(m0: seq<Byte>, m1: seq<Byte>, segs: seq<Seg>, i: int, j: int, mid: seq<Seg>,
                                         at: set<int>)
    requires Chain(m0, segs) && Slots(segs, |m0|, |m1|, i, j, mid)
    requires SameBut(m0, m1, at) && Inside(m0, m1, segs, i, j, at)
    requires forall k :: i <= k < i + |mid| ==>
               k < |Replaced(segs, i, j, mid)| && Here(m1, Replaced(segs, i, j, mid), k)
    requires j < |segs| ==> i + |mid| < |Replaced(segs, i, j, mid)| && Here(m1, Replaced(segs, i, j, mid), i + |mid|)
    ensures Chain(m1, Replaced(segs, i, j, mid))
  {
    ReplacedTiling(segs, |m0|, |m1|, i, j, mid);
    ReplacedAt(segs, i, j, mid);
    var s, d := Replaced(segs, i, j, mid), i + |mid| - j;
    forall k | 0 <= k < |s| ensures Here(m1, s, k) {
      if k < i {
        Ordered(s, |m1|, k, k);
        assert Here(m0, segs, k);
        if segs[k].start !in at {
          OtherHeader(m0, m1, segs, i, j, at, k);
        } else {
          SameHeader(m0, m1, segs, i, j, at, k);
        }
      } else if k > i + |mid| {
        Ordered(s, |m1|, k, k);
        assert Here(m0, segs, k - d);
        OtherHeader(m0, m1, segs, i, j, at, k - d);
      }
    }
  }

  lemma {:induction false} OtherHeader(m0: seq<Byte>, m1: seq<Byte>, segs: seq<Seg>, i: int, j: int, at: set<int>,
                                       k: int)
    requires Chain(m0, segs) && 0 <= i < j <= |segs| && 0 <= k < |segs| && (k < i || k > j)
    requires SameBut(m0, m1, at) && Inside(m0, m1, segs, i, j, at) && (k < i ==> segs[k].start !in at)
    requires 0 <= segs[k].start && segs[k].start + SIZE <= |m0| && segs[k].start + SIZE <= |m1|
    ensures HeaderAt(m1, segs[k].start) == HeaderAt(m0, segs[k].start)
  {
    forall a | a in at ensures segs[k].start + SIZE <= a || a + SIZE <= segs[k].start {
      if Within(segs, i, j, a) {
        if k < i { Ordered(segs, |m0|, k, i); } else { Ordered(segs, |m0|, j, k); }
      } else {
        var p :| Restored(m0, m1, segs, i, p, a);
        if p < k { Ordered(segs, |m0|, p, k); } else { Ordered(segs, |m0|, k, p); }
      }
    }
    HeaderKept(m0, m1, at, segs[k].start);
  }

  lemma {:induction false} SameHeader(m0: seq<Byte>, m1: seq<Byte>, segs: seq<Seg>, i: int, j: int, at: set<int>,
                                      k: int)
    requires Chain(m0, segs) && 0 <= i < j <= |segs| && 0 <= k < i && segs[k].start in at &&
             Inside(m0, m1, segs, i, j, at)
    requires 0 <= segs[k].start && segs[k].start + SIZE <= |m0| && segs[k].start + SIZE <= |m1|
    ensures HeaderAt(m1, segs[k].start) == HeaderAt(m0, segs[k].start)
  {
    Ordered(segs, |m0|, k, i);
    assert !Within(segs, i, j, segs[k].start);
    var p :| Restored(m0, m1, segs, i, p, segs[k].start);
    if p < k { Ordered(segs, |m0|, p, k); } else { Ordered(segs, |m0|, k, p); }
  }

  lemma {:induction false} ReplacedPairs(segs: seq<Seg>, i: int, j: int, mid: seq<Seg>)
    requires 0 <= i < j <= |segs| && |mid| > 0 && NoFreePair(segs) && NoFreePair(mid)
    requires i > 0 ==> !(segs[i - 1].free && mid[0].free)
    requires j < |segs| ==> !(mid[|mid| - 1].free && segs[j].free)
    ensures NoFreePair(Replaced(segs, i, j, mid))
  {
    ReplacedAt(segs, i, j, mid);
    var s, d := Replaced(segs, i, j, mid), i + |mid| - j;
    forall k | 0 <= k && k + 1 < |s| ensures !(s[k].free && s[k + 1].free) {
      assert k + 1 < i ==> !(segs[k].free && segs[k + 1].free);
      assert i <= k && k + 1 < i + |mid| ==> !(mid[k - i].free && mid[k - i + 1].free);
      assert i + |mid| <= k ==> !(segs[k - d].free && segs[k - d + 1].free);
    }
  }

  ghost predicate HasBlock(segs: seq<Seg>, total: int, p: (int, int), k: int) {
    0 <= k < |segs| && !segs[k].free && BlockOf(segs, total, k) == p
  }

  lemma {:induction false} LiveHas(segs: seq<Seg>, total: int, p: (int, int))
    ensures p in Live(segs, total) <==> exists k :: HasBlock(segs, total, p, k)
  {
    if k :| HasBlock(segs, total, p, k) {
      assert BlockOf(segs, total, k) in Live(segs, total);
    }
    if p in Live(segs, total) {
      var k :| 0 <= k < |segs| && !segs[k].free && BlockOf(segs, total, k) == p;
      assert HasBlock(segs, total, p, k);
    }
  }

  /** Blocks in use: those of the replaced stretch go, those of the new one come. */
  lemma {:induction false} ReplacedLive(segs: seq<Seg>, total: int, total': int, i: int, j: int, mid: seq<Seg>)
    requires Slots(segs, total, total', i, j, mid)
    ensures Live(Replaced(segs, i, j, mid), total') ==
            Live(segs, total) - Live(segs[i..j], Stop(segs, total, j)) + Live(mid, Stop(segs, total', j))
  {
    forall p ensures p in Live(Replaced(segs, i, j, mid), total') <==>
                     p in Live(segs, total) - Live(segs[i..j], Stop(segs, total, j)) +
                          Live(mid, Stop(segs, total', j)) {
      ReplacedLiveAt(segs, total, total', i, j, mid, p);
    }
  }

  lemma {:induction false} ReplacedLiveAt(segs: seq<Seg>, total: int, total': int, i: int, j: int, mid: seq<Seg>,
                                          p: (int, int))
    requires Slots(segs, total, total', i, j, mid)
    ensures p in Live(Replaced(segs, i, j, mid), total') <==>
            (p in Live(segs, total) && p !in Live(segs[i..j], Stop(segs, total, j))) ||
                p in Live(mid, Stop(segs, total', j))
  {
    hide Live, Slots, Tiling, Replaced;
    SlotsRange(segs, total, total', i, j, mid);
    var s, d, was := Replaced(segs, i, j, mid), i + |mid| - j, segs[i..j];
    BlocksMoved(segs, total, total', i, j, mid, p);
    BlocksOfPart(segs, total, i, j, p);
    LiveHas(s, total', p);
    LiveHas(segs, total, p);
    LiveHas(was, Stop(segs, total, j), p);
    LiveHas(mid, Stop(segs, total', j), p);
    if k :| HasBlock(s, total', p, k) {
      assert if k < i then HasBlock(segs, total, p, k)
        else if k < i + |mid| then HasBlock(mid, Stop(segs, total', j), p, k - i)
        else HasBlock(segs, total, p, k - d);
      if k < i { OldApart(segs, total, i, j, k); } else if k >= i + |mid| { OldApart(segs, total, i, j, k - d); }
    }
    if k :| HasBlock(mid, Stop(segs, total', j), p, k) {
      assert HasBlock(s, total', p, k + i);
    }
    if k :| HasBlock(segs, total, p, k) && p !in Live(was, Stop(segs, total, j)) {
      assert i <= k < j ==> HasBlock(was, Stop(segs, total, j), p, k - i);
      assert k < i ==> HasBlock(s, total', p, k);
      assert k >= j ==> HasBlock(s, total', p, k + d);
    }
  }

  lemma {:induction false} BlocksMoved(segs: seq<Seg>, total: int, total': int, i: int, j: int, mid: seq<Seg>,
                                       p: (int, int))
    requires Slots(segs, total, total', i, j, mid)
    ensures Tiling(segs, total) && 0 <= i < j <= |segs|
    ensures var s := Replaced(segs, i, j, mid); var d := i + |mid| - j;
      && |s| == |segs| + d
      && (forall k :: k < i ==> (HasBlock(s, total', p, k) <==> HasBlock(segs, total, p, k)))
      &&
         (forall k :: i <= k < i + |mid| ==>
          (HasBlock(s, total', p, k) <==> HasBlock(mid, Stop(segs, total', j), p, k - i)))
      && (forall k :: i + |mid| <= k ==> (HasBlock(s, total', p, k) <==> HasBlock(segs, total, p, k - d)))
  {
    SlotsRange(segs, total, total', i, j, mid);
    ReplacedEnds(segs, total, total', i, j, mid);
    hide Slots, Tiling, Replaced, EndOf, Stop;
  }

  lemma {:induction false} SlotsRange(segs: seq<Seg>, total: int, total': int, i: int, j: int, mid: seq<Seg>)
    requires Slots(segs, total, total', i, j, mid)
    ensures Tiling(segs, total) && 0 <= i < j <= |segs| && |mid| > 0
  {
  }

  lemma {:induction false} BlocksOfPart(segs: seq<Seg>, total: int, i: int, j: int, p: (int, int))
    requires 0 <= i < j <= |segs|
    ensures forall k :: i <= k < j ==>
              (HasBlock(segs, total, p, k) <==> HasBlock(segs[i..j], Stop(segs, total, j), p, k - i))
  {
  }

  lemma {:induction false} OldApart(segs: seq<Seg>, total: int, i: int, j: int, k: int)
    requires Tiling(segs, total) && 0 <= i < j <= |segs| && 0 <= k < |segs| && (k < i || k >= j)
    ensures BlockOf(segs, total, k) !in Live(segs[i..j], Stop(segs, total, j))
  {
    var was := segs[i..j];
    forall m | 0 <= m < |was| ensures BlockOf(was, Stop(segs, total, j), m) != BlockOf(segs, total, k) {
      assert was[m] == segs[i + m];
      if k < i { Ordered(segs, total, k, i + m); } else { Ordered(segs, total, i + m, k); }
    }
  }

  lemma {:induction false} LiveOne(x: Seg, end: int)
    ensures Live([x], end) == if x.free then {} else {(x.start + SIZE, end - x.start - SIZE)}
  {
    assert BlockOf([x], end, 0) == (x.start + SIZE, end - x.start - SIZE);
    assert !x.free ==> BlockOf([x], end, 0) in Live([x], end) by { assert [x][0] == x; }
  }

  lemma {:induction false} LiveMore(x: Seg, rest: seq<Seg>, end: int)
    requires |rest| > 0
    ensures Live([x] + rest, end) == Live([x], rest[0].start) + Live(rest, end)
  {
    hide Live;
    forall p ensures p in Live([x] + rest, end) <==> p in Live([x], rest[0].start) + Live(rest, end) {
      LiveHas([x] + rest, end, p);
      LiveHas([x], rest[0].start, p);
      LiveHas(rest, end, p);
      MoreBlocks(x, rest, end, p);
      if k :| HasBlock([x] + rest, end, p, k) {
        assert k == 0 ==> HasBlock([x], rest[0].start, p, 0);
        assert k > 0 ==> HasBlock(rest, end, p, k - 1);
      }
      if k :| HasBlock([x], rest[0].start, p, k) { assert HasBlock([x] + rest, end, p, 0); }
      if k :| HasBlock(rest, end, p, k) { assert HasBlock([x] + rest, end, p, k + 1); }
    }
  }

  lemma {:induction false} MoreBlocks(x: Seg, rest: seq<Seg>, end: int, p: (int, int))
    requires |rest| > 0
    ensures HasBlock([x] + rest, end, p, 0) <==> HasBlock([x], rest[0].start, p, 0)
    ensures forall k :: 0 < k ==> (HasBlock([x] + rest, end, p, k) <==> HasBlock(rest, end, p, k - 1))
  {
  }

  // ------------------------------------------- one edit, from headers to blocks

  /** The headers that spell `mid` in place of segments i to j - 1. */
  ghost predicate Spelt(m1: seq<Byte>, segs: seq<Seg>, i: int, j: int, mid: seq<Seg>)
    requires 0 <= i < j <= |segs| && |mid| > 0
  {
    && (forall k :: 0 <= k < |mid| ==>
          0 <= mid[k].start && mid[k].start + SIZE <= |m1| &&
              HeaderAt(m1, mid[k].start) == MidHeader(segs, i, j, mid, k))
    && (j < |segs| ==> 0 <= segs[j].start && segs[j].start + SIZE <= |m1| &&
                       HeaderAt(m1, segs[j].start) == HeaderOf(segs, j).(prev := mid[|mid| - 1].start))
  }

  ghost function MidHeader(segs: seq<Seg>, i: int, j: int, mid: seq<Seg>, k: int): Header
    requires 0 <= i < j <= |segs| && 0 <= k < |mid|
  {
    Header(if k > 0 then mid[k - 1].start else HeaderOf(segs, i).prev,
           if k + 1 < |mid| then mid[k + 1].start else HeaderOf(segs, j - 1).next,
           mid[k].free)
  }

  /** `mid` may stand between its new neighbours without two free ones meeting. */
  ghost predicate Meets(segs: seq<Seg>, i: int, j: int, mid: seq<Seg>)
    requires 0 <= i < j <= |segs| && |mid| > 0
  {
    && NoFreePair(mid)
    && (i > 0 ==> !(segs[i - 1].free && mid[0].free))
    && (j < |segs| ==> !(mid[|mid| - 1].free && segs[j].free))
  }

  lemma {:induction false} Edit(m0: seq<Byte>, m1: seq<Byte>, segs: seq<Seg>, i: int, j: int, mid: seq<Seg>,
                                at: set<int>)
    requires Chain(m0, segs) && NoFreePair(segs) && Slots(segs, |m0|, |m1|, i, j, mid)
    requires SameBut(m0, m1, at) && Inside(m0, m1, segs, i, j, at)
    requires Spelt(m1, segs, i, j, mid) && Meets(segs, i, j, mid)
    ensures var s := Replaced(segs, i, j, mid);
      && Chain(m1, s) && NoFreePair(s)
      && Live(s, |m1|) == Live(segs, |m0|) - Live(segs[i..j], Stop(segs, |m0|, j)) + Live(mid, Stop(segs, |m1|, j))
  {
    var s := Replaced(segs, i, j, mid);
    ReplacedAt(segs, i, j, mid);
    forall k | i <= k < i + |mid| ensures Here(m1, s, k) {
      assert s[k] == mid[k - i];
      SpeltHere(m1, segs, i, j, mid, k);
    }
    if j < |segs| { SpeltNext(m1, segs, i, j, mid); }
    ReplacedChain(m0, m1, segs, i, j, mid, at);
    ReplacedPairs(segs, i, j, mid);
    ReplacedLive(segs, |m0|, |m1|, i, j, mid);
  }

  lemma {:induction false} SpeltHere(m1: seq<Byte>, segs: seq<Seg>, i: int, j: int, mid: seq<Seg>, k: int)
    requires 0 <= i < j <= |segs| && |mid| > 0 && i <= k < i + |mid| && Spelt(m1, segs, i, j, mid)
    ensures k < |Replaced(segs, i, j, mid)| && Here(m1, Replaced(segs, i, j, mid), k)
  {
    ReplacedAt(segs, i, j, mid);
    var s := Replaced(segs, i, j, mid);
    assert HeaderAt(m1, mid[k - i].start) == MidHeader(segs, i, j, mid, k - i);
    assert k > i ==> s[k - 1] == mid[k - 1 - i];
    assert k == i && i > 0 ==> s[k - 1] == segs[i - 1];
    assert k + 1 < i + |mid| ==> s[k + 1] == mid[k + 1 - i];
    assert k + 1 == i + |mid| && j < |segs| ==> s[k + 1] == segs[j];
  }

  lemma {:induction false} SpeltNext(m1: seq<Byte>, segs: seq<Seg>, i: int, j: int, mid: seq<Seg>)
    requires 0 <= i < j < |segs| && |mid| > 0 && Spelt(m1, segs, i, j, mid)
    ensures i + |mid| < |Replaced(segs, i, j, mid)| && Here(m1, Replaced(segs, i, j, mid), i + |mid|)
  {
    ReplacedAt(segs, i, j, mid);
    var s, k := Replaced(segs, i, j, mid), i + |mid|;
    assert s[k] == segs[j] && s[k - 1] == mid[|mid| - 1];
    assert k + 1 < |s| ==> s[k + 1] == segs[j + 1];
  }

  /** Every one of these addresses is where a segment starts. */
  ghost predicate Starts(segs: seq<Seg>, at: set<int>) {
    forall a :: a in at ==> exists k :: 0 <= k < |segs| && segs[k].start == a
  }

  /** The starts of `mid` and of the next segment are starts of the new chain. */
  lemma {:induction false} EditStarts(segs: seq<Seg>, i: int, j: int, mid: seq<Seg>, at: set<int>)
    requires 0 <= i < j <= |segs|
    requires forall a :: a in at ==>
               (exists k :: 0 <= k < |mid| && mid[k].start == a) || (j < |segs| && segs[j].start == a) ||
               (exists k :: 0 <= k < i && segs[k].start == a)
    ensures Starts(Replaced(segs, i, j, mid), at)
  {
    ReplacedAt(segs, i, j, mid);
    var s := Replaced(segs, i, j, mid);
    forall a | a in at ensures exists k :: 0 <= k < |s| && s[k].start == a {
      if k :| 0 <= k < |mid| && mid[k].start == a {
        assert s[i + k] == mid[k];
      } else if k :| 0 <= k < i && segs[k].start == a {
        assert s[k] == segs[k];
      } else {
        assert s[i + |mid|] == segs[j];
      }
    }
  }

  // ------------------------------------------------------ what heap calls promise

  /** Segment i can hold tam bytes: exactly, or with a header's place to spare. */
  predicate FitsIn(segs: seq<Seg>, total: int, i: int, tam: int)
    requires 0 <= i < |segs|
  {
    segs[i].free && (Room(segs, total, i) == tam || Room(segs, total, i) >= tam + SIZE)
  }

  /** The first segment that fits, from i on, or none: |segs|. */
  function FirstFit(segs: seq<Seg>, total: int, tam: int, i: int): (k: int)
    requires 0 <= i <= |segs|
    ensures i <= k <= |segs| && (k < |segs| ==> FitsIn(segs, total, k, tam))
    ensures forall m :: i <= m < k ==> !FitsIn(segs, total, m, tam)
    decreases |segs| - i
  {
    if i == |segs| || FitsIn(segs, total, i, tam) then i else FirstFit(segs, total, tam, i + 1)
  }

  function CeilDiv(a: int, b: int): int
    requires b > 0
  {
    a / b + if a % b != 0 then 1 else 0
  }

  /** Pages to ask for when nothing fits: a block at the end, and a header after it
      unless the block ends with a page. */
  function PagesNeeded(segs: seq<Seg>, total: int, tam: int, page: nat): int
    requires |segs| > 0 && page > 0
  {
    var n := |segs| - 1;
    var missing := if segs[n].free then tam - Room(segs, total, n) else tam + SIZE;
    CeilDiv(if missing % page != 0 then missing + SIZE else missing, page)
  }

  /** The request can be met: something fits, or enough pages are on offer. */
  predicate CanServe(segs: seq<Seg>, total: int, tam: int, page: nat, offer: int)
    requires page > 0
  {
    if segs == [] then offer >= 1 && Served([Seg(0, true)], page, tam, page, offer - 1)
    else Served(segs, total, tam, page, offer)
  }

  predicate Served(segs: seq<Seg>, total: int, tam: int, page: nat, offer: int)
    requires |segs| > 0 && page > 0
  {
    FirstFit(segs, total, tam, 0) < |segs| || PagesNeeded(segs, total, tam, page) <= offer
  }

  /** The pages memory grows by: one, when the last segment is taken whole and one is
      on offer; those needed, when nothing fits. */
  function Growth(segs: seq<Seg>, total: int, tam: int, page: nat, offer: int): int
    requires |segs| > 0 && page > 0
  {
    var k := FirstFit(segs, total, tam, 0);
    if k == |segs| then PagesNeeded(segs, total, tam, page)
    else if k == |segs| - 1 && Room(segs, total, k) == tam && offer >= 1 then 1
    else 0
  }

  /** The size of memory after a request that is met. */
  function SizeAfter(segs: seq<Seg>, total: int, tam: int, page: nat, offer: int): int
    requires page > 0
  {
    if segs == [] then page + Growth([Seg(0, true)], page, tam, page, offer - 1) * page
    else total + Growth(segs, total, tam, page, offer) * page
  }

  /** A page boundary lies in the header at a. */
  ghost predicate OnBoundary(a: int, page: nat)
    requires page > 0
  {
    exists x :: a <= x < a + SIZE && x % page == 0
  }

  /** Where the code as written goes wrong: an exact fit before the last segment, a
      split of the last one whose new header meets a page boundary, growth by
      whole pages exactly, and any growth after a last segment in use. */
  ghost predicate Slips(segs: seq<Seg>, total: int, tam: int, page: nat, offer: int)
    requires page > 0
  {
    if segs == [] then offer >= 1 && SlipsIn([Seg(0, true)], page, tam, page, offer - 1)
    else SlipsIn(segs, total, tam, page, offer)
  }

  ghost predicate SlipsIn(segs: seq<Seg>, total: int, tam: int, page: nat, offer: int)
    requires |segs| > 0 && page > 0
  {
    var i, n := FirstFit(segs, total, tam, 0), |segs| - 1;
    if i <= n then
      if Room(segs, total, i) == tam then i < n
      else i == n && OnBoundary(segs[i].start + SIZE + tam, page)
    else Outgrown(segs, total, tam, page, offer)
  }

  /** Nothing fits, and memory grows by whole pages exactly, or after a last segment in use. */
  ghost predicate Outgrown(segs: seq<Seg>, total: int, tam: int, page: nat, offer: int)
    requires |segs| > 0 && page > 0
  {
    var n := |segs| - 1;
    && FirstFit(segs, total, tam, 0) == |segs|
    && PagesNeeded(segs, total, tam, page) <= offer
    && (segs[n].free ==> (tam - Room(segs, total, n)) % page == 0)
  }

  /** The segments a request finds, and their total size, once the heap is begun. */
  function Opened(segs: seq<Seg>): (s: seq<Seg>)
    ensures |s| > 0
  {
    if segs == [] then [Seg(0, true)] else segs
  }

  function OpenedSize(segs: seq<Seg>, total: int, page: nat): int {
    if segs == [] then page else total
  }

  /** The same, of a heap that may have to be begun. */
  ghost predicate Outgrows(segs: seq<Seg>, total: int, tam: int, page: nat, offer: int)
    requires page > 0
  {
    if segs == [] then offer >= 1 && Outgrown([Seg(0, true)], page, tam, page, offer - 1)
    else Outgrown(segs, total, tam, page, offer)
  }

  /** No segment before the last has its header where one at page 1 or at h would go. */
  ghost predicate TailsClear(segs: seq<Seg>, page: nat, h: int) {
    forall j :: 0 <= j < |segs| - 1 ==> Clear({page, h}, segs[j].start, SIZE)
  }

  /** What memory spells after such growth as written: nothing at all, if the last
      segment was free, or if no other header is overwritten by chance. */
  ghost predicate LeavesNoChain(segs: seq<Seg>, total: int, tam: int, page: nat, mem: seq<Byte>)
    requires |segs| > 0
  {
    segs[|segs| - 1].free || (TailsClear(segs, page, page + SIZE + tam) && (|segs| == 1 ==> total >= SIZE - FIRST)) ==>
      forall b :: !Chain(mem, b)
  }

  /** The bytes of these blocks are what they were. */
  ghost predicate Kept(m0: seq<Byte>, m1: seq<Byte>, blocks: set<(int, int)>) {
    forall q :: q in blocks ==> SameBytes(m0, m1, q)
  }

  ghost predicate SameBytes(m0: seq<Byte>, m1: seq<Byte>, q: (int, int)) {
    q.1 > 0 ==>
      && 0 <= q.0 && q.0 + q.1 <= |m0| && q.0 + q.1 <= |m1|
      && forall x :: q.0 <= x < q.0 + q.1 ==> m1[x] == m0[x]
  }

  lemma {:induction false} BlocksKept(m0: seq<Byte>, m1: seq<Byte>, segs0: seq<Seg>, segs1: seq<Seg>, at: set<int>,
                                      blocks: set<(int, int)>)
    requires SameBut(m0, m1, at) && Starts(segs1, at) && Tiling(segs0, |m0|) && Tiling(segs1, |m1|)
    requires blocks <= Live(segs0, |m0|) && blocks <= Live(segs1, |m1|)
    ensures Kept(m0, m1, blocks)
  {
    forall q | q in blocks ensures SameBytes(m0, m1, q) {
      LiveInside(segs0, |m0|, q);
      LiveInside(segs1, |m1|, q);
      forall x | q.0 <= x < q.0 + q.1 ensures m1[x] == m0[x] {
        forall a | a in at ensures x + 1 <= a || a + SIZE <= x {
          var k :| 0 <= k < |segs1| && segs1[k].start == a;
          LiveClear(segs1, |m1|, q, k);
        }
        assert Clear(at, x, 1);
      }
    }
  }

  lemma {:induction false} LiveInside(segs: seq<Seg>, total: int, p: (int, int))
    requires Tiling(segs, total) && p in Live(segs, total)
    ensures SIZE <= p.0 && 0 <= p.1 && p.0 + p.1 <= total
  {
    var i :| 0 <= i < |segs| && !segs[i].free && BlockOf(segs, total, i) == p;
    Ordered(segs, total, i, i);
    assert Room(segs, total, i) >= 0;
  }

  /** Giving back the end of a free last segment, its header staying whole. */
  lemma {:induction false} Shrink(mem: seq<Byte>, segs: seq<Seg>, total: int)
    requires Chain(mem, segs) && segs[|segs| - 1].free
    requires segs[|segs| - 1].start + SIZE <= total <= |mem| && 0 <= total
    ensures Chain(mem[..total], segs) && Live(segs, total) == Live(segs, |mem|)
    ensures Kept(mem, mem[..total], Live(segs, |mem|))
  {
    var m := mem[..total];
    forall i | 0 <= i < |segs| ensures Room(segs, total, i) >= 0 {
      assert Room(segs, |mem|, i) >= 0;
    }
    forall i | 0 <= i < |segs| ensures Here(m, segs, i) {
      assert Here(mem, segs, i);
      Ordered(segs, total, i, i);
      HeaderKept(mem, m, {}, segs[i].start);
    }
    assert forall i :: 0 <= i < |segs| && !segs[i].free ==> BlockOf(segs, total, i) == BlockOf(segs, |mem|, i);
    BlocksKept(mem, m, segs, segs, {}, Live(segs, |mem|));
  }

  lemma {:induction false} CeilEnough(a: int, b: int)
    requires b > 0
    ensures CeilDiv(a, b) * b >= a && (a % b == 0 ==> CeilDiv(a, b) * b == a) && (a >= 0 ==> CeilDiv(a, b) >= 0)
  {
    assert a == a / b * b + a % b;
    if a % b != 0 { assert (a / b + 1) * b == a / b * b + b; }
  }

  /** The first segment that fits, in plain terms. */
  lemma {:induction false} FitMeans(segs: seq<Seg>, total: int, tam: int)
    ensures var k := FirstFit(segs, total, tam, 0);
      && (k < |segs| ==> segs[k].free && (Room(segs, total, k) == tam || Room(segs, total, k) >= tam + SIZE))
      && (forall j :: 0 <= j < k && segs[j].free ==> Room(segs, total, j) != tam && Room(segs, total, j) < tam + SIZE)
  {
    var k := FirstFit(segs, total, tam, 0);
    forall j | 0 <= j < k && segs[j].free ensures Room(segs, total, j) != tam && Room(segs, total, j) < tam + SIZE {
      assert !FitsIn(segs, total, j, tam);
    }
  }

  /** The pages needed are the fewest with which the request fits at the end of memory:
      in the free last segment grown by them, or in a segment of its own. */
  lemma {:induction false} PagesLeast(segs: seq<Seg>, total: int, tam: int, page: nat)
    requires |segs| > 0 && page >= SIZE && tam > 0
    requires var n := |segs| - 1; !(segs[n].free && (Room(segs, total, n) == tam || Room(segs, total, n) >= tam + SIZE))
    ensures var room := if segs[|segs| - 1].free then Room(segs, total, |segs| - 1) else -SIZE;
      var n := PagesNeeded(segs, total, tam, page);
      && n > 0 && (room + n * page == tam || room + n * page >= tam + SIZE)
      && forall m :: 0 <= m < n ==> room + m * page != tam && room + m * page < tam + SIZE
  {
    var room := if segs[|segs| - 1].free then Room(segs, total, |segs| - 1) else -SIZE;
    var missing := tam - room;
    var asked := if missing % page != 0 then missing + SIZE else missing;
    var n := PagesNeeded(segs, total, tam, page);
    assert n == CeilDiv(asked, page);
    if missing <= 0 {
      SmallMod(missing, page);
    }
    CeilLeast(asked, page);
    forall m | 0 <= m < n ensures room + m * page != tam && room + m * page < tam + SIZE {
      MulGrows(m, n - 1, page);
      PieceOf(m, 0, page);
    }
  }

  /** The slips of the code as written, in plain terms: the first segment that fits does so
      exactly and is not the last, or is the last, is split, and a page boundary lies where the
      header after the block goes; or none fits, and after n more pages, which are on offer, the
      block just fills the free last segment, or fits in a segment of its own. */
  lemma {:induction false} SlipsMean(segs: seq<Seg>, total: int, tam: int, page: nat, offer: int)
    requires |segs| > 0 && page >= SIZE && tam > 0
    ensures SlipsIn(segs, total, tam, page, offer) <==>
              || (exists k ::
                    && 0 <= k < |segs| && segs[k].free
                    && (forall j :: 0 <= j < k && segs[j].free ==>
                          Room(segs, total, j) != tam && Room(segs, total, j) < tam + SIZE)
                    && (if k + 1 < |segs| then Room(segs, total, k) == tam
                        else
                          var h := segs[k].start + SIZE + tam;
                          Room(segs, total, k) >= tam + SIZE && exists x :: h <= x < h + SIZE && x % page == 0))
              || ((forall j :: 0 <= j < |segs| && segs[j].free ==>
                     Room(segs, total, j) != tam && Room(segs, total, j) < tam + SIZE) &&
                  var last := |segs| - 1;
                  exists n :: 0 < n <= offer && (if segs[last].free then Room(segs, total, last) + n * page == tam
                                                 else n * page == tam + SIZE || n * page >= tam + SIZE + SIZE))
  {
    hide FirstFit, PagesNeeded, OnBoundary;
    FitMeans(segs, total, tam);
    var k, n := FirstFit(segs, total, tam, 0), |segs| - 1;
    if k < |segs| {
      assert segs[k].free;
      BoundaryMeans(segs[k].start + SIZE + tam, page);
    } else {
      SlipsMeanGrown(segs, total, tam, page, offer);
    }
  }

  lemma {:induction false} BoundaryMeans(a: int, page: nat)
    requires page > 0
    ensures OnBoundary(a, page) <==> exists x :: a <= x < a + SIZE && x % page == 0
  {
  }

  lemma {:induction false} SlipsMeanGrown(segs: seq<Seg>, total: int, tam: int, page: nat, offer: int)
    requires |segs| > 0 && page >= SIZE && tam > 0
    requires var n := |segs| - 1; !(segs[n].free && (Room(segs, total, n) == tam || Room(segs, total, n) >= tam + SIZE))
    ensures var last := |segs| - 1;
      PagesNeeded(segs, total, tam, page) <= offer &&
      (segs[last].free ==> (tam - Room(segs, total, last)) % page == 0) <==>
      exists n :: 0 < n <= offer && (if segs[last].free then Room(segs, total, last) + n * page == tam
                                     else n * page == tam + SIZE || n * page >= tam + SIZE + SIZE)
  {
    var last := |segs| - 1;
    var needed := PagesNeeded(segs, total, tam, page);
    PagesLeast(segs, total, tam, page);
    if segs[last].free {
      var missing := tam - Room(segs, total, last);
      forall n | 0 < n && n * page == missing ensures missing % page == 0 && needed == n {
        PieceOf(n, 0, page);
        assert n <= needed ==> n == needed;
      }
      hide PagesNeeded;
      if missing % page == 0 {
        assert missing / page * page == missing;
      }
    }
  }

  lemma {:induction false} SmallMod(a: int, page: nat)
    requires page >= SIZE && -SIZE < a < 0
    ensures a % page != 0
  {
    if a % page == 0 {
      assert a == a / page * page;
      MulGrows(a / page, -1, page);
    }
  }

  lemma {:induction false} CeilLeast(a: int, b: int)
    requires b > 0 && a > 0
    ensures CeilDiv(a, b) > 0 && CeilDiv(a, b) * b >= a && (CeilDiv(a, b) - 1) * b < a
    ensures a % b == 0 ==> CeilDiv(a, b) * b == a
  {
    CeilEnough(a, b);
    var q := a / b;
    assert a == q * b + a % b && (q - 1) * b == q * b - b;
    if a % b != 0 {
      assert (CeilDiv(a, b) - 1) * b == q * b;
      if q < 0 { MulGrows(q, -1, b); }
    } else if q <= 0 {
      MulGrows(q, 0, b);
    }
  }

  /** The test as written for growth by whole pages, `tam - room % page == 0`, never
      holds when it is reached: the segment would have been split or taken whole. */
  lemma {:induction false} PrecedenceSlip(tam: int, room: int, page: int)
    requires page >= SIZE && room >= 0 && room != tam && room < tam + SIZE
    ensures tam - room % page != 0
  {
    if room >= page {
      assert room == room / page * page + room % page && room / page >= 1;
      MulGrows(1, room / page, page);
    }
  }

  /** A free segment's place is no block in use. */
  lemma {:induction false} FreeNotLive(segs: seq<Seg>, total: int, i: int, tam: int)
    requires Tiling(segs, total) && 0 <= i < |segs| && segs[i].free
    ensures (segs[i].start + SIZE, tam) !in Live(segs, total)
  {
    forall k | 0 <= k < |segs| && !segs[k].free ensures BlockOf(segs, total, k).0 != segs[i].start + SIZE {
      if k < i { Ordered(segs, total, k, i); } else { Ordered(segs, total, i, k); }
    }
  }

  /** Nor is the end of memory. */
  lemma {:induction false} EndNotLive(segs: seq<Seg>, total: int, tam: int)
    requires Tiling(segs, total) && tam >= 0
    ensures (total + SIZE, tam) !in Live(segs, total)
  {
    forall k | 0 <= k < |segs| ensures BlockOf(segs, total, k).0 != total + SIZE {
      Ordered(segs, total, k, k);
    }
  }
}
