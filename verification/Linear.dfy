/** Linear addresses: page and offset, and back; the map of written bytes at
    linear addresses; and which requests the bounds test lets through. */
module Linear {
  import opened Base
  import opened Vm

  /** decimal_a_dl */
  function PageOf(a: nat, size: nat): nat
    requires 0 < size
  {
    a / size
  }

  function OffsetOf(a: nat, size: nat): nat
    requires 0 < size
  {
    a % size
  }

  /** dl_a_decimal */
  function AddressOf(page: nat, off: nat, size: nat): int {
    page * size + off
  }

  /** The codec is a bijection between addresses and (page, offset) pairs. */
  lemma {:induction false} AddressRoundTrip(a: nat, size: nat)
    requires 0 < size
    ensures OffsetOf(a, size) < size && AddressOf(PageOf(a, size), OffsetOf(a, size), size) == a
  {
  }

  lemma {:induction false} PageRoundTrip(page: nat, off: nat, size: nat)
    requires off < size
    ensures 0 <= AddressOf(page, off, size)
    ensures PageOf(AddressOf(page, off, size), size) == page && OffsetOf(AddressOf(page, off, size), size) == off
  {
    MulGrows(0, page, size);
    PieceOf(page, off, size);
  }

  // ------------------------------------------------------- the bounds test

  /** read_verify_size. The code as written adds the offset where it should
      subtract it. */
  function Accepted(c: Config, pages: nat, page: nat, off: nat, n: int): bool {
    if c.repaired then pages * c.pageSize - page * c.pageSize - off >= n
    else pages * c.pageSize - (page * c.pageSize - off) >= n
  }

  /** n bytes from (page, off) on lie inside the process's pages. */
  predicate Fits(c: Config, pages: nat, page: nat, off: nat, n: int) {
    AddressOf(page, off, c.pageSize) + n <= pages * c.pageSize
  }

  /** The test is right for every length exactly when it is repaired or the offset is 0;
      and it never turns down a request that fits. */
  lemma {:induction false} BoundsTest(c: Config, pages: nat, page: nat, off: nat)
    ensures forall n :: Fits(c, pages, page, off, n) ==> Accepted(c, pages, page, off, n)
    ensures forall n :: page * c.pageSize + off + n <= pages * c.pageSize ==> Accepted(c, pages, page, off, n)
    ensures (forall n :: Accepted(c, pages, page, off, n) ==> Fits(c, pages, page, off, n)) <==> c.repaired || off == 0
  {
    if !c.repaired && off > 0 {
      var n := pages * c.pageSize - page * c.pageSize + off;
      assert Accepted(c, pages, page, off, n) && !Fits(c, pages, page, off, n);
    }
  }

  // -------------------------------------------------- written bytes in a row

  /** The key of linear address a. */
  function KeyOf(pid: int, a: nat, size: nat): (int, int, int)
    requires 0 < size
  {
    (pid, PageOf(a, size), OffsetOf(a, size))
  }

  function Span(pid: int, a: nat, n: nat, size: nat): set<(int, int, int)>
    requires 0 < size
  {
    set b: nat | a <= b < a + n :: KeyOf(pid, b, size)
  }

  ghost predicate InSpan(k: (int, int, int), pid: int, a: nat, n: nat, size: nat) {
    k.0 == pid && 0 <= k.1 && 0 <= k.2 < size && a <= AddressOf(k.1, k.2, size) < a + n
  }

  lemma {:induction false} SpanKeys(k: (int, int, int), pid: int, a: nat, n: nat, size: nat)
    requires 0 < size
    ensures k in Span(pid, a, n, size) <==> InSpan(k, pid, a, n, size)
  {
    if InSpan(k, pid, a, n, size) {
      PageRoundTrip(k.1, k.2, size);
      var b: nat := AddressOf(k.1, k.2, size);
      assert KeyOf(pid, b, size) == k;
    }
    if k in Span(pid, a, n, size) {
      var b: nat :| a <= b < a + n && KeyOf(pid, b, size) == k;
      AddressRoundTrip(b, size);
    }
  }

  /** The written bytes after data went to linear address a. */
  ghost function Wrote(log: Log, pid: int, a: nat, data: seq<Byte>, size: nat): (log': Log)
    requires 0 < size
    ensures forall k :: k in log' <==> k in log || InSpan(k, pid, a, |data|, size)
    ensures forall k :: InSpan(k, pid, a, |data|, size) ==> log'[k] == data[AddressOf(k.1, k.2, size) - a]
    ensures forall k :: k in log && !InSpan(k, pid, a, |data|, size) ==> log'[k] == log[k]
  {
    forall k ensures k in Span(pid, a, |data|, size) <==> InSpan(k, pid, a, |data|, size) {
      SpanKeys(k, pid, a, |data|, size);
    }
    map k | k in log.Keys + Span(pid, a, |data|, size) ::
      if InSpan(k, pid, a, |data|, size) then data[AddressOf(k.1, k.2, size) - a] else log[k]
  }

  /** Reading back right after writing: address a + j has data[j], others are as before. */
  lemma {:induction false} WroteAt(log: Log, pid: int, a: nat, data: seq<Byte>, size: nat, q: int, b: nat)
    requires 0 < size
    ensures var k := KeyOf(q, b, size); var log' := Wrote(log, pid, a, data, size);
      if q == pid && a <= b < a + |data| then k in log' && log'[k] == data[b - a]
      else (k in log' <==> k in log) && (k in log ==> log'[k] == log[k])
  {
    AddressRoundTrip(b, size);
    SpanKeys(KeyOf(q, b, size), pid, a, |data|, size);
  }

  /** Writing data in one page, after having written up to there. */
  lemma {:induction false} WroteMore(log: Log, pid: int, a: nat, done: seq<Byte>, page: nat, off: nat,
                                     piece: seq<Byte>, size: nat)
    requires 0 < size && AddressOf(page, off, size) == a + |done| && off + |piece| <= size
    ensures Wrote(log, pid, a, done + piece, size) == LogAt(Wrote(log, pid, a, done, size), pid, page, off, piece)
  {
    var l, r := Wrote(log, pid, a, done + piece, size), LogAt(Wrote(log, pid, a, done, size), pid, page, off, piece);
    forall k ensures (k in l <==> k in r) && (k in l ==> l[k] == r[k]) {
      if k.0 == pid && 0 <= k.1 && 0 <= k.2 < size {
        InPage(k.1, k.2, page, off, |piece|, size);
      }
    }
  }

  lemma {:induction false} InPage(i: nat, o: nat, page: nat, off: nat, n: nat, size: nat)
    requires o < size && off + n <= size
    ensures AddressOf(page, off, size) <= AddressOf(i, o, size) < AddressOf(page, off, size) + n <==>
            i == page && off <= o < off + n
  {
    if i != page { PiecesApart(i, page, size); }
  }

  lemma {:induction false} WroteNothing(log: Log, pid: int, a: nat, size: nat)
    requires 0 < size
    ensures Wrote(log, pid, a, [], size) == log
  {
    assert Span(pid, a, 0, size) == {};
  }

  /** data is what the written bytes say, wherever they say something. */
  ghost predicate Agrees(log: Log, pid: int, a: nat, data: seq<Byte>, size: nat)
    requires 0 < size
  {
    forall j :: 0 <= j < |data| && KeyOf(pid, a + j, size) in log ==> data[j] == log[KeyOf(pid, a + j, size)]
  }

  /** data, at (page, off), is what the written bytes of that page say. */
  ghost predicate PieceAgrees(log: Log, pid: int, page: int, off: int, data: seq<Byte>) {
    forall o :: off <= o < off + |data| && (pid, page, o) in log ==> data[o - off] == log[(pid, page, o)]
  }

  /** A page's piece agrees, so the data read so far and the piece together do. */
  lemma {:induction false} AgreesMore(log: Log, pid: int, a: nat, done: seq<Byte>, page: nat, off: nat,
                                      piece: seq<Byte>, size: nat)
    requires 0 < size && AddressOf(page, off, size) == a + |done| && off + |piece| <= size
    requires Agrees(log, pid, a, done, size)
    requires PieceAgrees(log, pid, page, off, piece)
    ensures Agrees(log, pid, a, done + piece, size)
  {
    forall j | 0 <= j < |done + piece| && KeyOf(pid, a + j, size) in log
      ensures (done + piece)[j] == log[KeyOf(pid, a + j, size)]
    {
      if j >= |done| {
        var o := off + (j - |done|);
        PageRoundTrip(page, o, size);
        assert a + j == AddressOf(page, o, size);
      }
    }
  }

  // ------------------------------------------- walking a request page by page

  /** One more than the last page a request of n bytes at a touches. */
  function PageEnd(a: nat, n: nat, size: nat): nat
    requires 0 < size
  {
    if n == 0 then PageOf(a, size) else PageOf(a + n - 1, size) + 1
  }

  /** done bytes of the request are behind, rest bytes to go, from (page, off) on. */
  ghost predicate Cursor(size: nat, pages: nat, a: nat, done: nat, rest: nat, page: nat, off: nat) {
    && 0 < size && off < size
    && (rest > 0 ==> && AddressOf(page, off, size) == a + done
                     && page < pages && page < PageEnd(a, done + rest, size)
                     && AddressOf(page, off, size) + rest <= pages * size)
  }

  lemma {:induction false} PageBelow(page: nat, off: nat, x: nat, size: nat)
    requires off < size && AddressOf(page, off, size) <= x
    ensures page <= PageOf(x, size)
  {
    var q := x / size;
    if q < page {
      MulGrows(q + 1, page, size);
      assert x == q * size + x % size;
    }
  }

  lemma {:induction false} CursorAt(size: nat, pages: nat, a: nat, done: nat, rest: nat, page: nat, off: nat)
    requires 0 < size && off < size
    requires rest > 0 ==> AddressOf(page, off, size) == a + done && a + done + rest <= pages * size
    ensures Cursor(size, pages, a, done, rest, page, off)
  {
    if rest > 0 {
      PageBelow(page, off, a + done + rest - 1, size);
      if page >= pages { MulGrows(pages, page, size); }
    }
  }

  lemma {:induction false} CursorNext(size: nat, pages: nat, a: nat, done: nat, rest: nat, page: nat, off: nat, n: nat)
    requires Cursor(size, pages, a, done, rest, page, off) && rest > 0
    requires n == if rest < size - off then rest else size - off
    ensures Cursor(size, pages, a, done + n, rest - n, page + 1, 0)
  {
    hide PageEnd;
    if rest > n { assert AddressOf(page + 1, 0, size) == AddressOf(page, off, size) + n; }
    CursorAt(size, pages, a, done + n, rest - n, page + 1, 0);
  }

  lemma {:induction false} CursorStart(c: Config, pages: nat, page: nat, off: nat, n: nat)
    requires off < c.pageSize && Fits(c, pages, page, off, n)
    ensures 0 <= AddressOf(page, off, c.pageSize)
    ensures Cursor(c.pageSize, pages, AddressOf(page, off, c.pageSize), 0, n, page, off)
  {
    PageRoundTrip(page, off, c.pageSize);
    CursorAt(c.pageSize, pages, AddressOf(page, off, c.pageSize), 0, n, page, off);
  }

  lemma {:induction false} CursorHere(size: nat, pages: nat, a: nat, done: nat, rest: nat, page: nat, off: nat)
    requires Cursor(size, pages, a, done, rest, page, off) && rest > 0
    ensures page < pages && off < size && AddressOf(page, off, size) == a + done && page < PageEnd(a, done + rest, size)
  {
  }

  lemma {:induction false} AgreesNothing(log: Log, pid: int, a: nat, size: nat)
    requires 0 < size
    ensures Agrees(log, pid, a, [], size)
  {
  }

  lemma {:induction false} PrefixGrows(data: seq<Byte>, done: nat, n: nat)
    requires done + n <= |data|
    ensures data[..done + n] == data[..done] + data[done..done + n]
  {
  }
}
