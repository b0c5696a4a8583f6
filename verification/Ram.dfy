/** RAM is one array; a frame is a stretch of it. */
module Ram {
  import opened Base

  /** The frames of a RAM of n frames of size bytes. */
  ghost function Cut(bytes: seq<Byte>, n: nat, size: nat): (fs: seq<seq<Byte>>)
    requires |bytes| == n * size
    ensures |fs| == n && forall f :: 0 <= f < n ==> |fs[f]| == size
  {
    seq(n, f requires 0 <= f < n => FrameAt(bytes, n, size, f))
  }

  ghost function FrameAt(bytes: seq<Byte>, n: nat, size: nat, f: nat): (s: seq<Byte>)
    requires |bytes| == n * size && f < n
    ensures |s| == size
  {
    FrameFits(n, size, f);
    bytes[f * size..f * size + size]
  }

  lemma {:induction false} FrameFits(n: nat, size: nat, f: nat)
    requires f < n
    ensures 0 <= f * size && f * size + size <= n * size
  {
    MulGrows(0, f, size);
    MulGrows(f + 1, n, size);
  }

  lemma {:induction false} SliceOfSlice(s: seq<Byte>, lo: nat, hi: nat, a: nat, b: nat)
    requires lo <= hi <= |s| && a <= b <= hi - lo
    ensures s[lo..hi][a..b] == s[lo + a..lo + b]
  {
    var l, r := s[lo..hi][a..b], s[lo + a..lo + b];
    assert |l| == |r|;
    assert forall k :: 0 <= k < |l| ==> l[k] == r[k];
  }

  lemma {:induction false} SpliceInside(b0: seq<Byte>, b1: seq<Byte>, lo: nat, size: nat, off: nat, data: seq<Byte>)
    requires lo + size <= |b0| && off + |data| <= size
    requires b1 == b0[..lo + off] + data + b0[lo + off + |data|..]
    ensures |b1| == |b0|
    ensures b1[lo..lo + size] == b0[lo..lo + size][..off] + data + b0[lo..lo + size][off + |data|..]
  {
    var l, r := b1[lo..lo + size], b0[lo..lo + size][..off] + data + b0[lo..lo + size][off + |data|..];
    assert |l| == |r| == size;
    forall k | 0 <= k < size ensures l[k] == r[k] {
      assert l[k] == b1[lo + k];
    }
  }

  lemma {:induction false} SpliceOutside(b0: seq<Byte>, b1: seq<Byte>, at: nat, data: seq<Byte>, lo: nat, size: nat)
    requires at + |data| <= |b0| && lo + size <= |b0| && (lo + size <= at || at + |data| <= lo)
    requires b1 == b0[..at] + data + b0[at + |data|..]
    ensures |b1| == |b0| && b1[lo..lo + size] == b0[lo..lo + size]
  {
  }

  /** Bytes written inside frame f change frame f and no other. */
  lemma {:induction false} CutUpdate(b0: seq<Byte>, b1: seq<Byte>, n: nat, size: nat, f: nat, off: nat, data: seq<Byte>)
    requires |b0| == |b1| == n * size && f < n && off + |data| <= size
    requires 0 <= f * size + off && f * size + off + |data| <= |b0|
    requires b1 == b0[..f * size + off] + data + b0[f * size + off + |data|..]
    ensures Cut(b1, n, size) ==
            Cut(b0, n, size)[f := Cut(b0, n, size)[f][..off] + data + Cut(b0, n, size)[f][off + |data|..]]
  {
    var c0, c1 := Cut(b0, n, size), Cut(b1, n, size);
    FrameFits(n, size, f);
    var lo := f * size;
    SpliceInside(b0, b1, lo, size, off, data);
    forall g | 0 <= g < n && g != f ensures c1[g] == c0[g] {
      OtherFrame(b0, b1, n, size, f, lo, off, data, g);
    }
    assert c1[f] == b1[lo..lo + size] && c0[f] == b0[lo..lo + size];
  }

  lemma {:induction false} OtherFrame(b0: seq<Byte>, b1: seq<Byte>, n: nat, size: nat, f: nat, lo: nat, off: nat,
                                      data: seq<Byte>, g: nat)
    requires |b0| == |b1| == n * size && f < n && g < n && g != f && off + |data| <= size && lo == f * size
    requires lo + off + |data| <= |b0|
    requires b1 == b0[..lo + off] + data + b0[lo + off + |data|..]
    ensures FrameAt(b1, n, size, g) == FrameAt(b0, n, size, g)
  {
    FrameFits(n, size, g);
    if size > 0 {
      PiecesApart(g, f, size);
      var glo := g * size;
      assert (g + 1) * size == glo + size && (f + 1) * size == lo + size;
      SpliceOutside(b0, b1, lo + off, data, glo, size);
    }
  }
}
