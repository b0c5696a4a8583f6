/** Shared vocabulary: bytes, optional values, and the arithmetic of cutting a
    linear address space into equal pieces. */
module Base {
  newtype Byte = x: int | 0 <= x < 256

  datatype Option<+T> = None | Some(value: T)

  /** What the swap store's handler takes for "no such page": the text "|". */
  predicate LooksMissing(data: seq<Byte>) {
    |data| >= 2 && data[0] == 124 && data[1] == 0
  }

  /** Address i * size + r falls in piece i, at offset r. */
  lemma {:induction false} PieceOf(i: int, r: int, size: int)
    requires 0 <= r < size
    ensures (i * size + r) / size == i
    ensures (i * size + r) % size == r
  {
    var q := (i * size + r) / size;
    var m := (i * size + r) % size;
    assert i * size + r == q * size + m;
    if q < i {
      assert (i - q) * size >= size by { MulGrows(1, i - q, size); }
    } else if q > i {
      assert (q - i) * size >= size by { MulGrows(1, q - i, size); }
    }
  }

  lemma {:induction false} MulGrows(a: int, b: int, size: int)
    requires a <= b && 0 <= size
    ensures a * size <= b * size
  {
    assert (b - a) * size >= 0;
    assert b * size == a * size + (b - a) * size;
  }

  /** Two different pieces do not overlap. */
  lemma {:induction false} PiecesApart(i: int, j: int, size: int)
    requires i != j && 0 < size
    ensures i < j ==> (i + 1) * size <= j * size
    ensures j < i ==> (j + 1) * size <= i * size
  {
    if i < j {
      MulGrows(i + 1, j, size);
    } else {
      MulGrows(j + 1, i, size);
    }
  }

  /** A list without its element at position k. */
  function Without<T>(s: seq<T>, k: int): seq<T>
    requires 0 <= k < |s|
  {
    s[..k] + s[k + 1..]
  }

  lemma {:induction false} TakeOut<T>(s: seq<T>, k: int)
    requires 0 <= k < |s|
    ensures multiset(s) == multiset(Without(s, k)) + multiset{s[k]}
  {
    assert s == s[..k] + [s[k]] + s[k + 1..];
  }

  /** The integers below n; there are n of them. */
  ghost function Below(n: nat): (s: set<int>)
    ensures forall i :: i in s <==> 0 <= i < n
    ensures |s| == n
  {
    if n == 0 then {} else Below(n - 1) + {n - 1}
  }

  /** An injective map has as many values as keys. */
  lemma {:induction false} InjectiveSize<A, B>(m: map<A, B>)
    requires forall x, y :: x in m && y in m && m[x] == m[y] ==> x == y
    ensures |m.Values| == |m.Keys|
  {
    if m.Keys == {} {
      assert m.Values == {};
    } else {
      var a :| a in m;
      var rest := m - {a};
      InjectiveSize(rest);
      assert m[a] !in rest.Values;
      assert m.Values == rest.Values + {m[a]} by {
        forall b | b in m.Values ensures b in rest.Values + {m[a]} {
          var x :| x in m && m[x] == b;
          if x != a { assert x in rest; }
        }
      }
    }
  }
}
