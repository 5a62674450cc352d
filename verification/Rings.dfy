// Circular buffers on values.
module Rings {
  function Wrap(k: nat, size: nat): nat {
    if k < size then k else k - size
  }

  // The n elements that start at index `read` and go round the end of the sequence.
  function Ring<T>(a: seq<T>, read: nat, n: nat): (s: seq<T>)
    requires read < |a| && n <= |a|
    ensures |s| == n
    ensures forall i | 0 <= i < n :: s[i] == a[Wrap(read + i, |a|)]
  {
    if read + n <= |a| then a[read..read + n] else a[read..] + a[..read + n - |a|]
  }

  // Read in one piece or two; where the end of the ring is the end of the sequence, either will do.
  lemma RingPieces<T>(a: seq<T>, read: nat, n: nat)
    requires read < |a| && n <= |a|
    ensures read + n <= |a| ==> Ring(a, read, n) == a[read..read + n]
    ensures read + n >= |a| ==> Ring(a, read, n) == a[read..] + a[..read + n - |a|]
  {
    if read + n == |a| {
      assert a[read..read + n] == a[read..] + a[..0];
    }
  }

  lemma RingRead<T>(a: seq<T>, read: nat, n: nat, k: nat)
    requires read < |a| && k <= n <= |a|
    ensures Ring(a, read, n)[..k] == Ring(a, read, k)
    ensures Wrap(read + k, |a|) < |a|
    ensures Ring(a, read, n)[k..] == Ring(a, Wrap(read + k, |a|), n - k)
  {
    hide Ring;
    var r, t := Ring(a, read, n), Ring(a, Wrap(read + k, |a|), n - k);
    forall i | 0 <= i < n - k ensures r[k..][i] == t[i] {
      assert r[k + i] == a[Wrap(read + (k + i), |a|)];
    }
  }

  lemma ModOnce(x: nat, size: nat)
    requires x < 2 * size
    ensures x % size == Wrap(x, size)
  {
    if x >= size {
      assert x == size + (x - size);
    }
  }

  lemma RingPutLast<T>(a: seq<T>, read: nat, n: nat, x: T)
    requires read < |a| && n < |a|
    ensures Ring(a[Wrap(read + n, |a|) := x], read, n + 1) == Ring(a, read, n) + [x]
  {
    hide Ring;
    var b := a[Wrap(read + n, |a|) := x];
    var r, s := Ring(b, read, n + 1), Ring(a, read, n) + [x];
    forall i | 0 <= i < n + 1 ensures r[i] == s[i] {
      assert r[i] == b[Wrap(read + i, |a|)];
      assert i < n ==> s[i] == a[Wrap(read + i, |a|)];
    }
  }

  lemma RingPutFirst<T>(a: seq<T>, read: nat, n: nat, x: T)
    requires 0 < read <= |a| && n < |a|
    ensures Ring(a[read - 1 := x], read - 1, n + 1) == [x] + Ring(a, Wrap(read, |a|), n)
  {
    hide Ring;
    var b := a[read - 1 := x];
    var r, s := Ring(b, read - 1, n + 1), [x] + Ring(a, Wrap(read, |a|), n);
    forall i | 0 <= i < n + 1 ensures r[i] == s[i] {
      assert r[i] == b[Wrap(read - 1 + i, |a|)];
      assert i > 0 ==> s[i] == a[Wrap(Wrap(read, |a|) + (i - 1), |a|)];
    }
  }

  lemma RingStore<T>(a: seq<T>, read: nat, n: nat, j: nat, x: T)
    requires read < |a| && n <= |a| && j < n
    ensures Ring(a[Wrap(read + j, |a|) := x], read, n) == Ring(a, read, n)[j := x]
  {
    hide Ring;
    var b := a[Wrap(read + j, |a|) := x];
    var r, s := Ring(b, read, n), Ring(a, read, n)[j := x];
    forall i | 0 <= i < n ensures r[i] == s[i] {
      assert r[i] == b[Wrap(read + i, |a|)];
      assert i != j ==> s[i] == a[Wrap(read + i, |a|)];
    }
  }
}
