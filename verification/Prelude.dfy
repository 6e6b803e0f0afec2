/** Vocabulary shared by the other modules: optional values, addresses and the clock. */
module Prelude {

  datatype Option<+T> = None | Some(value: T)

  datatype IpAddr = V4(address: nat) | V6(address: nat)

  /** A reading of the monotonic clock, in nanoseconds. */
  type Instant = int

  const NANOS := 1_000_000_000

  newtype Byte = b: int | 0 <= b < 256

  /** `Instant::duration_since`: a reading that lies in the future yields zero. */
  function ElapsedSince(now: Instant, earlier: Instant): nat {
    if now > earlier then now - earlier else 0
  }

  lemma MulMono(a: int, b: int, c: nat)
    requires a <= b
    ensures a * c <= b * c
  {
  }

  lemma SliceBehind<T>(front: seq<T>, t: seq<T>, a: nat, b: nat)
    requires a <= b <= |t|
    ensures (front + t)[|front| + a..|front| + b] == t[a..b]
  {
    var x, y := (front + t)[|front| + a..|front| + b], t[a..b];
    forall k | 0 <= k < |x| ensures x[k] == y[k] {
      assert x[k] == (front + t)[|front| + a + k];
    }
  }

  lemma SliceOfSlice<T>(s: seq<T>, a: nat, b: nat, c: nat, d: nat)
    requires a <= b <= |s| && c <= d <= b - a
    ensures s[a..b][c..d] == s[a + c..a + d]
  {
    var x, y := s[a..b][c..d], s[a + c..a + d];
    forall k | 0 <= k < |x| ensures x[k] == y[k] {
      assert x[k] == s[a..b][c + k];
    }
  }

  lemma ShorterPrefixAgrees<T>(a: seq<T>, b: seq<T>, p: nat, n: nat, m: nat)
    requires m <= n <= |a| && p + n <= |b| && a[..n] == b[p..p + n]
    ensures a[..m] == b[p..p + m]
  {
    forall k | 0 <= k < m ensures a[k] == b[p + k] {
      assert a[k] == a[..n][k] && b[p + k] == b[p..p + n][k];
    }
  }
}
