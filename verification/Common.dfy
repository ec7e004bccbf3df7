/** What several modules share. */
module Common {
  datatype Option<+T> = None | Some(value: T)

  function Min(a: int, b: int): int { if a <= b then a else b }

  function Max(a: int, b: int): int { if a >= b then a else b }

  /** Subtraction that stops at 0. */
  function Monus(a: nat, b: nat): nat { if a <= b then 0 else a - b }

  lemma SliceOfSlice<T>(s: seq<T>, a: nat, b: nat, c: nat, d: nat)
    requires a <= b <= |s| && c <= d <= b - a
    ensures s[a..b][c..d] == s[a + c..a + d]
  {
    var x, y := s[a..b][c..d], s[a + c..a + d];
    forall k | 0 <= k < d - c ensures x[k] == y[k] {
      assert s[a..b][c + k] == s[a + c + k];
    }
  }

  /** Dropping the first `w` before or after taking the first `n`. */
  lemma TakeAndDrop<T>(s: seq<T>, w: nat, n: nat)
    requires w <= n <= |s|
    ensures s[..n][..w] == s[..w] && s[..n][w..] == s[w..][..n - w] && s[w..][n - w..] == s[n..]
  {
    assert s[..n][..w] == s[..w];
    assert s[..n][w..] == s[w..][..n - w];
    assert s[w..][n - w..] == s[n..];
  }
}
