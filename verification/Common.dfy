/** Vocabulary shared by the modules of this project. */
module Common {

  /** A pointer that may be NULL, or a JavaScript value that may be missing. */
  datatype Option<+T> = None | Some(value: T)

  newtype byte = x: int | 0 <= x < 256

  /** What `strncpy(dst, s, size - 1)` leaves in a zeroed buffer: the first `size - 1` characters. */
  function Truncate(s: string, size: nat): (r: string)
    requires size > 0
    ensures r <= s && |r| < size
    ensures r == s <==> |s| < size
  {
    if |s| < size then s else s[..size - 1]
  }

  /** A loop that writes one character and leaves the rest to be written. */
  lemma AppendedChar(now: string, done: string, c: char, rest: string, whole: string)
    requires now == done + [c] && whole == [c] + rest
    ensures now + rest == done + whole
  {}

  ghost predicate Sorted(s: seq<int>) {
    forall i, j :: 0 <= i <= j < |s| ==> s[i] <= s[j]
  }

  /** The `n` numbers from `lo`. */
  function Range(lo: nat, n: nat): (r: set<nat>)
    ensures forall i :: i in r <==> lo <= i < lo + n
  {
    if n == 0 then {} else Range(lo, n - 1) + {lo + (n - 1)}
  }

  lemma {:induction false} RangeSize(lo: nat, n: nat)
    ensures |Range(lo, n)| == n
  {
    if n > 0 {
      RangeSize(lo, n - 1);
    }
  }

  lemma SubsetSize(a: set<nat>, b: set<nat>)
    requires a <= b
    ensures |a| <= |b|
  {
    assert b == a + (b - a);
  }
}
