/** The few pieces of Java's own semantics the monitor relies on: 32-bit
    `int` wrap-around, the truncating `%` operator, the saturating `(int)`
    cast of a `double`, `String.indexOf` and `String.substring`, and the
    exceptions those can raise. Timestamps are `Date.getTime()` values,
    whole milliseconds. */
module JavaSemantics {

  /** Milliseconds since the epoch, as returned by `Date.getTime()`. */
  type Time = int

  const INT_MIN: int := -0x8000_0000
  const INT_MAX: int := 0x7fff_ffff
  const INT_RANGE: int := 0x1_0000_0000

  predicate IsInt(x: int) {
    INT_MIN <= x <= INT_MAX
  }

  /** The runtime exceptions the modelled code can raise. */
  datatype JavaException = StringIndexOutOfBounds | NumberFormat

  /** The outcome of a Java call that either returns a value or throws. */
  datatype Throws<+T> = Returns(value: T) | Threw(exception: JavaException)

  datatype Option<+T> = None | Some(value: T)

  function Abs(x: int): nat {
    if x < 0 then -x else x
  }

  /** Two's-complement wrap-around of an `int` addition or subtraction. */
  function Wrap(x: int): (r: int)
    ensures IsInt(r)
    ensures (x - r) % INT_RANGE == 0
    ensures IsInt(x) ==> r == x
  {
    (x - INT_MIN) % INT_RANGE + INT_MIN
  }

  /** Java's `a % b`: the remainder of the division truncated toward zero,
      so it takes the sign of the dividend (Dafny's `%` is Euclidean). */
  function Rem(a: int, b: int): (r: int)
    requires b != 0
    ensures Abs(r) < Abs(b)
    ensures a >= 0 ==> 0 <= r
    ensures a <= 0 ==> r <= 0
  {
    if a >= 0 then a % Abs(b) else -((-a) % Abs(b))
  }

  /** Integer division truncated toward zero, Java's `a / b` for `b > 0`. */
  function Quot(a: int, b: int): (q: int)
    requires b > 0
    ensures a >= 0 ==> q * b <= a < q * b + b
    ensures a < 0 ==> q * b - b < a <= q * b
  {
    if a >= 0 then a / b else -((-a) / b)
  }

  /** The `(int)` cast of a `double`: rounds toward zero and saturates at the
      ends of the `int` range. */
  function DoubleToInt(x: real): (r: int)
    ensures IsInt(r)
    ensures 0.0 <= x < INT_MAX as real + 1.0 ==> r as real <= x < r as real + 1.0
    ensures INT_MIN as real - 1.0 < x <= 0.0 ==> r as real - 1.0 < x <= r as real
    ensures x >= INT_MAX as real ==> r == INT_MAX
    ensures x <= INT_MIN as real ==> r == INT_MIN
  {
    if x >= 0.0 then
      (if x.Floor > INT_MAX then INT_MAX else x.Floor)
    else
      var c := -((-x).Floor);
      if c < INT_MIN then INT_MIN else c
  }

  predicate OccursAt(s: string, pat: string, i: int) {
    0 <= i && i + |pat| <= |s| && s[i..i + |pat|] == pat
  }

  /** The first occurrence of `pat` in `s` at or after `from`, or -1. */
  function IndexFrom(s: string, pat: string, from: nat): (r: int)
    ensures r == -1 || (from <= r && OccursAt(s, pat, r))
    ensures r == -1 ==> forall j :: from <= j ==> !OccursAt(s, pat, j)
    ensures r != -1 ==> forall j :: from <= j < r ==> !OccursAt(s, pat, j)
    decreases |s| - from
  {
    if from + |pat| > |s| then -1
    else if s[from..from + |pat|] == pat then from
    else IndexFrom(s, pat, from + 1)
  }

  /** `s.indexOf(pat)`: the first position of `pat` in `s`, -1 when absent. */
  function IndexOf(s: string, pat: string): (r: int)
    ensures -1 <= r
    ensures r == -1 <==> forall j :: !OccursAt(s, pat, j)
    ensures r != -1 ==> OccursAt(s, pat, r) && forall j :: 0 <= j < r ==> !OccursAt(s, pat, j)
  {
    IndexFrom(s, pat, 0)
  }

  /** For a one-character pattern `indexOf` finds the first position holding
      that character. */
  lemma IndexOfChar(s: string, c: char)
    ensures IndexOf(s, [c]) == -1 <==> c !in s
    ensures IndexOf(s, [c]) != -1 ==>
              var r := IndexOf(s, [c]); 0 <= r < |s| && s[r] == c && c !in s[..r]
  {
    var r := IndexOf(s, [c]);
    forall i | 0 <= i < |s| && s[i] == c
      ensures OccursAt(s, [c], i)
    {
      assert s[i..i + 1] == [c];
    }
    forall i | 0 <= i < |s| && !OccursAt(s, [c], i)
      ensures s[i] != c
    {
      assert s[i..i + 1] == [s[i]];
    }
    if r != -1 {
      assert s[r..r + 1] == [c];
      assert s[r] == c;
      assert forall k :: 0 <= k < r ==> s[..r][k] == s[k];
    }
  }

  /** `s.substring(begin, end)`, which throws unless
      `0 <= begin <= end <= s.length()`. */
  function Substring(s: string, begin: int, end: int): (r: Throws<string>)
    ensures r.Returns? <==> 0 <= begin <= end <= |s|
    ensures r.Returns? ==> |r.value| == end - begin
    ensures r.Returns? ==> forall k :: 0 <= k < |r.value| ==> r.value[k] == s[begin + k]
    ensures r.Threw? ==> r.exception == StringIndexOutOfBounds
  {
    if 0 <= begin <= end <= |s| then Returns(s[begin..end]) else Threw(StringIndexOutOfBounds)
  }
}
