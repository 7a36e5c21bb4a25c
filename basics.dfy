/** Small building blocks shared by the model: an optional value and Python's
    decimal rendering of integers (`str(i)` for an `int`). */
module Basics {

  datatype Option<+T> = None | Some(value: T)

  predicate IsDigit(c: char) {
    '0' <= c <= '9'
  }

  function DigitChar(d: nat): (c: char)
    requires d < 10
    ensures IsDigit(c)
  {
    (48 + d) as char
  }

  /** `str(n)` for a non-negative Python int: its decimal digits, most
      significant first, with no leading zeros. */
  function ShowNat(n: nat): (r: string)
    ensures |r| > 0
    ensures forall i :: 0 <= i < |r| ==> IsDigit(r[i])
    ensures (|r| == 1) == (n < 10)
    decreases n
  {
    if n < 10 then [DigitChar(n)] else ShowNat(n / 10) + [DigitChar(n % 10)]
  }

  /** `str(i)` for any Python int: a minus sign before the digits of a
      negative number. */
  function ShowInt(i: int): (r: string)
    ensures |r| > 0
    ensures forall k :: 0 <= k < |r| ==> r[k] == '-' || IsDigit(r[k])
    ensures i >= 0 ==> r == ShowNat(i)
  {
    if i < 0 then "-" + ShowNat(-i) else ShowNat(i)
  }

  /** Distinct numbers render as distinct strings. */
  lemma {:induction false} ShowNatInjective(a: nat, b: nat)
    requires ShowNat(a) == ShowNat(b)
    ensures a == b
    decreases a
  {
    if a < 10 || b < 10 {
      assert |ShowNat(a)| == 1 && |ShowNat(b)| == 1;
      assert DigitChar(a) == ShowNat(a)[0] == ShowNat(b)[0] == DigitChar(b);
    } else {
      var sa, sb := ShowNat(a / 10), ShowNat(b / 10);
      assert ShowNat(a) == sa + [DigitChar(a % 10)];
      assert ShowNat(b) == sb + [DigitChar(b % 10)];
      assert |sa| == |sb|;
      assert sa == ShowNat(a)[..|sa|] == ShowNat(b)[..|sb|] == sb;
      assert DigitChar(a % 10) == ShowNat(a)[|sa|] == ShowNat(b)[|sb|] == DigitChar(b % 10);
      ShowNatInjective(a / 10, b / 10);
    }
  }

  /** A rendered integer never contains an underscore, so it can never equal
      any of the converter's composite keys, which all do. */
  lemma ShowIntNoUnderscore(i: int)
    ensures '_' !in ShowInt(i)
  {
    var r := ShowInt(i);
    assert forall k :: 0 <= k < |r| ==> r[k] != '_';
  }

  /** `sep.join(parts)`. */
  function Join(parts: seq<string>, sep: string): string
  {
    if |parts| == 0 then ""
    else if |parts| == 1 then parts[0]
    else parts[0] + sep + Join(parts[1..], sep)
  }

  /** Joining one more part appends the separator and that part. */
  lemma {:induction false} JoinSnoc(parts: seq<string>, p: string, sep: string)
    requires |parts| > 0
    ensures Join(parts + [p], sep) == Join(parts, sep) + sep + p
    decreases |parts|
  {
    if |parts| == 1 {
      assert (parts + [p])[1..] == [p];
    } else {
      assert (parts + [p])[1..] == parts[1..] + [p];
      JoinSnoc(parts[1..], p, sep);
    }
  }
}
