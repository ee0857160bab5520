/**
 * The `%d` conversion of `sprintf`, which the serial report uses to print the peak
 * readings, and the decimal reading that inverts it.
 */
module Format {
  import opened Bytes

  const MINUS: byte := 45  // '-'

  function Pow10(k: nat): (p: nat)
    ensures p >= 1
  {
    if k == 0 then 1 else 10 * Pow10(k - 1)
  }

  /** The decimal digits of `n`, most significant first, without leading zeros. */
  function Digits(n: nat): (r: seq<byte>)
    ensures 1 <= |r|
    ensures forall k :: 0 <= k < |r| ==> IsDigit(r[k])
    ensures |r| > 1 ==> r[0] != ZERO
    decreases n
  {
    if n < 10 then [ZERO + n] else Digits(n / 10) + [ZERO + n % 10]
  }

  /** What `sprintf("%d", n)` writes (without the terminating NUL). */
  function FormatInt(n: int): (r: seq<byte>)
    ensures 1 <= |r|
    ensures forall k :: 0 <= k < |r| ==> r[k] != NUL
    ensures n < 0 <==> r[0] == MINUS
    ensures var d := if n < 0 then r[1..] else r; |d| > 1 ==> d[0] != ZERO
  {
    if n < 0 then [MINUS] + Digits(-n) else Digits(n)
  }

  /** The value of a string of decimal digits. */
  function DigitsValue(s: seq<byte>): (v: nat)
    requires forall k :: 0 <= k < |s| ==> IsDigit(s[k])
  {
    if s == [] then 0
    else
      assert IsDigit(s[|s| - 1]);
      10 * DigitsValue(s[..|s| - 1]) + (s[|s| - 1] - ZERO) as nat
  }

  /** Reads an optionally negative decimal integer; `None` for anything else. */
  function ParseInt(s: seq<byte>): (r: Option<int>)
    ensures r.Some? ==> 1 <= |s|
  {
    if |s| >= 1 && s[0] != MINUS && (forall k :: 0 <= k < |s| ==> IsDigit(s[k])) then
      Some(DigitsValue(s))
    else if |s| >= 2 && s[0] == MINUS && (forall k :: 1 <= k < |s| ==> IsDigit(s[k])) then
      Some(-(DigitsValue(s[1..]) as int))
    else
      None
  }

  datatype Option<T> = None | Some(value: T)

  lemma {:induction false} DigitsRoundTrip(n: nat)
    ensures DigitsValue(Digits(n)) == n
    decreases n
  {
    if n >= 10 {
      DigitsRoundTrip(n / 10);
      var d := Digits(n / 10) + [ZERO + n % 10];
      assert d[..|d| - 1] == Digits(n / 10);
    }
  }

  /** Reading back what `%d` printed gives the printed number. */
  lemma FormatRoundTrip(n: int)
    ensures ParseInt(FormatInt(n)) == Some(n)
  {
    if n < 0 {
      DigitsRoundTrip(-n);
      assert FormatInt(n)[1..] == Digits(-n);
    } else {
      DigitsRoundTrip(n);
    }
  }

  lemma {:induction false} DigitsLength(n: nat, k: nat)
    requires 1 <= k && n < Pow10(k)
    ensures |Digits(n)| <= k
    decreases k
  {
    if n >= 10 {
      DigitsLength(n / 10, k - 1);
    }
  }

  /** `%d` of any 32-bit `int` takes at most 11 bytes (a sign and ten digits). */
  lemma FormatInt32Length(n: int32)
    ensures |FormatInt(n)| <= 11
  {
    assert Pow10(10) == 10_000_000_000;
    if n < 0 {
      DigitsLength(-(n as int), 10);
    } else {
      DigitsLength(n, 10);
    }
  }
}
