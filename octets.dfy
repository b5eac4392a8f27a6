/** Bytes as the client sees them (the unsigned view of a C `char`), decimal text as written
    by `std::to_string`, and decimal text as read back by `std::istream >> int` in the classic
    "C" locale. */
module Octets {

  newtype byte = x: int | 0 <= x < 256
  type Bytes = seq<byte>

  const NUL: byte := 0
  const LF: byte := 10
  const CR: byte := 13

  const INT_MIN: int := -0x8000_0000
  const INT_MAX: int := 0x7fff_ffff

  /** The bytes of an ASCII literal. */
  function Ascii(s: string): (r: Bytes)
    requires forall i | 0 <= i < |s| :: s[i] as int < 256
    ensures |r| == |s|
  {
    seq(|s|, i requires 0 <= i < |s| => s[i] as int as byte)
  }

  /** `isspace` in the "C" locale: space, and tab through carriage return. */
  predicate IsSpace(b: byte) { b == 32 || 9 <= b <= 13 }

  predicate IsDigit(b: byte) { 48 <= b <= 57 }

  /** The decimal digits of `n`, most significant first, without leading zeros. */
  function Digits(n: nat): (r: Bytes)
    ensures |r| >= 1
    decreases n
  {
    if n < 10 then [(48 + n) as byte] else Digits(n / 10) + [(48 + n % 10) as byte]
  }

  /** `std::to_string(n)`: a minus sign for negative values, then the digits. */
  function ToDecimal(n: int): Bytes
  {
    if n < 0 then [45 as byte] + Digits(-n) else Digits(n)
  }

  /** The value of a run of decimal digits, read left to right. */
  function DigitsValue(ds: Bytes): nat
    requires forall i | 0 <= i < |ds| :: IsDigit(ds[i])
  {
    if ds == [] then 0
    else
      assert IsDigit(ds[|ds| - 1]);
      DigitsValue(ds[..|ds| - 1]) * 10 + (ds[|ds| - 1] as int - 48)
  }

  /** The first position of `x` in `s`. */
  function IndexOf(s: Bytes, x: byte): (k: nat)
    requires x in s
    ensures k < |s| && s[k] == x && x !in s[..k]
  {
    if s[0] == x then 0
    else
      assert x in s[1..] by { var j :| 0 <= j < |s| && s[j] == x; assert s[1..][j - 1] == x; }
      var k := 1 + IndexOf(s[1..], x);
      assert s[..k] == [s[0]] + s[1..][..k - 1];
      k
  }

  /** The first position of `x` is the position before which no `x` occurs. */
  lemma {:induction false} IndexOfIs(s: Bytes, x: byte, j: nat)
    requires j < |s| && s[j] == x && forall i | 0 <= i < j :: s[i] != x
    ensures IndexOf(s, x) == j
    decreases j
  {
    if j > 0 {
      assert s[1..][j - 1] == x;
      IndexOfIs(s[1..], x, j - 1);
    }
  }

  /** What the leading-whitespace skip of an input stream's sentry leaves. */
  function SkipSpace(s: Bytes): (r: Bytes)
    ensures |r| <= |s|
  {
    if s != [] && IsSpace(s[0]) then SkipSpace(s[1..]) else s
  }

  /** The skip removes exactly the leading whitespace: what is left is a suffix of `s` that
      is empty or starts with a non-space byte, and every byte before it is whitespace. */
  lemma {:induction false} SkipSpaceParts(s: Bytes)
    ensures var r := SkipSpace(s);
            r == s[|s| - |r|..] && (r != [] ==> !IsSpace(r[0]))
            && forall i | 0 <= i < |s| - |r| :: IsSpace(s[i])
    decreases |s|
  {
    if s != [] && IsSpace(s[0]) {
      SkipSpaceParts(s[1..]);
      var r := SkipSpace(s);
      assert s[1..][|s| - 1 - |r|..] == s[|s| - |r|..];
      forall i | 0 <= i < |s| - |r| ensures IsSpace(s[i]) {
        if i > 0 {
          assert s[i] == s[1..][i - 1];
        }
      }
    }
  }

  /** Length of the longest prefix of `s` made of digits. */
  function DigitRun(s: Bytes): (k: nat)
    ensures k <= |s|
    ensures forall i | 0 <= i < k :: IsDigit(s[i])
    ensures k < |s| ==> !IsDigit(s[k])
  {
    if s != [] && IsDigit(s[0]) then 1 + DigitRun(s[1..]) else 0
  }

  function Min(a: int, b: int): int { if a < b then a else b }

  /** `dst` with its first `n` bytes replaced by those of `src`, as `memcpy` leaves it. */
  function Overwrite(dst: Bytes, src: Bytes, n: nat): (r: Bytes)
    requires n <= |dst| && n <= |src|
    ensures |r| == |dst|
  {
    src[..n] + dst[n..]
  }

  lemma OverwriteParts(dst: Bytes, src: Bytes, n: nat)
    requires n <= |dst| && n <= |src|
    ensures var r := Overwrite(dst, src, n);
            r[..n] == src[..n] && r[n..] == dst[n..]
            && forall k | 0 <= k < |r| :: r[k] == if k < n then src[k] else dst[k]
  {
  }

  lemma AppendAssoc<T>(x: seq<T>, y: seq<T>, z: seq<T>)
    ensures (x + y) + z == x + (y + z)
  {
  }

  function Clamp32(v: int): (r: int)
    ensures INT_MIN <= r <= INT_MAX
    ensures INT_MIN <= v <= INT_MAX ==> r == v
  {
    if v < INT_MIN then INT_MIN else if v > INT_MAX then INT_MAX else v
  }

  /** The effect of `stream >> n` on an `int` variable `n`: either the sentry fails (only
      whitespace is left) and `n` is not written, or a value is stored — zero when no digits
      follow the optional sign, the parsed value clamped to the `int` range otherwise. */
  datatype Extraction = Untouched | Stored(value: int)

  function ExtractInt(s: Bytes): Extraction
  {
    var t := SkipSpace(s);
    if t == [] then Untouched else Stored(SignedValue(t))
  }

  /** The value `num_get` stores once the sentry has skipped the whitespace. */
  function SignedValue(t: Bytes): int
    requires t != []
  {
    var u := if t[0] == 43 || t[0] == 45 then t[1..] else t;
    var k := DigitRun(u);
    if k == 0 then 0
    else
      var magnitude: int := DigitsValue(u[..k]);
      Clamp32(if t[0] == 45 then -magnitude else magnitude)
  }

  lemma {:induction false} DigitsAreDigits(n: nat)
    ensures |Digits(n)| >= 1
    ensures forall i | 0 <= i < |Digits(n)| :: IsDigit(Digits(n)[i])
    decreases n
  {
    if n >= 10 {
      DigitsAreDigits(n / 10);
    }
  }

  lemma {:induction false} DigitsValueOfDigits(n: nat)
    ensures |Digits(n)| >= 1 && forall i | 0 <= i < |Digits(n)| :: IsDigit(Digits(n)[i])
    ensures DigitsValue(Digits(n)) == n
    decreases n
  {
    DigitsAreDigits(n);
    if n >= 10 {
      DigitsValueOfDigits(n / 10);
      var d := Digits(n);
      assert d[..|d| - 1] == Digits(n / 10);
    }
  }

  /** Decimal text carries no NUL byte, so it can sit between NUL separators. */
  lemma DecimalHasNoNul(n: int)
    ensures NUL !in ToDecimal(n)
  {
    DigitsAreDigits(if n < 0 then -n else n);
  }

  /** A run of digits is read whole. */
  lemma {:induction false} DigitRunAll(u: Bytes)
    requires forall i | 0 <= i < |u| :: IsDigit(u[i])
    ensures DigitRun(u) == |u|
  {
    if u != [] {
      DigitRunAll(u[1..]);
    }
  }

  lemma ExtractUnsigned(u: Bytes)
    requires u != [] && forall i | 0 <= i < |u| :: IsDigit(u[i])
    ensures ExtractInt(u) == Stored(Clamp32(DigitsValue(u)))
  {
    assert !IsSpace(u[0]);
    assert SkipSpace(u) == u;
    DigitRunAll(u);
    assert u[..|u|] == u;
  }

  /** A minus sign followed by a run of digits is read as the negated value. */
  lemma ExtractMinus(u: Bytes)
    requires u != [] && forall i | 0 <= i < |u| :: IsDigit(u[i])
    ensures ExtractInt([45 as byte] + u) == Stored(Clamp32(-(DigitsValue(u) as int)))
  {
    var t := [45 as byte] + u;
    SkipNothing(t);
    MinusValue(t, u);
  }

  lemma SkipNothing(t: Bytes)
    requires t != [] && !IsSpace(t[0])
    ensures SkipSpace(t) == t
  {
  }

  lemma MinusValue(t: Bytes, u: Bytes)
    requires u != [] && forall i | 0 <= i < |u| :: IsDigit(u[i])
    requires t == [45 as byte] + u
    ensures SignedValue(t) == Clamp32(-(DigitsValue(u) as int))
  {
    assert t[1..] == u;
    DigitRunAll(u);
    assert u[..|u|] == u;
  }

  /** Reading back what `std::to_string` wrote gives the same `int`. */
  lemma DecimalRoundTrip(n: int)
    requires INT_MIN <= n <= INT_MAX
    ensures ExtractInt(ToDecimal(n)) == Stored(n)
  {
    var m := if n < 0 then -n else n;
    DigitsValueOfDigits(m);
    if n < 0 {
      ExtractMinus(Digits(m));
    } else {
      ExtractUnsigned(Digits(m));
    }
  }

  /** `stream >> n` on a text of exactly two characters, written out case by case: two
      blanks store nothing; a blank and a digit, a sign and a digit, or two digits store
      their value; a digit followed by anything else stores that digit; any other text
      stores zero. `ExtractTwoAgrees` shows this is `ExtractInt` on those two bytes. */
  function ExtractTwo(c1: byte, c2: byte): Extraction
  {
    if IsSpace(c1) then
      (if IsSpace(c2) then Untouched else Stored(if IsDigit(c2) then c2 as int - 48 else 0))
    else if c1 == 43 || c1 == 45 then
      Stored(if !IsDigit(c2) then 0 else if c1 == 45 then 48 - c2 as int else c2 as int - 48)
    else if IsDigit(c1) then
      Stored(if IsDigit(c2) then 10 * (c1 as int - 48) + (c2 as int - 48) else c1 as int - 48)
    else Stored(0)
  }

  lemma OneCharValue(c: byte)
    requires !IsSpace(c)
    ensures SignedValue([c]) == if IsDigit(c) then c as int - 48 else 0
  {
    var t := [c];
    if c == 43 || c == 45 {
      assert t[1..] == [];
    } else if IsDigit(c) {
      assert DigitRun(t) == 1 by { assert t[1..] == []; }
      assert t[..1] == t && t[..0] == [];
      assert DigitsValue(t) == c as int - 48;
    }
  }

  lemma SignedTwo(c1: byte, c2: byte)
    requires !IsSpace(c1)
    ensures Stored(SignedValue([c1, c2])) == ExtractTwo(c1, c2)
  {
    var t := [c1, c2];
    if c1 == 43 || c1 == 45 {
      assert t[1..] == [c2];
      if IsDigit(c2) {
        assert DigitRun([c2]) == 1 by { assert [c2][1..] == []; }
        assert [c2][..1] == [c2] && [c2][..0] == [];
        assert DigitsValue([c2]) == c2 as int - 48;
      }
    } else if IsDigit(c1) {
      assert t[1..] == [c2];
      if IsDigit(c2) {
        assert DigitRun([c2]) == 1 by { assert [c2][1..] == []; }
        assert t[..2] == t && t[..1] == [c1] && [c1][..0] == [];
        assert DigitsValue([c1]) == c1 as int - 48;
        assert DigitsValue(t) == 10 * (c1 as int - 48) + (c2 as int - 48);
      } else {
        assert t[..1] == [c1] && [c1][..0] == [];
        assert DigitsValue([c1]) == c1 as int - 48;
      }
    }
  }

  lemma ExtractTwoAgrees(c1: byte, c2: byte)
    ensures ExtractTwo(c1, c2) == ExtractInt([c1, c2])
  {
    var t := [c1, c2];
    if IsSpace(c1) {
      assert t[1..] == [c2];
      assert SkipSpace(t) == SkipSpace([c2]);
      if IsSpace(c2) {
        assert [c2][1..] == [];
      } else {
        OneCharValue(c2);
      }
    } else {
      SignedTwo(c1, c2);
    }
  }
}
