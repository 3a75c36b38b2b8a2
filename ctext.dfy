/**
 * Byte strings as the C code sees them: a `char` is one byte, a C string is
 * the bytes before the first NUL, and `printf("%d")` renders an integer in
 * decimal.
 */
module CText {

  /** One C `char`, as an unsigned byte value. */
  type Byte = b: int | 0 <= b < 256

  /** A run of bytes in memory (not necessarily NUL-free). */
  type Text = seq<Byte>

  datatype Option<T> = None | Some(value: T)

  const NUL: Byte := 0
  const Minus: Byte := 45  // '-'
  const Zero: Byte := 48   // '0'

  /**
   * The C string starting at the first byte of `t`: what `strlen` counts,
   * what `%s` prints and what `fopen` receives as a name.
   */
  function CStr(t: Text): (r: Text)
    ensures NUL !in r
    ensures |r| <= |t|
  {
    if |t| == 0 || t[0] == NUL then [] else [t[0]] + CStr(t[1..])
  }

  /** The C string is a prefix of the bytes, cut at the first NUL when there is one. */
  lemma {:induction false} CStrPrefix(t: Text)
    ensures CStr(t) <= t
    ensures |CStr(t)| < |t| ==> t[|CStr(t)|] == NUL
  {
    if |t| > 0 && t[0] != NUL {
      CStrPrefix(t[1..]);
      assert CStr(t) == [t[0]] + CStr(t[1..]);
    }
  }

  /** A run of bytes that holds no NUL is its own C string. */
  lemma {:induction false} CStrOfNulFree(t: Text)
    requires NUL !in t
    ensures CStr(t) == t
  {
    if |t| > 0 {
      assert t[0] in t;
      assert NUL !in t[1..] by {
        forall k | 0 <= k < |t[1..]| ensures t[1..][k] != NUL {
          assert t[1..][k] == t[k + 1];
        }
      }
      CStrOfNulFree(t[1..]);
    }
  }

  /** Appending a NUL terminator (and anything after it) does not change the C string. */
  lemma CStrOfTerminated(t: Text, rest: Text)
    requires NUL !in t
    ensures CStr(t + [NUL] + rest) == t
  {
    var u := t + [NUL] + rest;
    assert u[|t|] == NUL;
    assert forall k :: 0 <= k < |t| ==> u[k] == t[k] && t[k] in t;
    CStrLength(u, |t|);
    assert u[..|t|] == t;
  }

  /** The C string of `t` ends at the first NUL, or at the end of `t` when there is none. */
  lemma {:induction false} CStrLength(t: Text, i: nat)
    requires i <= |t| && (i == |t| || t[i] == NUL)
    requires forall k :: 0 <= k < i ==> t[k] != NUL
    ensures CStr(t) == t[..i]
  {
    if i > 0 {
      CStrLength(t[1..], i - 1);
      assert t[..i] == [t[0]] + t[1..][..i - 1];
    }
  }

  /** The C string of any bytes is a fixed point of CStr. */
  lemma CStrIdempotent(t: Text)
    ensures CStr(CStr(t)) == CStr(t)
  {
    CStrOfNulFree(CStr(t));
  }

  // ---------------------------------------------------------------------
  // Decimal rendering, as printf's "%d" / "%lld" conversion produces it.

  function DigitByte(d: nat): (b: Byte)
    requires d < 10
  {
    Zero + d
  }

  predicate IsDigit(b: Byte) {
    Zero <= b < Zero + 10
  }

  /** Decimal digits of a natural number, most significant first, no leading zeros. */
  function NatDigits(n: nat): Text
    decreases n
  {
    if n < 10 then [DigitByte(n)] else NatDigits(n / 10) + [DigitByte(n % 10)]
  }

  /** The text printf("%d", x) writes. */
  function Decimal(x: int): Text {
    if x < 0 then [Minus] + NatDigits(-x) else NatDigits(x)
  }

  /** Value of a run of decimal digits; the inverse of NatDigits below. */
  function ParseNat(t: Text): nat
    decreases |t|
  {
    if |t| == 0 then 0
    else ParseNat(t[..|t| - 1]) * 10 + (if IsDigit(t[|t| - 1]) then t[|t| - 1] - Zero else 0)
  }

  /** Value of an optionally negative decimal numeral. */
  function ParseDecimal(t: Text): int {
    if |t| > 0 && t[0] == Minus then -(ParseNat(t[1..]) as int) else ParseNat(t)
  }

  function Pow10(d: nat): (r: nat)
    ensures r >= 1
  {
    if d == 0 then 1 else 10 * Pow10(d - 1)
  }

  lemma {:induction false} NatDigitsAreDigits(n: nat)
    ensures |NatDigits(n)| >= 1
    ensures forall k :: 0 <= k < |NatDigits(n)| ==> IsDigit(NatDigits(n)[k])
    decreases n
  {
    if n >= 10 {
      NatDigitsAreDigits(n / 10);
    }
  }

  /** A decimal rendering holds only digits and possibly a leading minus sign: no NUL, no ':'. */
  lemma DecimalBytes(x: int)
    ensures |Decimal(x)| >= 1
    ensures forall k :: 0 <= k < |Decimal(x)| ==> IsDigit(Decimal(x)[k]) || (k == 0 && x < 0 && Decimal(x)[k] == Minus)
  {
    if x < 0 { NatDigitsAreDigits(-x); } else { NatDigitsAreDigits(x); }
  }

  lemma {:induction false} NatDigitsRoundTrip(n: nat)
    ensures ParseNat(NatDigits(n)) == n
    decreases n
  {
    var t := NatDigits(n);
    if n < 10 {
      assert t[..0] == [];
    } else {
      NatDigitsRoundTrip(n / 10);
      assert t[..|t| - 1] == NatDigits(n / 10);
    }
  }

  /** Reading back the decimal rendering of any integer gives that integer. */
  lemma DecimalRoundTrip(x: int)
    ensures ParseDecimal(Decimal(x)) == x
  {
    if x < 0 {
      NatDigitsRoundTrip(-x);
      assert Decimal(x)[1..] == NatDigits(-x);
    } else {
      NatDigitsRoundTrip(x);
      NatDigitsAreDigits(x);
      assert IsDigit(Decimal(x)[0]);
    }
  }

  /**
   * The number of digits is the decimal magnitude: a natural number has d
   * digits exactly when it is below 10^d and (unless it is 0) at least 10^(d-1).
   */
  lemma {:induction false} NatDigitsLength(n: nat)
    ensures n < Pow10(|NatDigits(n)|)
    ensures n >= 1 ==> Pow10(|NatDigits(n)| - 1) <= n
    decreases n
  {
    if n >= 10 {
      NatDigitsLength(n / 10);
    }
  }
}
