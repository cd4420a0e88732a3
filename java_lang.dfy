/**
 * The few pieces of java.lang and java.util that the contributor value relies on:
 * nullable references, Optional.ofNullable, 32-bit int arithmetic, the UTF-16
 * representation of strings, String.equals, String.valueOf for a nullable string,
 * and String.hashCode.
 */
module JavaLang {
  import opened Wrappers

  /** A Java reference that may be null. */
  datatype Nullable<+T> = Null | NonNull(value: T)

  /** Optional.ofNullable: empty exactly for null, otherwise the referenced value. */
  function OfNullable<T>(x: Nullable<T>): (r: Option<T>)
    ensures r.None? <==> x.Null?
    ensures r.Some? ==> x == NonNull(r.value)
  {
    match x
    case Null => None
    case NonNull(v) => Some(v)
  }

  // ---------------------------------------------------------------------------
  // 32-bit two's-complement int

  const TwoTo31: int := 0x8000_0000
  const TwoTo32: int := 0x1_0000_0000

  /** The values of Java's `int`. */
  predicate IsInt32(x: int) {
    -TwoTo31 <= x < TwoTo31
  }

  /**
   * The `int` that Java's wrapping arithmetic yields for the mathematical value x:
   * the unique `int` congruent to x modulo 2^32.
   */
  function ToInt32(x: int): (r: int)
    ensures IsInt32(r)
    ensures (x - r) % TwoTo32 == 0
  {
    (x + TwoTo31) % TwoTo32 - TwoTo31
  }

  /** Wrapping forgets multiples of 2^32. */
  lemma ToInt32Shift(x: int, k: int)
    ensures ToInt32(x + TwoTo32 * k) == ToInt32(x)
  {
  }

  // ---------------------------------------------------------------------------
  // Strings as Java stores them: sequences of UTF-16 code units

  /** A Java `char`: one UTF-16 code unit. */
  type CodeUnit = u: int | 0 <= u < 0x1_0000

  /** A code unit in the surrogate range, which never encodes a character alone. */
  predicate IsSurrogate(u: int) {
    0xD800 <= u < 0xE000
  }

  /**
   * The UTF-16 code units of one Unicode scalar value: the value itself below
   * U+10000, otherwise a high surrogate followed by a low surrogate.
   */
  function CharUnits(c: char): (r: seq<CodeUnit>)
    ensures 1 <= |r| <= 2
    ensures |r| == 1 <==> !IsSurrogate(r[0])
    ensures |r| == 1 ==> r[0] == c as int
    ensures |r| == 2 ==> 0xD800 <= r[0] < 0xDC00 && 0xDC00 <= r[1] < 0xE000
    ensures |r| == 2 ==> (r[0] as int - 0xD800) * 0x400 + (r[1] as int - 0xDC00) + 0x1_0000 == c as int
  {
    var v := c as int;
    if v < 0x1_0000 then
      [v]
    else
      [0xD800 + (v - 0x1_0000) / 0x400, 0xDC00 + (v - 0x1_0000) % 0x400]
  }

  /** The UTF-16 encoding of a string, the representation Java's String holds. */
  function Utf16(s: string): (r: seq<CodeUnit>) {
    if s == [] then [] else CharUnits(s[0]) + Utf16(s[1..])
  }

  /** Encoding distributes over concatenation. */
  lemma {:induction false} Utf16Append(a: string, b: string)
    ensures Utf16(a + b) == Utf16(a) + Utf16(b)
  {
    if a == [] {
      assert a + b == b;
    } else {
      assert (a + b)[0] == a[0];
      assert (a + b)[1..] == a[1..] + b;
      Utf16Append(a[1..], b);
    }
  }

  /** Two strings with the same UTF-16 encoding are the same string. */
  lemma {:induction false} Utf16Injective(s: string, t: string)
    requires Utf16(s) == Utf16(t)
    ensures s == t
  {
    if s != [] && t != [] {
      var cs, ct := CharUnits(s[0]), CharUnits(t[0]);
      assert Utf16(s) == cs + Utf16(s[1..]);
      assert Utf16(t) == ct + Utf16(t[1..]);
      assert cs[0] == Utf16(s)[0] && ct[0] == Utf16(t)[0];
      assert |cs| == |ct|;
      assert cs == Utf16(s)[..|cs|] && ct == Utf16(t)[..|ct|];
      assert s[0] == t[0];
      assert Utf16(s[1..]) == Utf16(s)[|cs|..] && Utf16(t[1..]) == Utf16(t)[|ct|..];
      Utf16Injective(s[1..], t[1..]);
    }
  }

  /** String.equals: the same code units in the same order. */
  predicate StringEquals(s: string, t: string) {
    Utf16(s) == Utf16(t)
  }

  /** String.equals holds exactly for equal strings. */
  lemma StringEqualsIsEquality(s: string, t: string)
    ensures StringEquals(s, t) <==> s == t
  {
    if StringEquals(s, t) {
      Utf16Injective(s, t);
    }
  }

  /** String.valueOf(Object) for a nullable string: the literal text "null" for null. */
  function StringValueOf(x: Nullable<string>): (r: string)
    ensures x.NonNull? ==> r == x.value
    ensures x.Null? ==> r == "null"
  {
    match x
    case Null => "null"
    case NonNull(s) => s
  }

  // ---------------------------------------------------------------------------
  // String.hashCode

  /** 31 to the power e. */
  function Pow31(e: nat): (r: int) {
    if e == 0 then 1 else 31 * Pow31(e - 1)
  }

  /**
   * The mathematical polynomial that String.hashCode documents:
   * u[0]*31^(n-1) + u[1]*31^(n-2) + ... + u[n-1], without overflow.
   */
  function Polynomial(u: seq<int>): (r: int) {
    if u == [] then 0 else u[0] * Pow31(|u| - 1) + Polynomial(u[1..])
  }

  /** Appending a unit multiplies the polynomial by 31 and adds the unit. */
  lemma {:induction false} PolynomialSnoc(u: seq<int>, x: int)
    ensures Polynomial(u + [x]) == 31 * Polynomial(u) + x
  {
    if u == [] {
      assert u + [x] == [x];
      assert [x][1..] == [];
    } else {
      var w := u + [x];
      assert w[0] == u[0] && w[1..] == u[1..] + [x];
      PolynomialSnoc(u[1..], x);
      calc {
        Polynomial(w);
        u[0] * Pow31(|u|) + Polynomial(u[1..] + [x]);
        u[0] * (31 * Pow31(|u| - 1)) + 31 * Polynomial(u[1..]) + x;
        { assert u[0] * (31 * Pow31(|u| - 1)) == 31 * (u[0] * Pow31(|u| - 1)); }
        31 * (u[0] * Pow31(|u| - 1) + Polynomial(u[1..])) + x;
      }
    }
  }

  /**
   * String.hashCode over the code units: starting from 0, each unit updates
   * h to 31*h + unit in wrapping `int` arithmetic.
   */
  function StringHash(u: seq<CodeUnit>): (r: int)
    ensures IsInt32(r)
  {
    if u == [] then 0 else ToInt32(31 * StringHash(u[..|u| - 1]) + u[|u| - 1])
  }

  /** The wrapping computation yields the documented polynomial reduced to an `int`. */
  lemma {:induction false} StringHashIsPolynomial(u: seq<CodeUnit>)
    ensures StringHash(u) == ToInt32(Polynomial(u))
  {
    if u != [] {
      var p, x := u[..|u| - 1], u[|u| - 1];
      assert u == p + [x];
      StringHashIsPolynomial(p);
      PolynomialSnoc(p, x);
      var y := Polynomial(p);
      var q := (y + TwoTo31) / TwoTo32;
      assert ToInt32(y) == y - TwoTo32 * q;
      assert 31 * ToInt32(y) + x == (31 * y + x) + TwoTo32 * (-31 * q);
      ToInt32Shift(31 * y + x, -31 * q);
    }
  }

  /** The hash of a Java string, taken over its UTF-16 code units. */
  function JavaHashCode(s: string): (r: int)
    ensures IsInt32(r)
  {
    StringHash(Utf16(s))
  }
}
