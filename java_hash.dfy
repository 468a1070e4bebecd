/**
 * The Java library hashes that `Objects.hash(name, id)` combines: `int`
 * arithmetic that wraps modulo 2^32, `String.hashCode` over UTF-16 code
 * units, and `Long.hashCode`.
 */
module JavaHash {
  import opened JavaLong

  const TWO_31: int := 0x8000_0000
  const TWO_32: int := 0x1_0000_0000

  /** Values of a Java `int`. */
  type Int = x: int | -0x8000_0000 <= x < 0x8000_0000

  /** The `int` that Java arithmetic leaves behind for the exact value `x`. */
  function Wrap32(x: int): (r: Int)
    ensures (r - x) % TWO_32 == 0
    ensures -TWO_31 <= x < TWO_31 ==> r == x
  {
    var m := x % TWO_32;
    if m >= TWO_31 then m - TWO_32 else m
  }

  /** Values that agree modulo 2^32 wrap to the same `int`. */
  lemma Wrap32Congruent(a: int, b: int)
    requires (a - b) % TWO_32 == 0
    ensures Wrap32(a) == Wrap32(b)
  {
    var k := (a - b) / TWO_32;
    var q := b / TWO_32;
    assert a == (q + k) * TWO_32 + b % TWO_32;
  }

  /** Wrapping an intermediate result of `31 * h + c` changes nothing. */
  lemma Wrap32Step(h: int, c: int)
    ensures Wrap32(31 * Wrap32(h) + c) == Wrap32(31 * h + c)
  {
    var k := (Wrap32(h) - h) / TWO_32;
    assert (31 * Wrap32(h) + c) - (31 * h + c) == (31 * k) * TWO_32;
    Wrap32Congruent(31 * Wrap32(h) + c, 31 * h + c);
  }

  /** The UTF-16 code units of one Unicode scalar value. */
  function Utf16(c: char): (units: seq<int>)
    ensures 1 <= |units| <= 2
    ensures forall i :: 0 <= i < |units| ==> 0 <= units[i] < 0x1_0000
    ensures |units| == 1 <==> c as int < 0x1_0000
    ensures |units| == 1 ==> units[0] == c as int
    ensures |units| == 2 ==>
      0xD800 <= units[0] < 0xDC00 && 0xDC00 <= units[1] < 0xE000 &&
      0x1_0000 + (units[0] - 0xD800) * 0x400 + (units[1] - 0xDC00) == c as int
  {
    if c as int < 0x1_0000 then [c as int]
    else
      var v := c as int - 0x1_0000;
      [0xD800 + v / 0x400, 0xDC00 + v % 0x400]
  }

  /** The UTF-16 code units of a string, as a Java `String` stores them. */
  function CodeUnits(s: string): (units: seq<int>)
    ensures |s| <= |units| <= 2 * |s|
    decreases |s|
  {
    if s == [] then [] else CodeUnits(s[..|s| - 1]) + Utf16(s[|s| - 1])
  }

  /** The loop of `String.hashCode`: `h = 31 * h + unit`, in `int` arithmetic. */
  function HashUnits(units: seq<int>): Int
    decreases |units|
  {
    if units == [] then 0
    else Wrap32(31 * HashUnits(units[..|units| - 1]) + units[|units| - 1])
  }

  /** The same polynomial in the code units, computed without overflow. */
  function Polynomial(units: seq<int>): int
    decreases |units|
  {
    if units == [] then 0
    else 31 * Polynomial(units[..|units| - 1]) + units[|units| - 1]
  }

  /** Overflow at every step gives the exact polynomial taken modulo 2^32. */
  lemma {:induction false} HashUnitsIsPolynomial(units: seq<int>)
    ensures HashUnits(units) == Wrap32(Polynomial(units))
    decreases |units|
  {
    if units != [] {
      var p := units[..|units| - 1];
      HashUnitsIsPolynomial(p);
      Wrap32Step(Polynomial(p), units[|units| - 1]);
    }
  }

  /** `String.hashCode`. */
  function StringHash(s: string): Int {
    HashUnits(CodeUnits(s))
  }

  function Pow2(w: nat): (p: nat)
    ensures p > 0
  {
    if w == 0 then 1 else 2 * Pow2(w - 1)
  }

  lemma {:induction false} Pow2Add(a: nat, b: nat)
    ensures Pow2(a + b) == Pow2(a) * Pow2(b)
    decreases a
  {
    if a > 0 {
      Pow2Add(a - 1, b);
    }
  }

  lemma Pow2Of32()
    ensures Pow2(32) == TWO_32
  {
    assert Pow2(2) == 4;
    Pow2Add(2, 2);
    Pow2Add(4, 4);
    Pow2Add(8, 8);
    Pow2Add(16, 16);
  }

  /** Bitwise exclusive or of two non-negative numbers, lowest bit first. */
  function Xor(a: nat, b: nat): nat
    decreases a + b
  {
    if a == 0 && b == 0 then 0 else (a % 2 + b % 2) % 2 + 2 * Xor(a / 2, b / 2)
  }

  /** `a ^ 0 == a`. */
  lemma {:induction false} XorZero(a: nat)
    ensures Xor(a, 0) == a
    decreases a
  {
    if a != 0 {
      XorZero(a / 2);
    }
  }

  /** Exclusive or with `w` one bits complements a `w`-bit number. */
  lemma {:induction false} XorOnes(a: nat, w: nat)
    requires a < Pow2(w)
    ensures Xor(a, Pow2(w) - 1) == Pow2(w) - 1 - a
    decreases w
  {
    if w > 0 {
      var ones := Pow2(w) - 1;
      assert ones / 2 == Pow2(w - 1) - 1 && ones % 2 == 1;
      XorOnes(a / 2, w - 1);
    }
  }

  /** `Long.hashCode`: `(int) (value ^ (value >>> 32))`. */
  function LongHash(x: Long): Int {
    var u := Unsigned(x);
    Wrap32(Xor(u % TWO_32, u / TWO_32))
  }

  /** A `long` that fits in an `int` hashes to itself if non-negative, and to its complement otherwise. */
  lemma LongHashOfInt(x: Long)
    requires -TWO_31 <= x < TWO_31
    ensures 0 <= x ==> LongHash(x) == x
    ensures x < 0 ==> LongHash(x) == -1 - x
  {
    var u := Unsigned(x);
    if 0 <= x {
      XorZero(u);
    } else {
      assert u / TWO_32 == TWO_32 - 1 && u % TWO_32 == TWO_32 + x;
      Pow2Of32();
      XorOnes(u % TWO_32, 32);
    }
  }

  /** `Objects.hash(a, b)`: starting from 1, each element does `r = 31 * r + hash`. */
  function ObjectsHash2(h1: Int, h2: Int): (r: Int)
    ensures r == Wrap32(31 * 31 + 31 * h1 + h2)
  {
    var r1 := Wrap32(31 * 1 + h1);
    Wrap32Step(31 + h1, h2);
    Wrap32(31 * r1 + h2)
  }
}
