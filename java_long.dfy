/**
 * Java's signed 64-bit `long` and the unsigned reading of its bits that
 * `Long.toUnsignedString` prints.
 */
module JavaLong {
  import opened Wrappers
  import opened Decimal

  const TWO_63: int := 0x8000_0000_0000_0000
  const TWO_64: int := 0x1_0000_0000_0000_0000

  /** Values of a Java `long`. */
  type Long = x: int | -0x8000_0000_0000_0000 <= x < 0x8000_0000_0000_0000

  /** The same 64 bits read as an unsigned number. */
  type ULong = u: int | 0 <= u < 0x1_0000_0000_0000_0000

  /** Reads the two's-complement bits of `x` as an unsigned number. */
  function Unsigned(x: Long): (u: ULong)
    ensures (u - x) % TWO_64 == 0
    ensures x < 0 <==> u >= TWO_63
  {
    if x < 0 then x + TWO_64 else x
  }

  /** Reads 64 unsigned bits as a two's-complement `long`. */
  function Signed(u: ULong): (x: Long)
    ensures (u - x) % TWO_64 == 0
    ensures x < 0 <==> u >= TWO_63
  {
    if u >= TWO_63 then u - TWO_64 else u
  }

  /** `Unsigned(x)` is the only unsigned 64-bit value with the bits of `x`. */
  lemma UnsignedUnique(x: Long, u: ULong)
    requires (u - x) % TWO_64 == 0
    ensures u == Unsigned(x)
  {
  }

  lemma SignedOfUnsigned(x: Long)
    ensures Signed(Unsigned(x)) == x
  {
  }

  lemma UnsignedOfSigned(u: ULong)
    ensures Unsigned(Signed(u)) == u
  {
  }

  /**
   * `Long.toUnsignedString`: the decimal text of the unsigned reading of `x`.
   * It never carries a minus sign and has no leading zero.
   */
  function ToUnsignedString(x: Long): (s: string)
    ensures Canonical(s) && '-' !in s
    ensures Parse(s) == Some(Unsigned(x))
  {
    ParseUDec(Unsigned(x));
    UDec(Unsigned(x))
  }

  /**
   * Reads unsigned decimal text back into a `long`: canonical digits only
   * (no sign, no leading zero), at most 2^64 - 1, reinterpreted as a signed
   * value.
   */
  function ParseUnsigned(s: string): Option<Long> {
    if !Canonical(s) then None
    else
      match Parse(s)
      case Some(n) => if n < TWO_64 then Some(Signed(n)) else None
      case None => None
  }

  /** The only text that reads back as `x` is the unsigned text of `x`. */
  lemma ParseUnsignedOnlyCanonical(s: string, x: Long)
    requires ParseUnsigned(s) == Some(x)
    ensures s == ToUnsignedString(x)
  {
    UDecOfValue(s);
    UnsignedOfSigned(Value(s));
  }

  /** The unsigned text of every `long` reads back as that `long`. */
  lemma ParseUnsignedRoundTrip(x: Long)
    ensures ParseUnsigned(ToUnsignedString(x)) == Some(x)
  {
  }

  /** Distinct longs print differently. */
  lemma ToUnsignedStringInjective(x: Long, y: Long)
    ensures ToUnsignedString(x) == ToUnsignedString(y) ==> x == y
  {
  }

  /** The decimal text of 2^64 - 1, one digit at a time. */
  lemma UDecMaxULong()
    ensures UDec(18446744073709551615) == "18446744073709551615"
  {
    assert UDec(1) == "1";
    UDecAppend(18, "1", '8');
    UDecAppend(184, "18", '4');
    UDecAppend(1844, "184", '4');
    UDecAppend(18446, "1844", '6');
    UDecAppend(184467, "18446", '7');
    UDecAppend(1844674, "184467", '4');
    UDecAppend(18446744, "1844674", '4');
    UDecAppend(184467440, "18446744", '0');
    UDecAppend(1844674407, "184467440", '7');
    UDecAppend(18446744073, "1844674407", '3');
    UDecAppend(184467440737, "18446744073", '7');
    UDecAppend(1844674407370, "184467440737", '0');
    UDecAppend(18446744073709, "1844674407370", '9');
    UDecAppend(184467440737095, "18446744073709", '5');
    UDecAppend(1844674407370955, "184467440737095", '5');
    UDecAppend(18446744073709551, "1844674407370955", '1');
    UDecAppend(184467440737095516, "18446744073709551", '6');
    UDecAppend(1844674407370955161, "184467440737095516", '1');
    UDecAppend(18446744073709551615, "1844674407370955161", '5');
  }

  /** The `long` whose bits are all ones prints as 2^64 - 1, not as -1. */
  lemma AllOnesPrintsUnsigned()
    ensures ToUnsignedString(-1) == "18446744073709551615"
  {
    UDecMaxULong();
  }
}
