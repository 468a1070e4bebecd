/**
 * The emoji on a Discord reaction: either a unicode emoji, identified by its
 * text, or a custom guild emoji, identified by a 64-bit id. An id of 0 marks
 * the unicode case. This is a value type: two instances with the same name
 * and id are interchangeable.
 */
module Reactions {
  import opened Wrappers
  import opened Decimal
  import opened JavaLong
  import opened JavaHash

  /** The two final fields; only the factories below build one. */
  datatype ReactionEmoji = ReactionEmoji(name: string, id: Long)

  /** The id that marks a unicode emoji. */
  const UNICODE_ID: Long := 0

  /** A reaction emoji with the given guild emoji's name and id, stored as given. */
  function FromGuildEmoji(name: string, id: Long): (e: ReactionEmoji)
    ensures GetName(e) == name && GetLongID(e) == id
    ensures IsUnicode(e) <==> id == UNICODE_ID
  {
    ReactionEmoji(name, id)
  }

  /** A reaction emoji for the unicode text `unicode`, with the sentinel id. */
  function FromUnicode(unicode: string): (e: ReactionEmoji)
    ensures GetName(e) == unicode && GetLongID(e) == UNICODE_ID
    ensures IsUnicode(e)
  {
    ReactionEmoji(unicode, UNICODE_ID)
  }

  function GetName(e: ReactionEmoji): string {
    e.name
  }

  function GetLongID(e: ReactionEmoji): Long {
    e.id
  }

  predicate IsUnicode(e: ReactionEmoji) {
    e.id == UNICODE_ID
  }

  /**
   * The text of the emoji: the name itself for a unicode emoji, and the
   * mention `<name:id>` for a guild emoji, with the id printed unsigned.
   * `ParseMention` accepts only canonical digits, so its result fixes the
   * guild text completely (`MentionDeterminesText`); `GuildToString` spells
   * that text out.
   */
  function ToString(e: ReactionEmoji): (s: string)
    ensures IsUnicode(e) ==> s == e.name
    ensures !IsUnicode(e) ==> ParseMention(s) == Some((e.name, e.id))
  {
    if IsUnicode(e) then GetName(e)
    else
      MentionRoundTrip(e.name, e.id);
      Mention(e.name, e.id)
  }

  /** `<name:digits>`, the form Discord uses to mention a custom emoji. */
  function Mention(name: string, id: Long): string {
    "<" + name + ":" + ToUnsignedString(id) + ">"
  }

  /** Index of the last ':' in `t`, if any. */
  function LastColon(t: string): (k: Option<nat>)
    ensures k.Some? ==>
      && k.value < |t| && t[k.value] == ':'
      && forall i :: k.value < i < |t| ==> t[i] != ':'
    ensures k.None? ==> ':' !in t
    decreases |t|
  {
    if t == [] then None
    else if t[|t| - 1] == ':' then Some(|t| - 1)
    else LastColon(t[..|t| - 1])
  }

  /**
   * Reads a mention back: `<`, a name, `:`, the id as unsigned decimal
   * digits, `>`. The name ends at the last ':' since the digits hold none.
   */
  function ParseMention(s: string): Option<(string, Long)> {
    if |s| < 2 || s[0] != '<' || s[|s| - 1] != '>' then None
    else
      var body := s[1..|s| - 1];
      match LastColon(body)
      case None => None
      case Some(k) =>
        match ParseUnsigned(body[k + 1..])
        case None => None
        case Some(id) => Some((body[..k], id))
  }

  lemma LastColonAfterName(name: string, digits: string)
    requires ':' !in digits
    ensures LastColon(name + ":" + digits) == Some(|name|)
  {
    var t := name + ":" + digits;
    assert t[|name|] == ':';
    assert forall i :: |name| < i < |t| ==> t[i] == digits[i - |name| - 1];
  }

  /** Every mention reads back as the name and id it was built from. */
  lemma MentionRoundTrip(name: string, id: Long)
    ensures ParseMention(Mention(name, id)) == Some((name, id))
  {
    var digits := ToUnsignedString(id);
    var s := Mention(name, id);
    var body := name + ":" + digits;
    assert s[1..|s| - 1] == body;
    LastColonAfterName(name, digits);
    assert body[|name| + 1..] == digits;
    assert body[..|name|] == name;
    ParseUnsignedRoundTrip(id);
  }

  /** A mention is the only text that parses back to its name and id. */
  lemma MentionDeterminesText(s: string, name: string, id: Long)
    requires ParseMention(s) == Some((name, id))
    ensures s == Mention(name, id)
  {
    var body := s[1..|s| - 1];
    var k := LastColon(body).value;
    ParseUnsignedOnlyCanonical(body[k + 1..], id);
    assert body == name + ":" + ToUnsignedString(id);
    assert s == [s[0]] + body + [s[|s| - 1]];
  }

  /** A guild emoji's text is exactly `<name:digits>`, the digits being the unsigned id. */
  lemma GuildToString(e: ReactionEmoji)
    requires !IsUnicode(e)
    ensures exists digits ::
      ToString(e) == "<" + e.name + ":" + digits + ">" &&
      Canonical(digits) && '-' !in digits && Value(digits) == Unsigned(e.id)
  {
    var digits := ToUnsignedString(e.id);
    assert ToString(e) == "<" + e.name + ":" + digits + ">";
  }

  lemma UDecOfSampleId()
    ensures UDec(123456789012345) == "123456789012345"
  {
    assert UDec(1) == "1";
    UDecAppend(12, "1", '2');
    UDecAppend(123, "12", '3');
    UDecAppend(1234, "123", '4');
    UDecAppend(12345, "1234", '5');
    UDecAppend(123456, "12345", '6');
    UDecAppend(1234567, "123456", '7');
    UDecAppend(12345678, "1234567", '8');
    UDecAppend(123456789, "12345678", '9');
    UDecAppend(1234567890, "123456789", '0');
    UDecAppend(12345678901, "1234567890", '1');
    UDecAppend(123456789012, "12345678901", '2');
    UDecAppend(1234567890123, "123456789012", '3');
    UDecAppend(12345678901234, "1234567890123", '4');
    UDecAppend(123456789012345, "12345678901234", '5');
  }

  /** A unicode emoji prints as itself; a guild emoji prints as a mention. */
  lemma ToStringExamples()
    ensures ToString(FromUnicode("\U{1F600}")) == "\U{1F600}"
    ensures ToString(FromGuildEmoji("pepe", 123456789012345)) == "<pepe:123456789012345>"
  {
    UDecOfSampleId();
    assert Mention("pepe", 123456789012345) == "<pepe:123456789012345>";
  }

  /** An emoji is unicode exactly when its id is the sentinel 0. */
  lemma IsUnicodeIffZeroId(e: ReactionEmoji)
    ensures IsUnicode(e) <==> GetLongID(e) == 0
  {
  }

  /** A guild emoji built with id 0 cannot be told apart from a unicode emoji. */
  lemma SentinelConflation(s: string, id: Long)
    ensures FromGuildEmoji(s, id) == FromUnicode(s) <==> id == 0
  {
  }

  /** `equals`: the names are equal and the ids are equal. */
  function Equals(self: ReactionEmoji, other: ReactionEmoji): (r: bool)
    ensures r <==> self == other
  {
    other.name == self.name && other.id == self.id
  }

  /** `equals` is an equivalence relation. */
  lemma EqualsIsEquivalence()
    ensures forall a: ReactionEmoji :: Equals(a, a)
    ensures forall a: ReactionEmoji, b: ReactionEmoji :: Equals(a, b) <==> Equals(b, a)
    ensures forall a: ReactionEmoji, b: ReactionEmoji, c: ReactionEmoji ::
      Equals(a, b) && Equals(b, c) ==> Equals(a, c)
  {
  }

  /** `hashCode`: `Objects.hash(name, id)`. */
  function HashCode(e: ReactionEmoji): Int {
    ObjectsHash2(StringHash(e.name), LongHash(e.id))
  }

  /**
   * With every overflow folded into one: the hash is the exact value
   * 31 * 31 + 31 * (polynomial of the name's code units) + hash of the id,
   * taken modulo 2^32.
   */
  lemma HashCodeClosedForm(e: ReactionEmoji)
    ensures HashCode(e) == Wrap32(31 * 31 + 31 * Polynomial(CodeUnits(e.name)) + LongHash(e.id))
  {
    var p := Polynomial(CodeUnits(e.name));
    HashUnitsIsPolynomial(CodeUnits(e.name));
    Wrap32Step(p, 31 * 31 + LongHash(e.id));
  }

  /** Equal emoji have equal hashes. */
  lemma HashConsistentWithEquals(a: ReactionEmoji, b: ReactionEmoji)
    requires Equals(a, b)
    ensures HashCode(a) == HashCode(b)
  {
  }
}
