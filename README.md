# ReactionEmoji — a verified Dafny model

This project models `ReactionEmoji` from Discord4J. It is the immutable value that
says which emoji was used on a message reaction. It has two final fields:

- `name`: the text of a unicode emoji, or the display name of a custom guild emoji.
- `id`: a Java `long`. The value 0 marks a unicode emoji.

Two factories build it. `fromGuildEmoji(name, id)` stores both values as given.
`fromUnicode(s)` stores `s` with id 0. `toString` gives the name of a unicode emoji
and `<name:id>` for a guild emoji, with the id printed as an *unsigned* 64-bit
decimal. `equals` compares both fields, and `hashCode` is `Objects.hash(name, id)`.

Layout, one module per concern:

- `option.dfy` (`Wrappers`): `Option`, used by the parsers.
- `decimal.dfy` (`Decimal`): `UDec`, the decimal rendering of a natural number, as a
  recursive function. It also holds a digit parser (`Value`, `Parse`). Proved: the
  rendering is non-empty, all digits, never has a `-`, and has no leading zero
  unless the value is 0. Parsing it gives the number back. Every such canonical
  digit string is the rendering of its value, so `UDec` is a bijection.
- `java_long.dfy` (`JavaLong`): `long` as an integer in [-2^63, 2^63).
  - `Unsigned` and `Signed` reinterpret the 64 bits as unsigned or signed.
  - `ToUnsignedString` is `Long.toUnsignedString`.
  - `ParseUnsigned` is its inverse. It accepts canonical digits only, so each `long`
    has exactly one text that reads back to it. It does not model any source method.
- `java_hash.dfy` (`JavaHash`): Java `int` overflow (`Wrap32`), `String.hashCode`
  over UTF-16 code units, `Long.hashCode` and the two-element `Objects.hash`.
- `reaction_emoji.dfy` (`Reactions`): the `ReactionEmoji` datatype and the class's
  factories, accessors, `toString`, `equals` and `hashCode`. `ParseMention` reads
  a `<name:id>` mention back. It is the independent inverse that `toString` is
  proved against; it does not model any source method.

Two behaviours of the class that a reader might not expect, both modelled as written:

- Discord ids are unsigned 64-bit numbers, but the class stores the id in a signed
  `long` (ReactionEmoji.java line 63). `getLongID` returns it signed, and only
  `toString` reads it unsigned (line 95).
- `equals` calls `obj.getClass()` (line 100), so a null argument throws instead of
  returning false. The model compares two `ReactionEmoji` values only.

## Model

| member | source | states |
|---|---|---|
| `Reactions.FromGuildEmoji` | src/main/java/sx/blah/discord/handle/impl/obj/ReactionEmoji.java:48-50 | name and id are stored verbatim (`GetName`/`GetLongID` return them); the result is unicode exactly when the id is 0 |
| `Reactions.FromUnicode` | src/main/java/sx/blah/discord/handle/impl/obj/ReactionEmoji.java:58-60 | the name is the given text, the id is 0, and the emoji is unicode |
| `Reactions.IsUnicodeIffZeroId` | src/main/java/sx/blah/discord/handle/impl/obj/ReactionEmoji.java:84-86 | `isUnicode()` holds if and only if `getLongID()` is 0 |
| `Reactions.SentinelConflation` | src/main/java/sx/blah/discord/handle/impl/obj/ReactionEmoji.java:48-60 | `fromGuildEmoji(s, id)` equals `fromUnicode(s)` if and only if id is 0 |
| `Reactions.ToString` | src/main/java/sx/blah/discord/handle/impl/obj/ReactionEmoji.java:94-96 | a unicode emoji renders as its name; a guild emoji's rendering parses back as a mention to exactly its name and id |
| `Reactions.GuildToString` | src/main/java/sx/blah/discord/handle/impl/obj/ReactionEmoji.java:95 | a guild emoji renders as `<` name `:` digits `>`, where the digits are canonical, hold no minus sign and denote the unsigned id |
| `Reactions.MentionRoundTrip` | src/main/java/sx/blah/discord/handle/impl/obj/ReactionEmoji.java:95 | every `<name:unsigned id>` mention parses back to that name and id, even when the name contains `:` |
| `Reactions.MentionDeterminesText` | src/main/java/sx/blah/discord/handle/impl/obj/ReactionEmoji.java:95 | a text that parses as a mention to (name, id) is exactly `<name:unsigned id>`, so `ToString`'s guild clause fixes the text completely |
| `Reactions.ToStringExamples` | src/main/java/sx/blah/discord/handle/impl/obj/ReactionEmoji.java:95 | `fromUnicode("😀")` renders as `😀`; `fromGuildEmoji("pepe", 123456789012345)` renders as `<pepe:123456789012345>` |
| `Reactions.Equals` | src/main/java/sx/blah/discord/handle/impl/obj/ReactionEmoji.java:99-104 | `equals` holds exactly when the two values are the same (name and id both equal) |
| `Reactions.EqualsIsEquivalence` | src/main/java/sx/blah/discord/handle/impl/obj/ReactionEmoji.java:99-104 | `equals` is reflexive, symmetric and transitive |
| `Reactions.HashConsistentWithEquals` | src/main/java/sx/blah/discord/handle/impl/obj/ReactionEmoji.java:107-109 | equal emoji have equal hash codes |
| `Reactions.HashCodeClosedForm` | src/main/java/sx/blah/discord/handle/impl/obj/ReactionEmoji.java:107-109 | the hash equals 31·31 + 31·(polynomial of the name's UTF-16 units) + hash of the id, reduced once to a 32-bit `int` |
| `JavaHash.ObjectsHash2` | src/main/java/sx/blah/discord/handle/impl/obj/ReactionEmoji.java:108 | `Objects.hash(a, b)` with overflow at each step equals 31·31 + 31·a + b reduced once to an `int` |
| `JavaHash.Wrap32` | src/main/java/sx/blah/discord/handle/impl/obj/ReactionEmoji.java:108 | `int` overflow keeps the value modulo 2^32, and leaves values already in `int` range unchanged |
| `JavaHash.HashUnitsIsPolynomial` | src/main/java/sx/blah/discord/handle/impl/obj/ReactionEmoji.java:108 | `String.hashCode`, overflowing at every step, equals the exact base-31 polynomial of the code units taken modulo 2^32 |
| `JavaHash.Utf16` | src/main/java/sx/blah/discord/handle/impl/obj/ReactionEmoji.java:108 | a character is one code unit below U+10000, else a high/low surrogate pair that decodes back to it |
| `JavaHash.LongHashOfInt` | src/main/java/sx/blah/discord/handle/impl/obj/ReactionEmoji.java:108 | `Long.hashCode` of a value in `int` range is the value itself if non-negative, its bitwise complement if negative |
| `JavaLong.Unsigned` | src/main/java/sx/blah/discord/handle/impl/obj/ReactionEmoji.java:95 | the unsigned reading lies in [0, 2^64), has the same bits (congruent modulo 2^64), and is at least 2^63 exactly when the `long` is negative |
| `JavaLong.UnsignedUnique` | src/main/java/sx/blah/discord/handle/impl/obj/ReactionEmoji.java:95 | `Unsigned(x)` is the only value in [0, 2^64) congruent to x modulo 2^64 |
| `JavaLong.Signed` | src/main/java/sx/blah/discord/handle/impl/obj/ReactionEmoji.java:63 | reading 64 unsigned bits as a `long` keeps them modulo 2^64 and is negative exactly when the top bit is set; the source has no such conversion, and this member (the partner of `Unsigned`) shows that keeping an unsigned Discord id in the signed field loses nothing |
| `JavaLong.SignedOfUnsigned` | src/main/java/sx/blah/discord/handle/impl/obj/ReactionEmoji.java:63 | reading a `long` unsigned and back is the identity, so the signed field and the unsigned id it renders carry the same information |
| `JavaLong.UnsignedOfSigned` | src/main/java/sx/blah/discord/handle/impl/obj/ReactionEmoji.java:63 | every unsigned 64-bit id survives being kept in the signed field: reading it as a `long` and back is the identity |
| `JavaLong.ToUnsignedString` | src/main/java/sx/blah/discord/handle/impl/obj/ReactionEmoji.java:95 | `Long.toUnsignedString` is canonical decimal text with no minus sign that parses to `Unsigned(x)` |
| `JavaLong.ParseUnsignedRoundTrip` | src/main/java/sx/blah/discord/handle/impl/obj/ReactionEmoji.java:95 | the unsigned text of every `long` reads back as that `long` |
| `JavaLong.ToUnsignedStringInjective` | src/main/java/sx/blah/discord/handle/impl/obj/ReactionEmoji.java:95 | distinct ids render as distinct digit strings |
| `JavaLong.ParseUnsignedOnlyCanonical` | src/main/java/sx/blah/discord/handle/impl/obj/ReactionEmoji.java:95 | the only text that reads back as a `long` x is `Long.toUnsignedString(x)`: no leading zeros or other spellings |
| `JavaLong.AllOnesPrintsUnsigned` | src/main/java/sx/blah/discord/handle/impl/obj/ReactionEmoji.java:95 | the `long` -1 renders as `18446744073709551615`, not as a negative number |
| `Decimal.UDec` | src/main/java/sx/blah/discord/handle/impl/obj/ReactionEmoji.java:95 | the rendering is non-empty and all digits, has no `-`, and starts with `0` exactly when the value is 0 |
| `Decimal.ParseUDec` | src/main/java/sx/blah/discord/handle/impl/obj/ReactionEmoji.java:95 | parsing the rendering of n gives n |
| `Decimal.UDecOfValue` | src/main/java/sx/blah/discord/handle/impl/obj/ReactionEmoji.java:95 | every canonical digit string is the rendering of the number it denotes |
| `Decimal.UDecInjective` | src/main/java/sx/blah/discord/handle/impl/obj/ReactionEmoji.java:95 | distinct numbers have distinct renderings |

## Left out

- `fromGuildEmoji(IEmoji)` (lines 37-39) takes an `IEmoji` and passes its name and
  id to the two-argument factory. `IEmoji` is not part of this model, so only
  `FromGuildEmoji(name, id)` is modelled.
- `equals` against `null` or an object of another class (line 100): the reflective
  class test and the exception on `null` are Java runtime behaviour. `Equals` takes
  two `ReactionEmoji` values.
- Names are never null. In the source nothing rejects a null name (lines 48-50,
  58-60): `toString` then returns `null` for id 0 and `<null:…>` otherwise (line 95),
  `hashCode` hashes the name as 0 (line 108), and `equals` throws when the
  argument's name is null (line 103). None of this is modelled.
- Names are Dafny strings of Unicode scalar values. A Java `String` holding an
  unpaired surrogate cannot be represented, so it is not covered by `StringHash`.
- `GetName`, `GetLongID` and `IsUnicode` return a field or compare it and carry no
  contract of their own. The factories' contracts and `IsUnicodeIffZeroId` state
  what they return.
- The rest of the Discord client is not part of this model: gateway, REST, caches,
  the `IIDLinkedObject` and `IEmoji` interfaces.
