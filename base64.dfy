/**
 * The base64 encoder of smaller_kitty.c (`base64_table` and `base64_encode`),
 * the encoding of section 4 of RFC 4648 with `=` padding.
 *
 * `Encode` states the encoding character by character: output character `j`
 * belongs to the 24-bit group `j / 4` and is field `j % 4` of it, most
 * significant six bits first; the last `PadCount` characters are `=`.
 * `Decode` is an independent decoder written from the RFC (the program has
 * none); `DecodeEncode` proves that it undoes `Encode` on every input.
 * `EncodeInto` is the C routine itself: a loop that fills the caller's buffer
 * four characters per group and then overwrites the padding in place.
 */
module Base64 {
  import opened Common

  // The 64-character table, written as three pieces so that indexing it
  // stays cheap for the verifier; together they are exactly the C literal.
  const Upper: string := "ABCDEFGHIJKLMNOPQRSTUVWXYZ"
  const Lower: string := "abcdefghijklmnopqrstuvwxyz"
  const DigitsAndSigns: string := "0123456789+/"
  const Alphabet: string := Upper + Lower + DigitsAndSigns

  /** Characters of the alphabet (table 1 of RFC 4648). */
  predicate InAlphabet(c: char)
  {
    ('A' <= c <= 'Z') || ('a' <= c <= 'z') || ('0' <= c <= '9') || c == '+' || c == '/'
  }

  /** The 6-bit value an alphabet character stands for; `=` and others give 0. */
  function SextetValue(c: char): (v: nat)
    ensures v < 64
  {
    if 'A' <= c <= 'Z' then c as int - 'A' as int
    else if 'a' <= c <= 'z' then c as int - 'a' as int + 26
    else if '0' <= c <= '9' then c as int - '0' as int + 52
    else if c == '+' then 62
    else if c == '/' then 63
    else 0
  }

  lemma UpperAt(v: nat)
    requires v < 26
    ensures Upper[v] as int == 'A' as int + v
  {
  }

  lemma LowerAt(v: nat)
    requires v < 26
    ensures Lower[v] as int == 'a' as int + v
  {
  }

  lemma DigitsAndSignsAt(v: nat)
    requires v < 12
    ensures DigitsAndSigns[v] as int ==
              if v < 10 then '0' as int + v else if v == 10 then '+' as int else '/' as int
  {
  }

  /** The character that stands for the 6-bit value `v` (table 1 of RFC 4648). */
  function AlphabetChar(v: nat): char
    requires v < 64
  {
    if v < 26 then ('A' as int + v) as char
    else if v < 52 then ('a' as int + v - 26) as char
    else if v < 62 then ('0' as int + v - 52) as char
    else if v == 62 then '+'
    else '/'
  }

  /** The C table holds the RFC alphabet: entry `v` is the character for `v`. */
  lemma TableIsAlphabet(v: nat)
    requires v < 64
    ensures Alphabet[v] == AlphabetChar(v)
  {
    if v < 26 {
      UpperAt(v);
      assert Alphabet[v] == Upper[v];
    } else if v < 52 {
      LowerAt(v - 26);
      assert Alphabet[v] == Lower[v - 26];
    } else {
      DigitsAndSignsAt(v - 52);
      assert Alphabet[v] == DigitsAndSigns[v - 52];
    }
  }

  /** Every value has an alphabet character, and reading that character back gives the value. */
  lemma AlphabetInverse(v: nat)
    requires v < 64
    ensures InAlphabet(AlphabetChar(v)) && SextetValue(AlphabetChar(v)) == v
  {
  }

  /** `4 * ((n + 2) / 3)`: four characters for every started group of three bytes. */
  function EncodedLength(n: nat): nat
  {
    4 * ((n + 2) / 3)
  }

  /** `mod_table[n % 3]`: how many trailing characters become `=`. */
  function PadCount(n: nat): nat
  {
    if n % 3 == 0 then 0 else if n % 3 == 1 then 2 else 1
  }

  /** Byte `k` of the input, or 0 past its end (the zero fill of the last group). */
  function Octet(s: seq<byte>, k: nat): nat
  {
    if k < |s| then s[k] as nat else 0
  }

  /** The big-endian 24-bit value of group `g`. */
  function Triple(s: seq<byte>, g: nat): (t: nat)
    ensures t < 0x100_0000
  {
    Octet(s, 3 * g) * 0x1_0000 + Octet(s, 3 * g + 1) * 0x100 + Octet(s, 3 * g + 2)
  }

  /** Six-bit field `f` of a 24-bit value, field 0 being the most significant. */
  function Sextet(t: nat, f: nat): (v: nat)
    requires f < 4
    ensures v < 64
  {
    if f == 0 then (t / 0x4_0000) % 64
    else if f == 1 then (t / 0x1000) % 64
    else if f == 2 then (t / 0x40) % 64
    else t % 64
  }

  /** Character `j` of the encoding of `s` before padding: field `j % 4` of group `j / 4`. */
  function RawChar(s: seq<byte>, j: nat): char
  {
    AlphabetChar(Sextet(Triple(s, j / 4), j % 4))
  }

  /** Group by group, the table entries of the fields are the characters before padding. */
  lemma GroupsAreRawChars(s: seq<byte>, w: seq<char>, groups: nat)
    requires 4 * groups <= |w|
    requires forall q, f | 0 <= q < groups && 0 <= f < 4 :: w[4 * q + f] == Alphabet[Sextet(Triple(s, q), f)]
    ensures forall k | 0 <= k < 4 * groups :: w[k] == RawChar(s, k)
  {
    forall k | 0 <= k < 4 * groups
      ensures w[k] == RawChar(s, k)
    {
      var q, f := k / 4, k % 4;
      assert w[4 * q + f] == Alphabet[Sextet(Triple(s, q), f)];
      TableIsAlphabet(Sextet(Triple(s, q), f));
    }
  }

  /**
   * A buffer whose groups hold the table entries of the fields, with its last
   * `PadCount` characters then overwritten by `=`, holds the encoding.
   */
  lemma PaddedGroupsAreEncoding(s: seq<byte>, unpadded: seq<char>, w: seq<char>)
    requires EncodedLength(|s|) <= |unpadded| && EncodedLength(|s|) <= |w|
    requires forall q, f | 0 <= q < (|s| + 2) / 3 && 0 <= f < 4 ::
               unpadded[4 * q + f] == Alphabet[Sextet(Triple(s, q), f)]
    requires forall k | 0 <= k < EncodedLength(|s|) - PadCount(|s|) :: w[k] == unpadded[k]
    requires forall k | EncodedLength(|s|) - PadCount(|s|) <= k < EncodedLength(|s|) :: w[k] == '='
    ensures w[..EncodedLength(|s|)] == Encode(s)
  {
    GroupsAreRawChars(s, unpadded, (|s| + 2) / 3);
    assert forall k | 0 <= k < EncodedLength(|s|) :: w[k] == Encode(s)[k];
  }

  /** Character `j` of the encoding of `s`. */
  function EncodedChar(s: seq<byte>, j: nat): char
  {
    if j >= EncodedLength(|s|) - PadCount(|s|) then '=' else RawChar(s, j)
  }

  /** The base64 encoding of `s` (section 4 of RFC 4648). */
  function Encode(s: seq<byte>): (r: string)
    ensures |r| == EncodedLength(|s|)
  {
    seq(EncodedLength(|s|), j requires 0 <= j => EncodedChar(s, j))
  }

  // ---------------------------------------------------------------------
  // A decoder, written from the RFC, used as the partner of Encode.

  /** How many `=` end `t` (at most two are padding). */
  function TrailingPads(t: string): (p: nat)
    ensures p <= 2 && p <= |t|
  {
    if |t| >= 2 && t[|t| - 1] == '=' && t[|t| - 2] == '=' then 2
    else if |t| >= 1 && t[|t| - 1] == '=' then 1
    else 0
  }

  /** The 24-bit value carried by the four characters of group `g`. */
  function GroupValue(t: string, g: nat): (v: nat)
    requires 4 * g + 3 < |t|
  {
    SextetValue(t[4 * g]) * 0x4_0000 + SextetValue(t[4 * g + 1]) * 0x1000
    + SextetValue(t[4 * g + 2]) * 0x40 + SextetValue(t[4 * g + 3])
  }

  /** Byte `m` of the decoded text: byte `m % 3` of group `m / 3`. */
  function DecodedByte(t: string, m: nat): byte
    requires 4 * (m / 3) + 3 < |t|
  {
    var v := GroupValue(t, m / 3);
    var b := if m % 3 == 0 then v / 0x1_0000 else if m % 3 == 1 then v / 0x100 else v;
    (b % 256) as byte
  }

  /**
   * Decodes `t`: its length must be a multiple of four and every character
   * before the (at most two) trailing `=` must be in the alphabet.
   */
  function Decode(t: string): (r: Option<seq<byte>>)
    ensures r.Some? ==> |t| % 4 == 0 && |r.value| == 3 * (|t| / 4) - TrailingPads(t)
  {
    if |t| % 4 != 0 then None
    else if exists j | 0 <= j < |t| - TrailingPads(t) :: !InAlphabet(t[j]) then None
    else
      var n := 3 * (|t| / 4) - TrailingPads(t);
      Some(seq(n, m requires 0 <= m < n => DecodedByte(t, m)))
  }

  // ---------------------------------------------------------------------
  // Properties of the encoding.

  /**
   * Exactly `PadCount(|s|)` trailing characters are `=` (0, 2, 1 for
   * `|s| % 3` = 0, 1, 2) and every character before them is an alphabet
   * character.
   */
  lemma PaddingShape(s: seq<byte>)
    ensures var r := Encode(s);
      && |r| == 4 * ((|s| + 2) / 3)
      && (forall j | |r| - PadCount(|s|) <= j < |r| :: r[j] == '=')
      && (forall j | 0 <= j < |r| - PadCount(|s|) :: InAlphabet(r[j]))
      && TrailingPads(r) == PadCount(|s|)
  {
    var r := Encode(s);
    var L := |r|;
    var p := PadCount(|s|);
    forall j | 0 <= j < L - p
      ensures InAlphabet(r[j])
    {
      AlphabetInverse(Sextet(Triple(s, j / 4), j % 4));
    }
    if p < L {
      AlphabetInverse(Sextet(Triple(s, (L - p - 1) / 4), (L - p - 1) % 4));
    }
    if p == 1 {
      assert InAlphabet(r[L - 2]);
    }
  }

  /** The six-bit fields of a 24-bit value put back together give the value. */
  lemma SextetsRecombine(t: nat)
    requires t < 0x100_0000
    ensures Sextet(t, 0) * 0x4_0000 + Sextet(t, 1) * 0x1000 + Sextet(t, 2) * 0x40 + Sextet(t, 3) == t
  {
    var q1 := t / 0x40;
    var q2 := t / 0x1000;
    var q3 := t / 0x4_0000;
    assert t == q1 * 0x40 + t % 64;
    assert q1 == q2 * 64 + q1 % 64;
    assert q2 == q3 * 64 + q2 % 64;
    assert q3 < 64;
  }

  /** Splitting a 24-bit value into three bytes gives back the bytes it was built from. */
  lemma OctetsOfTriple(a: nat, b: nat, c: nat)
    requires a < 256 && b < 256 && c < 256
    ensures var t := a * 0x1_0000 + b * 0x100 + c;
      (t / 0x1_0000) % 256 == a && (t / 0x100) % 256 == b && t % 256 == c
  {
    var t := a * 0x1_0000 + b * 0x100 + c;
    assert t / 0x100 == a * 0x100 + b;
    assert t / 0x1_0000 == a;
  }

  /** A padding position always carries a zero field, so reading `=` as 0 loses nothing. */
  lemma PaddingFieldIsZero(s: seq<byte>, j: nat)
    requires EncodedLength(|s|) - PadCount(|s|) <= j < EncodedLength(|s|)
    ensures Sextet(Triple(s, j / 4), j % 4) == 0
  {
    var n := |s|;
    var g := j / 4;
    assert g == (n + 2) / 3 - 1;
    if n % 3 == 1 {
      assert 3 * g == n - 1;
      assert Triple(s, g) == s[n - 1] as nat * 0x1_0000;
    } else {
      assert n % 3 == 2 && 3 * g == n - 2 && j % 4 == 3;
      assert Triple(s, g) == s[n - 2] as nat * 0x1_0000 + s[n - 1] as nat * 0x100;
    }
  }

  /** Every character of the encoding reads back as the field it encodes. */
  lemma EncodedCharValue(s: seq<byte>, g: nat, f: nat)
    requires f < 4 && 4 * g + f < EncodedLength(|s|)
    ensures SextetValue(Encode(s)[4 * g + f]) == Sextet(Triple(s, g), f)
  {
    var j := 4 * g + f;
    assert j / 4 == g && j % 4 == f;
    if j >= EncodedLength(|s|) - PadCount(|s|) {
      PaddingFieldIsZero(s, j);
    } else {
      AlphabetInverse(Sextet(Triple(s, g), f));
    }
  }

  /** Four characters whose values are the fields of `t` carry the value `t`. */
  lemma GroupValueOfFields(r: string, g: nat, t: nat)
    requires 4 * g + 3 < |r| && t < 0x100_0000
    requires forall f | 0 <= f < 4 :: SextetValue(r[4 * g + f]) == Sextet(t, f)
    ensures GroupValue(r, g) == t
  {
    assert SextetValue(r[4 * g + 0]) == Sextet(t, 0);
    assert SextetValue(r[4 * g + 1]) == Sextet(t, 1);
    assert SextetValue(r[4 * g + 2]) == Sextet(t, 2);
    assert SextetValue(r[4 * g + 3]) == Sextet(t, 3);
    SextetsRecombine(t);
  }

  /** Each group of four characters of the encoding carries its group's 24-bit value. */
  lemma GroupValueOfEncode(s: seq<byte>, g: nat)
    requires 4 * g + 3 < EncodedLength(|s|)
    ensures GroupValue(Encode(s), g) == Triple(s, g)
  {
    forall f | 0 <= f < 4
      ensures SextetValue(Encode(s)[4 * g + f]) == Sextet(Triple(s, g), f)
    {
      EncodedCharValue(s, g, f);
    }
    GroupValueOfFields(Encode(s), g, Triple(s, g));
  }

  /** The byte decoded at `m` is the matching byte of its group's value. */
  lemma DecodedByteOfGroup(r: string, m: nat, a: nat, b: nat, c: nat)
    requires 4 * (m / 3) + 3 < |r| && a < 256 && b < 256 && c < 256
    requires GroupValue(r, m / 3) == a * 0x1_0000 + b * 0x100 + c
    ensures DecodedByte(r, m) as nat == if m % 3 == 0 then a else if m % 3 == 1 then b else c
  {
    OctetsOfTriple(a, b, c);
  }

  /** Byte `m` decoded from the encoding of `s` is byte `m` of `s`. */
  lemma DecodedByteOfEncode(s: seq<byte>, m: nat)
    requires m < |s|
    ensures 4 * (m / 3) + 3 < |Encode(s)| && DecodedByte(Encode(s), m) == s[m]
  {
    var g := m / 3;
    assert 4 * g + 3 < EncodedLength(|s|);
    GroupValueOfEncode(s, g);
    DecodedByteOfGroup(Encode(s), m, Octet(s, 3 * g), Octet(s, 3 * g + 1), Octet(s, 3 * g + 2));
    assert m == 3 * g + m % 3;
  }

  /** What Decode needs to know about a text to return exactly `s`. */
  lemma DecodeWhen(r: string, s: seq<byte>)
    requires |r| % 4 == 0 && 3 * (|r| / 4) - TrailingPads(r) == |s|
    requires forall j | 0 <= j < |r| - TrailingPads(r) :: InAlphabet(r[j])
    requires forall m | 0 <= m < |s| :: 4 * (m / 3) + 3 < |r| && DecodedByte(r, m) == s[m]
    ensures Decode(r) == Some(s)
  {
    assert Decode(r).value == s;
  }

  /** Round trip: decoding the encoding of any byte sequence gives it back. */
  lemma DecodeEncode(s: seq<byte>)
    ensures Decode(Encode(s)) == Some(s)
  {
    var r := Encode(s);
    assert |r| % 4 == 0 && 3 * (|r| / 4) - TrailingPads(r) == |s|
        && forall j | 0 <= j < |r| - TrailingPads(r) :: InAlphabet(r[j]) by {
      PaddingShape(s);
    }
    assert forall m | 0 <= m < |s| :: 4 * (m / 3) + 3 < |r| && DecodedByte(r, m) == s[m] by {
      forall m | 0 <= m < |s|
        ensures 4 * (m / 3) + 3 < |r| && DecodedByte(r, m) == s[m]
      {
        DecodedByteOfEncode(s, m);
      }
    }
    DecodeWhen(r, s);
  }

  /** Different inputs never share an encoding. */
  lemma EncodeInjective(s: seq<byte>, u: seq<byte>)
    requires Encode(s) == Encode(u)
    ensures s == u
  {
    DecodeEncode(s);
    DecodeEncode(u);
  }

  /**
   * Encoding works group by group: when the first part is a whole number of
   * groups, the encoding of a concatenation is the concatenation of the encodings.
   */
  lemma EncodeAppend(a: seq<byte>, b: seq<byte>)
    requires |a| % 3 == 0
    ensures Encode(a + b) == Encode(a) + Encode(b)
  {
    var ab := a + b;
    var G := |a| / 3;
    GroupCounts(|a|, |b|);
    forall j | 0 <= j < |Encode(ab)|
      ensures Encode(ab)[j] == (Encode(a) + Encode(b))[j]
    {
      var g := j / 4;
      if j < 4 * G {
        assert g < G;
        assert Triple(ab, g) == Triple(a, g);
      } else {
        ShiftedIndex(j, G);
        assert 3 * g - |a| == 3 * (g - G);
        assert Triple(ab, g) == Triple(b, g - G);
      }
    }
  }

  /** Lengths and padding of a concatenation whose first part is a whole number of groups. */
  lemma GroupCounts(n: nat, m: nat)
    requires n % 3 == 0
    ensures EncodedLength(n + m) == EncodedLength(n) + EncodedLength(m) && EncodedLength(n) == 4 * (n / 3)
    ensures PadCount(n + m) == PadCount(m)
  {
  }

  /** Position `j` past `groups` whole groups is position `j - 4 * groups` of the rest, in the same field. */
  lemma ShiftedIndex(j: nat, groups: nat)
    requires 4 * groups <= j
    ensures (j - 4 * groups) / 4 == j / 4 - groups && (j - 4 * groups) % 4 == j % 4
  {
  }

  // ---------------------------------------------------------------------
  // The C routine.

  /** A group that starts inside the input has its four characters inside the encoding. */
  lemma GroupFits(n: nat, g: nat)
    requires 3 * g < n
    ensures g < (n + 2) / 3 && 4 * g + 4 <= EncodedLength(n)
  {
  }

  /**
   * One turn of the encoding loop: reads up to three octets from `i`
   * (missing ones count as 0) and writes the four table entries of group
   * `g` at `encoded[j..j + 4]`; returns where the next group starts.
   */
  method EncodeGroup(data: seq<byte>, encoded: array<char>, i: nat, j: nat, ghost g: nat) returns (next: nat)
    requires i == 3 * g < |data| && j == 4 * g && j + 4 <= encoded.Length
    modifies encoded
    ensures next == Min(3 * g + 3, |data|)
    ensures forall f | 0 <= f < 4 :: encoded[4 * g + f] == Alphabet[Sextet(Triple(data, g), f)]
    ensures forall k | 0 <= k < encoded.Length && !(4 * g <= k < 4 * g + 4) :: encoded[k] == old(encoded[k])
  {
    next := i;
    var octetA, octetB, octetC := 0, 0, 0;
    if next < |data| { octetA := data[next] as int; next := next + 1; }
    if next < |data| { octetB := data[next] as int; next := next + 1; }
    if next < |data| { octetC := data[next] as int; next := next + 1; }
    var triple := octetA * 0x1_0000 + octetB * 0x100 + octetC;
    assert triple == Triple(data, g);
    encoded[j] := Alphabet[(triple / 0x4_0000) % 64];
    encoded[j + 1] := Alphabet[(triple / 0x1000) % 64];
    encoded[j + 2] := Alphabet[(triple / 0x40) % 64];
    encoded[j + 3] := Alphabet[triple % 64];
  }

  /**
   * `base64_encode(data, input_length, encoded_data)`: writes the encoding of
   * `data` into the first `4 * ((n + 2) / 3)` cells of `encoded` and returns
   * that length; an empty input writes nothing and returns 0. The caller must
   * supply a buffer at least that long (write_chunked allocates one more).
   */
  method EncodeInto(data: seq<byte>, encoded: array<char>) returns (outputLength: nat)
    requires EncodedLength(|data|) <= encoded.Length
    modifies encoded
    ensures outputLength == EncodedLength(|data|)
    ensures encoded[..outputLength] == Encode(data)
    ensures encoded[outputLength..] == old(encoded[outputLength..])
  {
    outputLength := 4 * ((|data| + 2) / 3);
    var i, j := 0, 0;
    ghost var g := 0;
    while i < |data|
      invariant i == Min(3 * g, |data|) && g <= (|data| + 2) / 3
      invariant j == 4 * g
      invariant forall q, f | 0 <= q < g && 0 <= f < 4 :: encoded[4 * q + f] == Alphabet[Sextet(Triple(data, q), f)]
      invariant forall k | j <= k < encoded.Length :: encoded[k] == old(encoded[k])
    {
      GroupFits(|data|, g);
      i := EncodeGroup(data, encoded, i, j, g);
      j := j + 4;
      g := g + 1;
    }
    assert g == (|data| + 2) / 3;
    ghost var unpadded := encoded[..];
    var padding := PadCount(|data|);
    var k := 0;
    while k < padding
      invariant k <= padding <= outputLength
      invariant forall q | 0 <= q < outputLength - k :: encoded[q] == unpadded[q]
      invariant forall q | outputLength - k <= q < outputLength :: encoded[q] == '='
      invariant forall q | outputLength <= q < encoded.Length :: encoded[q] == unpadded[q]
    {
      encoded[outputLength - 1 - k] := '=';
      k := k + 1;
    }
    PaddedGroupsAreEncoding(data, unpadded, encoded[..]);
  }
}
