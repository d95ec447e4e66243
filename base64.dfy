/**
 * Base64 as defined in section 4 of RFC 4648: the standard alphabet, `=`
 * padding to a multiple of four characters, no line breaks. The converter uses
 * it to derive a user's id from `username@provider`.
 */
module Base64 {
  import opened Wrappers

  type byte = x: int | 0 <= x < 256
  type sextet = x: int | 0 <= x < 64

  /** The alphabet of Table 1 in section 4 of RFC 4648. */
  const Alphabet: string := "ABCDEFGHIJKLMNOPQRSTUVWXYZ" + "abcdefghijklmnopqrstuvwxyz" + "0123456789" + "+/"

  /** A character of the alphabet. */
  predicate IsDigit(c: char) {
    'A' <= c <= 'Z' || 'a' <= c <= 'z' || '0' <= c <= '9' || c == '+' || c == '/'
  }

  /** The character that encodes the 6-bit value `i`. */
  function Digit(i: sextet): (c: char)
    ensures IsDigit(c)
  {
    if i < 26 then ('A' as int + i) as char
    else if i < 52 then ('a' as int + i - 26) as char
    else if i < 62 then ('0' as int + i - 52) as char
    else if i == 62 then '+'
    else '/'
  }

  /** The 6-bit value a character of the alphabet stands for; `None` for any other character. */
  function DigitValue(c: char): (r: Option<sextet>)
    ensures r.Some? <==> IsDigit(c)
  {
    if 'A' <= c <= 'Z' then Some(c as int - 'A' as int)
    else if 'a' <= c <= 'z' then Some(c as int - 'a' as int + 26)
    else if '0' <= c <= '9' then Some(c as int - '0' as int + 52)
    else if c == '+' then Some(62)
    else if c == '/' then Some(63)
    else None
  }

  lemma DigitValueOfDigit(i: sextet)
    ensures DigitValue(Digit(i)) == Some(i)
  {
  }

  /** `Digit` enumerates exactly the alphabet of the RFC, in its order. */
  lemma DigitsAreAlphabet()
    ensures |Alphabet| == 64
    ensures forall i: sextet :: Digit(i) == Alphabet[i]
  {
    DigitsFrom0();
    forall i: sextet ensures Digit(i) == Alphabet[i] {
      DigitsFromAt(0, i);
    }
  }

  // Evaluating the alphabet four positions at a time keeps each step small.
  lemma DigitsFrom60() ensures DigitsFrom(60) { }
  lemma DigitsFrom56() ensures DigitsFrom(56) { DigitsFrom60(); }
  lemma DigitsFrom52() ensures DigitsFrom(52) { DigitsFrom56(); }
  lemma DigitsFrom48() ensures DigitsFrom(48) { DigitsFrom52(); }
  lemma DigitsFrom44() ensures DigitsFrom(44) { DigitsFrom48(); }
  lemma DigitsFrom40() ensures DigitsFrom(40) { DigitsFrom44(); }
  lemma DigitsFrom36() ensures DigitsFrom(36) { DigitsFrom40(); }
  lemma DigitsFrom32() ensures DigitsFrom(32) { DigitsFrom36(); }
  lemma DigitsFrom28() ensures DigitsFrom(28) { DigitsFrom32(); }
  lemma DigitsFrom24() ensures DigitsFrom(24) { DigitsFrom28(); }
  lemma DigitsFrom20() ensures DigitsFrom(20) { DigitsFrom24(); }
  lemma DigitsFrom16() ensures DigitsFrom(16) { DigitsFrom20(); }
  lemma DigitsFrom12() ensures DigitsFrom(12) { DigitsFrom16(); }
  lemma DigitsFrom8() ensures DigitsFrom(8) { DigitsFrom12(); }
  lemma DigitsFrom4() ensures DigitsFrom(4) { DigitsFrom8(); }
  lemma DigitsFrom0() ensures DigitsFrom(0) { DigitsFrom4(); }

  /** Positions `k` to 63 of the alphabet agree with `Digit`. */
  predicate DigitsFrom(k: nat)
    decreases 64 - k
  {
    k >= 64 || (k < |Alphabet| && Digit(k) == Alphabet[k] && DigitsFrom(k + 1))
  }

  lemma {:induction false} DigitsFromAt(k: nat, i: sextet)
    requires DigitsFrom(k) && k <= i
    ensures Digit(i) == Alphabet[i]
    decreases i - k
  {
    if k < i { DigitsFromAt(k + 1, i); }
  }

  /** The four characters that encode three bytes. */
  function EncodeGroup(b0: byte, b1: byte, b2: byte): (q: string)
    ensures |q| == 4 && forall i :: 0 <= i < 4 ==> IsDigit(q[i])
  {
    [Digit(b0 / 4), Digit((b0 % 4) * 16 + b1 / 16), Digit((b1 % 16) * 4 + b2 / 64), Digit(b2 % 64)]
  }

  /** The padded group that encodes a last single byte. */
  function EncodeLast1(b0: byte): (q: string)
    ensures |q| == 4 && IsDigit(q[0]) && IsDigit(q[1]) && q[2] == '=' && q[3] == '='
  {
    [Digit(b0 / 4), Digit((b0 % 4) * 16), '=', '=']
  }

  /** The padded group that encodes two last bytes. */
  function EncodeLast2(b0: byte, b1: byte): (q: string)
    ensures |q| == 4 && IsDigit(q[0]) && IsDigit(q[1]) && IsDigit(q[2]) && q[3] == '='
  {
    [Digit(b0 / 4), Digit((b0 % 4) * 16 + b1 / 16), Digit((b1 % 16) * 4), '=']
  }

  /** Encodes a byte string, three bytes to four characters, padding the last group. */
  function Encode(b: seq<byte>): (r: string)
    ensures |r| == 4 * ((|b| + 2) / 3)
    ensures forall i :: 0 <= i < |r| ==> IsDigit(r[i]) || r[i] == '='
    decreases |b|
  {
    if |b| == 0 then ""
    else if |b| == 1 then EncodeLast1(b[0])
    else if |b| == 2 then EncodeLast2(b[0], b[1])
    else
      assert (|b| + 2) / 3 == (|b[3..]| + 2) / 3 + 1;
      EncodeGroup(b[0], b[1], b[2]) + Encode(b[3..])
  }

  /** How many characters of padding the encoding of `n` bytes ends in. */
  function PadLength(n: nat): (p: nat)
    ensures p <= 2
  {
    if n % 3 == 0 then 0 else 3 - n % 3
  }

  /** Every character of `r` is a digit except the last `p`, which are `=`. */
  predicate Padded(r: string, p: nat) {
    p <= |r|
    && (forall i :: 0 <= i < |r| - p ==> IsDigit(r[i]))
    && (forall i :: |r| - p <= i < |r| ==> r[i] == '=')
  }

  /** A group of four digits in front keeps the padding of what follows. */
  lemma PaddedAfterGroup(g: string, rest: string, p: nat)
    requires |g| == 4 && (forall i :: 0 <= i < 4 ==> IsDigit(g[i])) && Padded(rest, p)
    ensures Padded(g + rest, p)
  {
    forall i | 4 <= i < |g + rest| ensures (g + rest)[i] == rest[i - 4] { }
  }

  /**
   * Only the last group is padded: every character is a digit except the
   * last `PadLength(|b|)`, which are `=` (none, `==` after one last byte,
   * `=` after two).
   */
  lemma {:induction false} EncodePadding(b: seq<byte>)
    ensures Padded(Encode(b), PadLength(|b|))
    decreases |b|
  {
    if |b| > 2 {
      EncodePadding(b[3..]);
      PadLengthStep(|b[3..]|);
      PaddedAfterGroup(EncodeGroup(b[0], b[1], b[2]), Encode(b[3..]), PadLength(|b|));
    } else if |b| == 1 {
      assert PadLength(1) == 2;
      var r := EncodeLast1(b[0]);
      assert Padded(r, 2) by { assert forall i :: 2 <= i < 4 ==> r[i] == '='; }
    } else if |b| == 2 {
      assert PadLength(2) == 1;
      var r := EncodeLast2(b[0], b[1]);
      assert Padded(r, 1) by { assert forall i :: 0 <= i < 3 ==> IsDigit(r[i]); }
    }
  }

  lemma PadLengthStep(n: nat)
    ensures PadLength(n + 3) == PadLength(n)
  {
    assert (n + 3) % 3 == n % 3;
  }

  /**
   * Decodes one group of four characters: four digits give three bytes; in the
   * last group, `xy==` gives one byte and `xyz=` two. The bits the padding
   * leaves unused must be zero (section 3.5 of RFC 4648), so every byte string
   * has exactly one encoding that decodes to it.
   */
  function DecodeQuad(q: string, last: bool): (r: Option<seq<byte>>)
    requires |q| == 4
  {
    var v0, v1, v2, v3 := DigitValue(q[0]), DigitValue(q[1]), DigitValue(q[2]), DigitValue(q[3]);
    if v0.None? || v1.None? then None
    else if v2.None? then
      if last && q[2] == '=' && q[3] == '=' && v1.value % 16 == 0 then Some([v0.value * 4 + v1.value / 16]) else None
    else if v3.None? then
      if last && q[3] == '=' && v2.value % 4 == 0 then Some([v0.value * 4 + v1.value / 16, (v1.value % 16) * 16 + v2.value / 4]) else None
    else
      Some([v0.value * 4 + v1.value / 16, (v1.value % 16) * 16 + v2.value / 4, (v2.value % 4) * 64 + v3.value])
  }

  /** Decodes a padded Base64 string group by group; `None` when it is not one. */
  function Decode(s: string): (r: Option<seq<byte>>)
    decreases |s|
  {
    if |s| == 0 then Some([])
    else if |s| < 4 then None
    else
      var head := DecodeQuad(s[..4], |s| == 4);
      var rest := Decode(s[4..]);
      if head.None? || rest.None? then None else Some(head.value + rest.value)
  }

  lemma DivMod16(a: int, q: int, r: int)
    requires 0 <= r < 16 && a == q * 16 + r
    ensures a / 16 == q && a % 16 == r
  {
  }

  lemma DivMod4(a: int, q: int, r: int)
    requires 0 <= r < 4 && a == q * 4 + r
    ensures a / 4 == q && a % 4 == r
  {
  }

  /** Three bytes survive the trip through four sextets. */
  lemma GroupRoundTrip(b0: byte, b1: byte, b2: byte)
    ensures b0 / 4 * 4 + ((b0 % 4) * 16 + b1 / 16) / 16 == b0
    ensures (((b0 % 4) * 16 + b1 / 16) % 16) * 16 + ((b1 % 16) * 4 + b2 / 64) / 4 == b1
    ensures (((b1 % 16) * 4 + b2 / 64) % 4) * 64 + b2 % 64 == b2
  {
    DivMod16((b0 % 4) * 16 + b1 / 16, b0 % 4, b1 / 16);
    DivMod4((b1 % 16) * 4 + b2 / 64, b1 % 16, b2 / 64);
  }

  lemma DecodeGroupQuad(b0: byte, b1: byte, b2: byte, last: bool)
    ensures DecodeQuad(EncodeGroup(b0, b1, b2), last) == Some([b0, b1, b2])
  {
    DigitValueOfDigit(b0 / 4);
    DigitValueOfDigit((b0 % 4) * 16 + b1 / 16);
    DigitValueOfDigit((b1 % 16) * 4 + b2 / 64);
    DigitValueOfDigit(b2 % 64);
    GroupRoundTrip(b0, b1, b2);
  }

  lemma DecodeLast1Quad(b0: byte)
    ensures DecodeQuad(EncodeLast1(b0), true) == Some([b0])
  {
    DigitValueOfDigit(b0 / 4);
    DigitValueOfDigit((b0 % 4) * 16);
    GroupRoundTrip(b0, 0, 0);
  }

  lemma DecodeLast2Quad(b0: byte, b1: byte)
    ensures DecodeQuad(EncodeLast2(b0, b1), true) == Some([b0, b1])
  {
    DigitValueOfDigit(b0 / 4);
    DigitValueOfDigit((b0 % 4) * 16 + b1 / 16);
    DigitValueOfDigit((b1 % 16) * 4);
    GroupRoundTrip(b0, b1, 0);
  }

  /** Decoding a group followed by more text decodes the group, then the rest. */
  lemma DecodeAppend(q: string, rest: string)
    requires |q| == 4
    ensures Decode(q + rest) ==
      var head, tail := DecodeQuad(q, rest == []), Decode(rest);
      if head.None? || tail.None? then None else Some(head.value + tail.value)
  {
    var s := q + rest;
    assert s[..4] == q;
    assert s[4..] == rest;
  }

  lemma SplitFirst3(b: seq<byte>)
    requires |b| >= 3
    ensures [b[0], b[1], b[2]] + b[3..] == b
  {
  }

  lemma DecodeEncode1(b: seq<byte>)
    requires |b| == 1
    ensures Decode(Encode(b)) == Some(b)
  {
    DecodeLast1Quad(b[0]);
    DecodeAppend(EncodeLast1(b[0]), []);
    assert EncodeLast1(b[0]) + [] == Encode(b);
    assert [b[0]] + [] == b;
  }

  lemma DecodeEncode2(b: seq<byte>)
    requires |b| == 2
    ensures Decode(Encode(b)) == Some(b)
  {
    var q := EncodeLast2(b[0], b[1]);
    assert Encode(b) == q;
    DecodeLast2Quad(b[0], b[1]);
    DecodeOneQuad(q);
    assert b == [b[0], b[1]];
  }

  lemma {:induction false} DecodeEncode3(b: seq<byte>)
    requires |b| >= 3
    requires Decode(Encode(b[3..])) == Some(b[3..])
    ensures Decode(Encode(b)) == Some(b)
  {
    var rest := Encode(b[3..]);
    assert Encode(b) == EncodeGroup(b[0], b[1], b[2]) + rest;
    DecodeGroupQuad(b[0], b[1], b[2], rest == []);
    DecodeAppend(EncodeGroup(b[0], b[1], b[2]), rest);
    SplitFirst3(b);
  }

  /** Decoding inverts encoding (section 4 of RFC 4648 defines a bijection on byte strings). */
  lemma {:induction false} DecodeEncode(b: seq<byte>)
    ensures Decode(Encode(b)) == Some(b)
    decreases |b|
  {
    if |b| == 0 {
    } else if |b| == 1 {
      DecodeEncode1(b);
    } else if |b| == 2 {
      DecodeEncode2(b);
    } else {
      DecodeEncode(b[3..]);
      DecodeEncode3(b);
    }
  }

  /** Encoding is injective: distinct byte strings get distinct encodings. */
  lemma EncodeInjective(a: seq<byte>, b: seq<byte>)
    requires Encode(a) == Encode(b)
    ensures a == b
  {
    DecodeEncode(a);
    DecodeEncode(b);
  }

  // ---- Encoding inverts decoding ----

  /** A character of the alphabet is the digit of its value. */
  lemma DigitOfValue(c: char)
    requires IsDigit(c)
    ensures Digit(DigitValue(c).value) == c
  {
  }

  /** Four sextets and the three bytes they carry. */
  lemma SextetsRoundTrip(v0: sextet, v1: sextet, v2: sextet, v3: sextet)
    ensures var b0, b1, b2 := v0 * 4 + v1 / 16, (v1 % 16) * 16 + v2 / 4, (v2 % 4) * 64 + v3;
      b0 / 4 == v0 && (b0 % 4) * 16 + b1 / 16 == v1 && (b1 % 16) * 4 + b2 / 64 == v2 && b2 % 64 == v3
  {
    DivMod4(v0 * 4 + v1 / 16, v0, v1 / 16);
    DivMod16((v1 % 16) * 16 + v2 / 4, v1 % 16, v2 / 4);
    DivMod64((v2 % 4) * 64 + v3, v2 % 4, v3);
  }

  lemma DivMod64(a: int, q: int, r: int)
    requires 0 <= r < 64 && a == q * 64 + r
    ensures a / 64 == q && a % 64 == r
  {
  }

  /** The three bytes four digits stand for. */
  lemma DecodeFullQuad(q: string, last: bool)
    requires |q| == 4 && IsDigit(q[0]) && IsDigit(q[1]) && IsDigit(q[2]) && IsDigit(q[3])
    ensures var v0, v1, v2, v3 := DigitValue(q[0]).value, DigitValue(q[1]).value, DigitValue(q[2]).value, DigitValue(q[3]).value;
      DecodeQuad(q, last) == Some(Pack(v0, v1, v2, v3))
  {
  }

  /** The three bytes four sextets carry, most significant bits first. */
  function Pack(v0: sextet, v1: sextet, v2: sextet, v3: sextet): (b: seq<byte>)
    ensures |b| == 3
  {
    [v0 * 4 + v1 / 16, (v1 % 16) * 16 + v2 / 4, (v2 % 4) * 64 + v3]
  }

  /** Four digits are the digits of their values. */
  lemma DigitsOfValues(q: string)
    requires |q| == 4 && IsDigit(q[0]) && IsDigit(q[1]) && IsDigit(q[2]) && IsDigit(q[3])
    ensures [Digit(DigitValue(q[0]).value), Digit(DigitValue(q[1]).value),
             Digit(DigitValue(q[2]).value), Digit(DigitValue(q[3]).value)] == q
  {
    DigitOfValue(q[0]);
    DigitOfValue(q[1]);
    DigitOfValue(q[2]);
    DigitOfValue(q[3]);
  }

  /** Three bytes whose sextets are known encode to the digits of those sextets. */
  lemma EncodeGroupSextets(b0: byte, b1: byte, b2: byte, v0: sextet, v1: sextet, v2: sextet, v3: sextet)
    requires b0 / 4 == v0 && (b0 % 4) * 16 + b1 / 16 == v1 && (b1 % 16) * 4 + b2 / 64 == v2 && b2 % 64 == v3
    ensures EncodeGroup(b0, b1, b2) == [Digit(v0), Digit(v1), Digit(v2), Digit(v3)]
  {
  }

  lemma EncodeLast2Sextets(b0: byte, b1: byte, v0: sextet, v1: sextet, v2: sextet)
    requires b0 / 4 == v0 && (b0 % 4) * 16 + b1 / 16 == v1 && (b1 % 16) * 4 == v2
    ensures EncodeLast2(b0, b1) == [Digit(v0), Digit(v1), Digit(v2), '=']
  {
  }

  /** A group of four digits is the encoding of the three bytes it decodes to. */
  lemma EncodeGroupOfQuad(q: string, last: bool)
    requires |q| == 4 && IsDigit(q[0]) && IsDigit(q[1]) && IsDigit(q[2]) && IsDigit(q[3])
    ensures DecodeQuad(q, last).Some? && |DecodeQuad(q, last).value| == 3
    ensures var b := DecodeQuad(q, last).value; EncodeGroup(b[0], b[1], b[2]) == q
  {
    var v0, v1, v2, v3 := DigitValue(q[0]).value, DigitValue(q[1]).value, DigitValue(q[2]).value, DigitValue(q[3]).value;
    DecodeFullQuad(q, last);
    EncodeGroupOfSextets(v0, v1, v2, v3);
    DigitsOfValues(q);
  }

  /** The three bytes four sextets pack into encode back to the digits of those sextets. */
  lemma EncodeGroupOfSextets(v0: sextet, v1: sextet, v2: sextet, v3: sextet)
    ensures var b := Pack(v0, v1, v2, v3); EncodeGroup(b[0], b[1], b[2]) == [Digit(v0), Digit(v1), Digit(v2), Digit(v3)]
  {
    SextetsRoundTrip(v0, v1, v2, v3);
    var b := Pack(v0, v1, v2, v3);
    EncodeGroupSextets(b[0], b[1], b[2], v0, v1, v2, v3);
  }

  /** A padded last group is the encoding of the one or two bytes it decodes to. */
  lemma EncodeLastOfQuad(q: string)
    requires |q| == 4 && DecodeQuad(q, true).Some? && !(IsDigit(q[2]) && IsDigit(q[3]))
    ensures var b := DecodeQuad(q, true).value;
      (|b| == 1 && EncodeLast1(b[0]) == q) || (|b| == 2 && EncodeLast2(b[0], b[1]) == q)
  {
    if IsDigit(q[2]) { EncodeLast2OfQuad(q); } else { EncodeLast1OfQuad(q); }
  }

  lemma EncodeLast1OfQuad(q: string)
    requires |q| == 4 && DecodeQuad(q, true).Some? && !IsDigit(q[2])
    ensures var b := DecodeQuad(q, true).value; |b| == 1 && EncodeLast1(b[0]) == q
  {
    var v0: int, v1: int := DigitValue(q[0]).value, DigitValue(q[1]).value;
    var b: seq<byte> := [v0 * 4 + v1 / 16];
    assert DecodeQuad(q, true) == Some(b) && q[2] == '=' && q[3] == '=' && v1 % 16 == 0;
    DigitOfValue(q[0]);
    DigitOfValue(q[1]);
    SextetsRoundTrip(v0, v1, 0, 0);
  }

  lemma EncodeLast2OfQuad(q: string)
    requires |q| == 4 && DecodeQuad(q, true).Some? && IsDigit(q[2]) && !IsDigit(q[3])
    ensures var b := DecodeQuad(q, true).value; |b| == 2 && EncodeLast2(b[0], b[1]) == q
  {
    var v0: int, v1: int, v2: int := DigitValue(q[0]).value, DigitValue(q[1]).value, DigitValue(q[2]).value;
    var b: seq<byte> := [v0 * 4 + v1 / 16, (v1 % 16) * 16 + v2 / 4];
    assert DecodeQuad(q, true) == Some(b) && q[3] == '=' && v2 % 4 == 0;
    SextetsRoundTrip(v0, v1, v2, 0);
    EncodeLast2Sextets(b[0], b[1], v0, v1, v2);
    DigitOfValue(q[0]);
    DigitOfValue(q[1]);
    DigitOfValue(q[2]);
  }

  /** Whatever decodes is the one encoding of what it decodes to. */
  lemma {:induction false} EncodeDecode(s: string)
    requires Decode(s).Some?
    ensures Encode(Decode(s).value) == s
    decreases |s|
  {
    if |s| > 0 {
      var q, rest := s[..4], s[4..];
      var head := DecodeQuad(q, |s| == 4);
      assert s == q + rest;
      if |s| == 4 {
        assert rest == [] && Decode(rest) == Some([]);
        if IsDigit(q[2]) && IsDigit(q[3]) {
          EncodeGroupOfQuad(q, true);
          var b := head.value;
          assert Decode(s).value == b;
          assert Encode(b) == EncodeGroup(b[0], b[1], b[2]) + Encode(b[3..]);
        } else {
          EncodeLastOfQuad(q);
          assert Decode(s).value == head.value;
        }
      } else {
        assert IsDigit(q[0]) && IsDigit(q[1]) && IsDigit(q[2]) && IsDigit(q[3]);
        EncodeGroupOfQuad(q, false);
        EncodeDecode(rest);
        var b := head.value + Decode(rest).value;
        assert Decode(s).value == b;
        assert b[3..] == Decode(rest).value;
        assert Encode(b) == EncodeGroup(b[0], b[1], b[2]) + Encode(b[3..]);
      }
    }
  }

  /** A byte string has exactly one base64 text that decodes to it. */
  lemma DecodeUnique(s: string, b: seq<byte>)
    requires Decode(s) == Some(b)
    ensures s == Encode(b)
  {
    EncodeDecode(s);
  }

  /** A text of more than one group decodes its first group, then the rest. */
  lemma DecodeStep(q: string, rest: string)
    requires |q| == 4 && rest != []
    ensures Decode(q + rest) ==
      var head, tail := DecodeQuad(q, false), Decode(rest);
      if head.None? || tail.None? then None else Some(head.value + tail.value)
  {
    assert (q + rest)[..4] == q && (q + rest)[4..] == rest;
  }

  /** A text of one group decodes as a last group. */
  lemma DecodeOneQuad(q: string)
    requires |q| == 4
    ensures Decode(q) == DecodeQuad(q, true)
  {
    assert q[..4] == q && q[4..] == [];
    var head := DecodeQuad(q, true);
    if head.Some? { assert head.value + [] == head.value; }
  }
}
