/**
 The hex decoder of the webhook receiver (`hexToUint8Array`).

 The decoder cuts its input into two-character pieces, reads each piece with
 `parseInt(piece, 16)` and stores the number into a `Uint8Array` whose length is
 half the input length, rounded down. The model is total: it follows parseInt
 (section 19.2.5 of ECMA-262) and the typed-array store on every two-character
 piece, so that malformed text decodes to the same bytes it would decode to at
 run time. Bytes are `int`s in 0..255.

 `ParseInt16` keeps the exact integer a digit run denotes, where parseInt
 returns the nearest double. The two agree below 2^53, and every piece the
 decoder parses is worth less than 256 in absolute value.
 */
module Hex {
  import opened Options

  /** A base-16 digit in either case. */
  predicate IsHexDigit(c: char) {
    ('0' <= c <= '9') || ('a' <= c <= 'f') || ('A' <= c <= 'F')
  }

  /** The value of one base-16 digit. */
  function HexVal(c: char): (v: nat)
    requires IsHexDigit(c)
    ensures v < 16
  {
    if '0' <= c <= '9' then c as int - '0' as int
    else if 'a' <= c <= 'f' then c as int - 'a' as int + 10
    else c as int - 'A' as int + 10
  }

  /** The lower-case digit for a value below 16: the inverse of HexVal. */
  function HexDigit(v: nat): (c: char)
    requires v < 16
    ensures IsHexDigit(c) && HexVal(c) == v
    ensures !('A' <= c <= 'F')
  {
    if v < 10 then ('0' as int + v) as char else ('a' as int + v - 10) as char
  }

  /** A text made only of base-16 digits (of any length). */
  predicate IsHexString(s: seq<char>) {
    forall i | 0 <= i < |s| :: IsHexDigit(s[i])
  }

  /** A text made only of lower-case base-16 digits. */
  predicate IsLowerHex(s: seq<char>) {
    forall i | 0 <= i < |s| :: IsHexDigit(s[i]) && !('A' <= s[i] <= 'F')
  }

  /** A sequence of integers each of which fits in one byte. */
  predicate IsByteSeq(bytes: seq<int>) {
    forall k | 0 <= k < |bytes| :: 0 <= bytes[k] < 256
  }

  function Min(a: int, b: int): int {
    if a <= b then a else b
  }

  // ---------------------------------------------------------------------
  // parseInt(s, 16) and the Uint8Array store
  // ---------------------------------------------------------------------

  /** The characters parseInt skips before a number: ECMAScript's WhiteSpace
      (tab, vertical tab, form feed, the byte order mark and every Unicode
      space separator) and LineTerminator characters. */
  predicate IsStrWhiteSpace(c: char) {
    || c == '\t' || c == '\n' || c == '\U{000B}' || c == '\U{000C}' || c == '\r'
    || c == ' ' || c == '\U{00A0}' || c == '\U{1680}' || ('\U{2000}' <= c <= '\U{200A}')
    || c == '\U{2028}' || c == '\U{2029}' || c == '\U{202F}' || c == '\U{205F}'
    || c == '\U{3000}' || c == '\U{FEFF}'
  }

  /** The text with its leading white space removed. */
  function TrimStart(s: seq<char>): (t: seq<char>)
    ensures |t| <= |s|
    ensures |t| > 0 ==> !IsStrWhiteSpace(t[0])
  {
    if |s| > 0 && IsStrWhiteSpace(s[0]) then TrimStart(s[1..]) else s
  }

  /** The length of the longest prefix made of base-16 digits. */
  function HexRun(s: seq<char>): (n: nat)
    ensures n <= |s|
    ensures forall i | 0 <= i < n :: IsHexDigit(s[i])
    ensures n < |s| ==> !IsHexDigit(s[n])
  {
    if |s| > 0 && IsHexDigit(s[0]) then 1 + HexRun(s[1..]) else 0
  }

  /** The number a run of base-16 digits denotes, most significant first. */
  function HexNumber(ds: seq<char>): nat
    requires IsHexString(ds)
  {
    if |ds| == 0 then 0 else 16 * HexNumber(ds[..|ds| - 1]) + HexVal(ds[|ds| - 1])
  }

  /** The unsigned number at the start of a text: a `0x`/`0X` prefix is
      dropped and the longest run of digits that follows is the number; no
      digits at all gives None. */
  function ParseMagnitude(u: seq<char>): Option<nat>
  {
    var w := if |u| >= 2 && u[0] == '0' && (u[1] == 'x' || u[1] == 'X') then u[2..] else u;
    var n := HexRun(w);
    if n == 0 then None else Some(HexNumber(w[..n]))
  }

  /** A number after the white space: one `-` or `+` is read, then the
      unsigned number. */
  function ParseSigned(t: seq<char>): Option<int>
  {
    if |t| > 0 && t[0] == '-' then
      match ParseMagnitude(t[1..])
      case None => None
      case Some(m) => Some(-(m as int))
    else if |t| > 0 && t[0] == '+' then ParseMagnitude(t[1..])
    else ParseMagnitude(t)
  }

  /** `parseInt(s, 16)`; None stands for NaN. Leading white space is skipped
      before the signed number is read. The result is the exact integer, not
      the double parseInt rounds it to, so it is faithful for values of
      magnitude below 2^53. */
  function ParseInt16(s: seq<char>): Option<int>
  {
    ParseSigned(TrimStart(s))
  }

  /** The value a `Uint8Array` element holds after a number is stored in it:
      NaN becomes 0 and every integer is taken modulo 256. */
  function ToUint8(n: Option<int>): (b: int)
    ensures 0 <= b < 256
    ensures n.None? ==> b == 0
    ensures n.Some? ==> (b - n.value) % 256 == 0
  {
    match n
    case None => 0
    case Some(v) => v % 256
  }

  /** `parseInt` on a text of exactly two characters, case by case: a digit
      followed by a non-digit is read alone, except that `0x` and `0X` are a
      prefix with no digits after it; a leading white space or `+` leaves one
      character to read; a leading `-` negates the digit after it. */
  function ParsePair(a: char, b: char): (r: Option<int>)
    ensures r.Some? ==> -16 < r.value < 256
  {
    if IsHexDigit(a) then
      if IsHexDigit(b) then Some(16 * HexVal(a) + HexVal(b))
      else if a == '0' && (b == 'x' || b == 'X') then None
      else Some(HexVal(a))
    else if !IsHexDigit(b) then None
    else if a == '-' then Some(-(HexVal(b) as int))
    else if a == '+' || IsStrWhiteSpace(a) then Some(HexVal(b))
    else None
  }

  /** Two base-16 digits are read as the byte they denote. */
  lemma DigitPairByte(a: char, b: char)
    requires IsHexDigit(a) && IsHexDigit(b)
    ensures ToUint8(ParsePair(a, b)) == 16 * HexVal(a) + HexVal(b)
  {
    assert !IsStrWhiteSpace(a);
  }

  lemma MagnitudeOfOne(b: char)
    ensures ParseMagnitude([b]) == if IsHexDigit(b) then Some(HexVal(b)) else None
  {
    if IsHexDigit(b) {
      assert HexRun([b]) == 1 by {
        assert [b][1..] == [];
      }
      assert [b][..1] == [b];
      assert [b][..0] == [];
      assert HexNumber([b]) == 16 * HexNumber([]) + HexVal(b);
    }
  }

  lemma MagnitudeOfTwo(a: char, b: char)
    ensures ParseMagnitude([a, b]) ==
      if !IsHexDigit(a) || (a == '0' && (b == 'x' || b == 'X')) then None
      else if IsHexDigit(b) then Some(16 * HexVal(a) + HexVal(b))
      else Some(HexVal(a))
  {
    var s := [a, b];
    assert s[1..] == [b];
    assert [b][1..] == [];
    if a == '0' && (b == 'x' || b == 'X') {
      assert s[2..] == [];
    } else if IsHexDigit(a) {
      if IsHexDigit(b) {
        assert HexRun(s) == 2;
        assert s[..2] == s;
        assert s[..1] == [a];
        assert [a][..0] == [];
        assert HexNumber([a]) == 16 * HexNumber([]) + HexVal(a);
        assert HexNumber(s) == 16 * HexNumber([a]) + HexVal(b);
      } else {
        assert HexRun(s) == 1;
        assert s[..1] == [a];
        assert [a][..0] == [];
        assert HexNumber([a]) == 16 * HexNumber([]) + HexVal(a);
      }
    }
  }

  lemma TrimStartPair(a: char, b: char)
    ensures TrimStart([a, b]) ==
      if !IsStrWhiteSpace(a) then [a, b]
      else if IsStrWhiteSpace(b) then []
      else [b]
  {
    assert [a, b][1..] == [b];
    assert [b][1..] == [];
  }

  lemma SignedOfOne(b: char)
    requires !IsStrWhiteSpace(b)
    ensures ParseSigned([b]) == if IsHexDigit(b) then Some(HexVal(b)) else None
  {
    assert [b][1..] == [];
    assert ParseMagnitude([]) == None;
    MagnitudeOfOne(b);
  }

  lemma SignedOfTwo(a: char, b: char)
    requires !IsStrWhiteSpace(a)
    ensures ParseSigned([a, b]) == ParsePair(a, b)
  {
    if a == '-' || a == '+' {
      assert [a, b][1..] == [b];
      MagnitudeOfOne(b);
    } else {
      MagnitudeOfTwo(a, b);
    }
  }

  /** The case analysis agrees with parseInt on every two-character text. */
  lemma ParsePairAgrees(a: char, b: char)
    ensures ParseInt16([a, b]) == ParsePair(a, b)
    ensures ParseInt16([a, b]).Some? ==> -16 < ParseInt16([a, b]).value < 256
  {
    TrimStartPair(a, b);
    if !IsStrWhiteSpace(a) {
      assert TrimStart([a, b]) == [a, b];
      SignedOfTwo(a, b);
      assert ParseInt16([a, b]) == ParseSigned([a, b]);
    } else if IsStrWhiteSpace(b) {
      assert TrimStart([a, b]) == [];
      assert ParseMagnitude([]) == None;
      assert ParseInt16([a, b]) == None;
      assert ParsePair(a, b) == None;
    } else {
      assert TrimStart([a, b]) == [b];
      SignedOfOne(b);
      assert ParseInt16([a, b]) == ParseSigned([b]);
    }
  }

  /** The piece `hex.substring(i, i + 2)` of an in-range store is read as
      the two characters at i and i + 1. */
  lemma PieceIsPair(hex: seq<char>, i: nat)
    requires i + 2 <= |hex|
    ensures ParseInt16(hex[i..Min(i + 2, |hex|)]) == ParsePair(hex[i], hex[i + 1])
  {
    assert hex[i..Min(i + 2, |hex|)] == [hex[i], hex[i + 1]];
    ParsePairAgrees(hex[i], hex[i + 1]);
  }

  // ---------------------------------------------------------------------
  // The decoder
  // ---------------------------------------------------------------------

  /** The byte the piece of two characters starting at 2k is stored as. */
  function PairByte(hex: seq<char>, k: nat): int
    requires 2 * k + 2 <= |hex|
  {
    ToUint8(ParsePair(hex[2 * k], hex[2 * k + 1]))
  }

  /** The bytes `hexToUint8Array` returns, one per piece of two characters;
      an odd trailing character is dropped. */
  function Decode(hex: seq<char>): (bytes: seq<int>)
    ensures |bytes| == |hex| / 2
    ensures IsByteSeq(bytes)
  {
    if |hex| < 2 then []
    else [ToUint8(ParsePair(hex[0], hex[1]))] + Decode(hex[2..])
  }

  /** Byte k is the piece of two characters starting at 2k, read by parseInt
      and stored into a byte. */
  lemma {:induction false} DecodeAt(hex: seq<char>, k: nat)
    requires k < |hex| / 2
    ensures Decode(hex)[k] == PairByte(hex, k)
  {
    if k > 0 {
      DecodeAt(hex[2..], k - 1);
      assert hex[2..][2 * (k - 1)] == hex[2 * k];
      assert hex[2..][2 * (k - 1) + 1] == hex[2 * k + 1];
    }
  }

  /** The value an in-range store of the loop writes: the piece
      `hex.substring(i, i + 2)` read by parseInt and converted to a byte. It
      is the byte the decoder gives for index i/2. */
  method StorePiece(hex: seq<char>, i: nat) returns (value: int)
    requires i % 2 == 0 && i + 2 <= |hex|
    ensures value == Decode(hex)[i / 2]
  {
    var piece := hex[i..Min(i + 2, |hex|)];
    value := ToUint8(ParseInt16(piece));
    PieceIsPair(hex, i);
    DecodeAt(hex, i / 2);
  }

  /** The loop of `hexToUint8Array`: an array of |hex|/2 zeros, then for
      i = 0, 2, 4, ... the piece `hex.substring(i, i + 2)` is read by parseInt
      and stored at index i/2. A store past the end of the array (the odd
      trailing character) is ignored, as typed arrays ignore out-of-range
      writes. */
  method HexToUint8Array(hex: seq<char>) returns (uint8: seq<int>)
    ensures |uint8| == |hex| / 2
    ensures IsByteSeq(uint8)
    ensures uint8 == Decode(hex)
  {
    uint8 := seq(|hex| / 2, _ => 0);
    var i := 0;
    while i < |hex|
      invariant i % 2 == 0 && i <= |hex| + 1
      invariant |uint8| == |hex| / 2
      invariant forall k | 0 <= k < |uint8| && 2 * k < i :: uint8[k] == Decode(hex)[k]
      invariant forall k | 0 <= k < |uint8| && i <= 2 * k :: uint8[k] == 0
    {
      if i / 2 < |uint8| {
        var value := StorePiece(hex, i);
        uint8 := uint8[i / 2 := value];
      }
      i := i + 2;
    }
    assert forall k | 0 <= k < |uint8| :: uint8[k] == Decode(hex)[k];
  }

  // ---------------------------------------------------------------------
  // Well-formed input
  // ---------------------------------------------------------------------

  /** Byte k is 16 times the value of digit 2k plus the value of digit 2k+1
      whenever those two characters are base-16 digits, whatever the rest of
      the text holds; an odd trailing digit does not matter. */
  lemma DecodeDigits(hex: seq<char>, k: nat)
    requires k < |hex| / 2 && IsHexDigit(hex[2 * k]) && IsHexDigit(hex[2 * k + 1])
    ensures Decode(hex)[k] == 16 * HexVal(hex[2 * k]) + HexVal(hex[2 * k + 1])
  {
    DecodeAt(hex, k);
    DigitPairByte(hex[2 * k], hex[2 * k + 1]);
  }

  // ---------------------------------------------------------------------
  // The encoder and the round trip
  // ---------------------------------------------------------------------

  /** The lower-case hex encoding of a byte sequence, two digits per byte. */
  function Encode(bytes: seq<int>): (hex: seq<char>)
    requires IsByteSeq(bytes)
    ensures |hex| == 2 * |bytes|
    ensures IsLowerHex(hex)
  {
    if |bytes| == 0 then []
    else [HexDigit(bytes[0] / 16), HexDigit(bytes[0] % 16)] + Encode(bytes[1..])
  }

  /** The two digits written for a byte are read back as that byte. */
  lemma ByteDigitsRoundTrip(b: int)
    requires 0 <= b < 256
    ensures ToUint8(ParsePair(HexDigit(b / 16), HexDigit(b % 16))) == b
  {
    DigitPairByte(HexDigit(b / 16), HexDigit(b % 16));
  }

  /** Two lower-case digits are written back as themselves from the byte
      they are read as. */
  lemma PairDigitsRoundTrip(a: char, b: char)
    requires IsHexDigit(a) && !('A' <= a <= 'F')
    requires IsHexDigit(b) && !('A' <= b <= 'F')
    ensures var v := ToUint8(ParsePair(a, b)); 0 <= v < 256 && HexDigit(v / 16) == a && HexDigit(v % 16) == b
  {
    DigitPairByte(a, b);
    var v := 16 * HexVal(a) + HexVal(b);
    assert v / 16 == HexVal(a) && v % 16 == HexVal(b);
  }

  /** The encoding of a byte followed by more bytes is the byte's two digits
      followed by the encoding of the rest. */
  lemma EncodeFirstByte(v: int, rest: seq<int>)
    requires 0 <= v < 256 && IsByteSeq(rest)
    ensures IsByteSeq([v] + rest)
    ensures Encode([v] + rest) == [HexDigit(v / 16), HexDigit(v % 16)] + Encode(rest)
  {
    assert ([v] + rest)[1..] == rest;
  }

  /** Decoding the encoding of any byte sequence gives that sequence back. */
  lemma {:induction false} DecodeEncode(bytes: seq<int>)
    requires IsByteSeq(bytes)
    ensures Decode(Encode(bytes)) == bytes
  {
    if |bytes| > 0 {
      var b := bytes[0];
      var hex := Encode(bytes);
      assert hex == [HexDigit(b / 16), HexDigit(b % 16)] + Encode(bytes[1..]);
      assert hex[2..] == Encode(bytes[1..]);
      ByteDigitsRoundTrip(b);
      assert Decode(hex) == [b] + Decode(hex[2..]);
      DecodeEncode(bytes[1..]);
      assert bytes == [b] + bytes[1..];
    }
  }

  /** Encoding the decoding of a well-formed lower-case hex text gives that
      text back: the other direction of the round trip. */
  lemma {:induction false} EncodeDecode(hex: seq<char>)
    requires |hex| % 2 == 0 && IsLowerHex(hex)
    ensures Encode(Decode(hex)) == hex
  {
    if |hex| > 0 {
      var a, b := hex[0], hex[1];
      PairDigitsRoundTrip(a, b);
      var rest := hex[2..];
      assert IsLowerHex(rest) by {
        assert forall i | 0 <= i < |rest| :: rest[i] == hex[i + 2];
      }
      EncodeFirstByte(ToUint8(ParsePair(a, b)), Decode(rest));
      EncodeDecode(rest);
      assert hex == [a, b] + rest;
    }
  }

  // ---------------------------------------------------------------------
  // Concatenation
  // ---------------------------------------------------------------------

  /** Decoding distributes over concatenation when the first text has an
      even length, whatever the characters. */
  lemma {:induction false} DecodeConcat(a: seq<char>, b: seq<char>)
    requires |a| % 2 == 0
    ensures Decode(a + b) == Decode(a) + Decode(b)
  {
    if |a| > 0 {
      assert (a + b)[2..] == a[2..] + b;
      DecodeConcat(a[2..], b);
    } else {
      assert a + b == b;
    }
  }

  // ---------------------------------------------------------------------
  // Case
  // ---------------------------------------------------------------------

  /** A-F lowered to a-f; every other character unchanged. */
  function LowerDigit(c: char): (d: char)
    ensures IsHexDigit(d) <==> IsHexDigit(c)
    ensures IsHexDigit(c) ==> HexVal(d) == HexVal(c)
    ensures !('A' <= d <= 'F')
  {
    if 'A' <= c <= 'F' then (c as int - 'A' as int + 'a' as int) as char else c
  }

  /** a-f raised to A-F; every other character unchanged. */
  function UpperDigit(c: char): (d: char)
    ensures LowerDigit(d) == LowerDigit(c)
    ensures !('a' <= d <= 'f')
  {
    if 'a' <= c <= 'f' then (c as int - 'a' as int + 'A' as int) as char else c
  }

  /** The text with every lower-case hex letter raised. */
  function UpperCase(s: seq<char>): (t: seq<char>)
    ensures |t| == |s|
    ensures forall i | 0 <= i < |s| :: t[i] == UpperDigit(s[i])
  {
    seq(|s|, i requires 0 <= i < |s| => UpperDigit(s[i]))
  }

  /** Two texts that differ at most in the case of the letters a-f. */
  predicate SameUpToCase(s: seq<char>, t: seq<char>) {
    |s| == |t| && forall i | 0 <= i < |s| :: LowerDigit(s[i]) == LowerDigit(t[i])
  }

  /** parseInt with radix 16 does not see the case of a-f. */
  lemma ParsePairUpToCase(a: char, b: char, c: char, d: char)
    requires LowerDigit(a) == LowerDigit(c) && LowerDigit(b) == LowerDigit(d)
    ensures ParsePair(a, b) == ParsePair(c, d)
  {
  }

  /** Texts that differ only in the case of their hex letters decode to the
      same bytes, whatever else they contain. */
  lemma {:induction false} DecodeUpToCase(s: seq<char>, t: seq<char>)
    requires SameUpToCase(s, t)
    ensures Decode(s) == Decode(t)
  {
    forall k | 0 <= k < |s| / 2
      ensures Decode(s)[k] == Decode(t)[k]
    {
      DecodeAt(s, k);
      DecodeAt(t, k);
      ParsePairUpToCase(s[2 * k], s[2 * k + 1], t[2 * k], t[2 * k + 1]);
    }
  }

  /** Upper-case and lower-case digit strings decode to the same bytes. */
  lemma DecodeUpperCase(hex: seq<char>)
    ensures Decode(UpperCase(hex)) == Decode(hex)
  {
    DecodeUpToCase(UpperCase(hex), hex);
  }
}
