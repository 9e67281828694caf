/**
 * The hexadecimal codec of `src/utils/hex.ts`: `hex.encode` turns bytes into
 * lowercase hexadecimal text, two digits per byte; `hex.decode` validates its
 * text (even length, only `0-9a-f`) and parses it two characters at a time
 * into a byte array. The model stops at that byte array, before the UTF-8
 * text decoding the source applies to it.
 */
module Hex {
  import opened Results

  /** A byte, the element type of a `Uint8Array`. */
  type byte = x: int | 0 <= x < 256

  /** The digit alphabet of the codec, in digit order (hex.ts line 19). */
  const Hexadecimal: string := "0123456789abcdef"

  /** The only error `decode` throws: "Invalid hexadecimal string". */
  datatype HexError = InvalidHexadecimalString

  /** Membership in the alphabet: a decimal digit or one of `a` to `f`. */
  predicate IsHexDigit(c: char)
  {
    '0' <= c <= '9' || 'a' <= c <= 'f'
  }

  /** The value of one lowercase hexadecimal digit. */
  function DigitValue(c: char): (d: nat)
    requires IsHexDigit(c)
    ensures d < 16 && Hexadecimal[d] == c
  {
    if '0' <= c <= '9' then (c - '0') as nat else (c - 'a') as nat + 10
  }

  /** Every digit of the alphabet passes the digit test and has its position as value. */
  lemma HexDigitIsHex(d: nat)
    requires d < 16
    ensures IsHexDigit(Hexadecimal[d]) && DigitValue(Hexadecimal[d]) == d
  {
  }

  /** `n.toString(16)` for a non-negative integer: lowercase digits, no leading zeros. */
  function ToRadix16(n: nat): (s: string)
    ensures 1 <= |s|
    ensures |s| == 1 <==> n < 16
    ensures forall i :: 0 <= i < |s| ==> IsHexDigit(s[i])
  {
    if n < 16 then
      HexDigitIsHex(n);
      [Hexadecimal[n]]
    else
      HexDigitIsHex(n % 16);
      ToRadix16(n / 16) + [Hexadecimal[n % 16]]
  }

  /** `s.padStart(targetLength, fill)` for a one-character fill string. */
  function PadStart(s: string, targetLength: nat, fill: char): (r: string)
    ensures |r| == if |s| < targetLength then targetLength else |s|
    ensures r[|r| - |s|..] == s
    ensures forall i :: 0 <= i < |r| - |s| ==> r[i] == fill
  {
    if |s| < targetLength then seq(targetLength - |s|, _ => fill) + s else s
  }

  /** The text `encode` appends for one byte: `byte.toString(16).padStart(2, '0')`. */
  function ByteHex(b: byte): (s: string)
    ensures |s| == 2 && IsHexDigit(s[0]) && IsHexDigit(s[1])
  {
    var digits := ToRadix16(b);
    assert b >= 16 ==> |ToRadix16(b / 16)| == 1;
    var padded := PadStart(digits, 2, '0');
    assert |digits| == 1 ==> padded[1] == digits[0];
    padded
  }

  /** The two digits of a byte: the high one, then the low one. */
  function DigitPair(b: byte): string
  {
    [Hexadecimal[b / 16], Hexadecimal[b % 16]]
  }

  /** `toString(16)` padded to two places always yields a byte's two digits, high first. */
  lemma ByteHexDigits(b: byte)
    ensures ByteHex(b) == DigitPair(b)
  {
    var n := b;
    if n < 16 {
      assert ToRadix16(n) == [Hexadecimal[n]];
    } else {
      assert ToRadix16(n / 16) == [Hexadecimal[n / 16]];
    }
  }

  /** The text `encode` is meant to produce: the digit pairs of the bytes, in input order. */
  function HexOf(data: seq<byte>): string
  {
    if |data| == 0 then "" else HexOf(data[..|data| - 1]) + DigitPair(data[|data| - 1])
  }

  /**
   * `hex.encode` on bytes: no bytes give the empty text, otherwise each byte is
   * appended as two digits in a loop over the buffer.
   */
  method Encode(data: seq<byte>) returns (result: string)
    ensures result == HexOf(data)
  {
    if |data| == 0 {
      return "";
    }
    result := "";
    for i := 0 to |data|
      invariant result == HexOf(data[..i])
    {
      assert data[..i + 1][..i] == data[..i];
      result := result + ByteHex(data[i]);
      ByteHexDigits(data[i]);
    }
    assert data[..|data|] == data;
  }

  /** The encoding is twice as long as the data. */
  lemma {:induction false} HexOfLength(data: seq<byte>)
    ensures |HexOf(data)| == 2 * |data|
  {
    if |data| > 0 {
      HexOfLength(data[..|data| - 1]);
    }
  }

  /** Characters 2i and 2i+1 of the encoding are the high and the low digit of byte i. */
  lemma {:induction false} HexOfAt(data: seq<byte>, i: nat)
    requires i < |data|
    ensures |HexOf(data)| == 2 * |data|
    ensures HexOf(data)[2 * i] == Hexadecimal[data[i] / 16]
    ensures HexOf(data)[2 * i + 1] == Hexadecimal[data[i] % 16]
  {
    var prefix, last := data[..|data| - 1], data[|data| - 1];
    HexOfLength(data);
    HexOfLength(prefix);
    assert HexOf(data) == HexOf(prefix) + DigitPair(last);
    if i < |prefix| {
      HexOfAt(prefix, i);
      assert data[i] == prefix[i];
    }
  }

  /** The encoding of any data is lowercase hexadecimal text of even length. */
  lemma {:induction false} HexOfWellFormed(data: seq<byte>)
    ensures |HexOf(data)| % 2 == 0
    ensures forall j :: 0 <= j < |HexOf(data)| ==> IsHexDigit(HexOf(data)[j])
  {
    HexOfLength(data);
    if |data| > 0 {
      var last := data[|data| - 1];
      var h, t := HexOf(data[..|data| - 1]), DigitPair(last);
      HexOfWellFormed(data[..|data| - 1]);
      HexDigitIsHex(last / 16);
      HexDigitIsHex(last % 16);
      assert HexOf(data) == h + t;
      forall j | 0 <= j < |h + t|
        ensures IsHexDigit((h + t)[j])
      {
        if j == |h| {
          assert (h + t)[j] == t[0];
        } else if j > |h| {
          assert (h + t)[j] == t[1];
        }
      }
    }
  }

  /** A character belongs to the alphabet exactly when it passes the digit test. */
  lemma AlphabetIsDigits()
    ensures forall c :: c in Hexadecimal <==> IsHexDigit(c)
  {
    forall c | IsHexDigit(c)
      ensures c in Hexadecimal
    {
      assert Hexadecimal[DigitValue(c)] == c;
    }
    forall d | 0 <= d < |Hexadecimal|
      ensures IsHexDigit(Hexadecimal[d])
    {
      HexDigitIsHex(d);
    }
  }

  /** Every character of s is in the class `[0123456789abcdef]`, checked from the left. */
  function AllInClass(s: string): (all: bool)
    ensures all <==> forall i :: 0 <= i < |s| ==> IsHexDigit(s[i])
  {
    if s == [] then true
    else
      AlphabetIsDigits();
      s[0] in Hexadecimal && AllInClass(s[1..])
  }

  /**
   * The test `^[0123456789abcdef]+$` that `decode` applies to its text: one
   * or more characters, each from the class. It holds exactly for non-empty
   * text of lowercase digits.
   */
  function MatchesHexPattern(s: string): (matches: bool)
    ensures matches <==> |s| > 0 && forall i :: 0 <= i < |s| ==> IsHexDigit(s[i])
  {
    |s| > 0 && AllInClass(s)
  }

  /** 16 raised to the power k. */
  function Pow16(k: nat): nat
  {
    if k == 0 then 1 else 16 * Pow16(k - 1)
  }

  /** `parseInt(s, 16)` for text made of lowercase digits only: k digits give a value below 16^k. */
  function ParseInt16(s: string): (n: nat)
    requires forall i :: 0 <= i < |s| ==> IsHexDigit(s[i])
    ensures n < Pow16(|s|)
  {
    if |s| == 0 then 0 else 16 * ParseInt16(s[..|s| - 1]) + DigitValue(s[|s| - 1])
  }

  /** A two-digit pair always parses to a value that fits in a byte. */
  lemma ParsePair(s: string)
    requires |s| == 2 && IsHexDigit(s[0]) && IsHexDigit(s[1])
    ensures ParseInt16(s) == 16 * DigitValue(s[0]) + DigitValue(s[1]) < 256
  {
    assert s[..|s| - 1] == s[..1];
    assert ParseInt16(s[..1]) == DigitValue(s[0]) by {
      assert s[..1][..0] == [];
    }
  }

  /** The byte pair i of well-formed text stands for: its two characters parsed together. */
  function PairValue(s: string, i: nat): byte
    requires forall j :: 0 <= j < |s| ==> IsHexDigit(s[j])
    requires 2 * i + 2 <= |s|
  {
    var pair := s[2 * i..2 * i + 2];
    ParsePair(pair);
    ParseInt16(pair) as byte
  }

  /** The bytes of well-formed text: each pair of characters, in order, parsed as one byte. */
  function DecodePairs(s: string): (r: seq<byte>)
    requires |s| % 2 == 0
    requires forall i :: 0 <= i < |s| ==> IsHexDigit(s[i])
    ensures |r| == |s| / 2
  {
    seq(|s| / 2, i requires 0 <= i < |s| / 2 => PairValue(s, i))
  }

  /** Byte i of the decoded pairs is the value of the digits at 2i and 2i+1. */
  lemma DecodePairsAt(s: string, i: nat)
    requires |s| % 2 == 0
    requires forall j :: 0 <= j < |s| ==> IsHexDigit(s[j])
    requires i < |s| / 2
    ensures DecodePairs(s)[i] == 16 * DigitValue(s[2 * i]) + DigitValue(s[2 * i + 1])
  {
    var pair := s[2 * i..2 * i + 2];
    ParsePair(pair);
    assert pair[0] == s[2 * i] && pair[1] == s[2 * i + 1];
  }

  /**
   * What `decode` yields for text, up to the byte array: the empty text gives
   * no bytes, odd length or a character outside `0-9a-f` throws, anything else
   * is parsed pair by pair.
   */
  function Decoded(data: string): Result<seq<byte>, HexError>
  {
    if data == "" then Success([])
    else if |data| % 2 != 0 then Failure(InvalidHexadecimalString)
    else if !MatchesHexPattern(data) then Failure(InvalidHexadecimalString)
    else Success(DecodePairs(data))
  }

  /**
   * What `Decoded` means: it fails exactly on odd length or a character
   * outside `0-9a-f`, and otherwise yields half as many bytes as characters,
   * byte i being the value of the digits at 2i and 2i+1.
   */
  lemma DecodedCharacterised(data: string)
    ensures Decoded(data).Failure? <==> |data| % 2 == 1 || exists i :: 0 <= i < |data| && !IsHexDigit(data[i])
    ensures Decoded(data).Success? ==> |Decoded(data).value| == |data| / 2
    ensures Decoded(data).Success? ==> forall i :: 0 <= i < |Decoded(data).value| ==>
      Decoded(data).value[i] == 16 * DigitValue(data[2 * i]) + DigitValue(data[2 * i + 1])
  {
    if Decoded(data).Success? && data != "" {
      forall i | 0 <= i < |data| / 2
        ensures DecodePairs(data)[i] == 16 * DigitValue(data[2 * i]) + DigitValue(data[2 * i + 1])
      {
        DecodePairsAt(data, i);
      }
    }
  }

  /** Two sequences that agree position by position are equal. */
  lemma PointwiseEqual<T>(a: seq<T>, b: seq<T>)
    requires |a| == |b|
    requires forall k :: 0 <= k < |a| ==> a[k] == b[k]
    ensures a == b
  {
  }

  /**
   * `hex.decode` on text: the two checks, then a loop that steps through the
   * text two characters at a time and stores each parsed pair in a byte array.
   * Its result is `Decoded`, whose meaning `DecodedCharacterised` states.
   */
  method Decode(data: string) returns (r: Result<seq<byte>, HexError>)
    ensures r == Decoded(data)
  {
    if data == "" {
      return Success([]);
    }
    if |data| % 2 != 0 {
      return Failure(InvalidHexadecimalString);
    }
    if !MatchesHexPattern(data) {
      return Failure(InvalidHexadecimalString);
    }
    var result := new byte[|data| / 2];
    ghost var count := |data| / 2;
    assert |data| == 2 * count;
    var i := 0;
    ghost var pairs := 0;
    while i < |data|
      invariant 0 <= pairs <= count && i == 2 * pairs
      invariant forall k :: 0 <= k < pairs ==> result[k] == PairValue(data, k)
    {
      assert i / 2 == pairs;
      result[i / 2] := ParseInt16(data[i..i + 2]) as byte;
      i := i + 2;
      pairs := pairs + 1;
    }
    PointwiseEqual(result[..], DecodePairs(data));
    return Success(result[..]);
  }

  /** Decoding the encoding of any bytes gives back exactly those bytes. */
  lemma DecodeEncode(data: seq<byte>)
    ensures Decoded(HexOf(data)) == Success(data)
  {
    var s := HexOf(data);
    HexOfWellFormed(data);
    HexOfLength(data);
    if |data| > 0 {
      var bytes := DecodePairs(s);
      forall i | 0 <= i < |data|
        ensures bytes[i] == data[i]
      {
        DecodePairsAt(s, i);
        HexOfAt(data, i);
        HexDigitIsHex(data[i] / 16);
        HexDigitIsHex(data[i] % 16);
      }
      assert bytes == data;
    }
  }

  /** The digits at 2i and 2i+1 of decodable text come back when its byte i is encoded. */
  lemma EncodeDecodeAt(s: string, i: nat)
    requires Decoded(s).Success? && s != ""
    requires i < |s| / 2
    ensures |HexOf(Decoded(s).value)| == |s|
    ensures HexOf(Decoded(s).value)[2 * i] == s[2 * i]
    ensures HexOf(Decoded(s).value)[2 * i + 1] == s[2 * i + 1]
  {
    var data := Decoded(s).value;
    DecodePairsAt(s, i);
    HexOfAt(data, i);
    var hi, lo := DigitValue(s[2 * i]), DigitValue(s[2 * i + 1]);
    assert data[i] == 16 * hi + lo;
    assert data[i] / 16 == hi && data[i] % 16 == lo;
  }

  /**
   * Encoding the bytes of any text that decodes gives back that text: on
   * well-formed input the two operations are inverse to each other.
   */
  lemma EncodeDecode(s: string)
    requires Decoded(s).Success?
    ensures HexOf(Decoded(s).value) == s
  {
    var data := Decoded(s).value;
    HexOfLength(data);
    if s != "" {
      forall j | 0 <= j < |s|
        ensures HexOf(data)[j] == s[j]
      {
        var i := j / 2;
        EncodeDecodeAt(s, i);
        assert j == 2 * i || j == 2 * i + 1;
      }
    }
  }

  /** Text with an upper-case digit is rejected: only `0-9a-f` pass the pattern. */
  lemma UppercaseRejected(s: string, i: nat)
    requires i < |s| && 'A' <= s[i] <= 'F'
    ensures Decoded(s) == Failure(InvalidHexadecimalString)
  {
    assert !IsHexDigit(s[i]);
  }
}
