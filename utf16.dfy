/**
 * Big-endian UTF-16 as Python's `bytes.decode('utf-16be', errors='ignore')`
 * reads it, and the matching encoder (`str.encode('utf-16-be')`) that the
 * round trip is stated against.
 */
module Utf16 {
  import opened Seqs

  newtype byte = x: int | 0 <= x < 0x100
  newtype unit16 = x: int | 0 <= x < 0x1_0000

  predicate IsHighSurrogate(u: unit16) {
    0xD800 <= u <= 0xDBFF
  }

  predicate IsLowSurrogate(u: unit16) {
    0xDC00 <= u <= 0xDFFF
  }

  predicate IsSurrogate(u: unit16) {
    0xD800 <= u <= 0xDFFF
  }

  /** The big-endian 16-bit code units of `b`, two bytes each; a trailing odd byte forms none. */
  function Units(b: seq<byte>): (us: seq<unit16>)
    ensures |us| == |b| / 2
    decreases |b|
  {
    if |b| < 2 then [] else [(b[0] as int * 0x100 + b[1] as int) as unit16] + Units(b[2..])
  }

  /** The character a surrogate pair stands for. */
  function PairChar(hi: unit16, lo: unit16): char
    requires IsHighSurrogate(hi) && IsLowSurrogate(lo)
  {
    (0x1_0000 + (hi as int - 0xD800) * 0x400 + (lo as int - 0xDC00)) as char
  }

  /**
   * Decodes code units, skipping what the decoder reports as an error: a low
   * surrogate on its own, and a high surrogate that is not followed by a low
   * one (only the high unit is dropped; decoding resumes at the unit after it).
   */
  function DecodeUnits(us: seq<unit16>): (s: string)
    ensures |s| <= |us|
    decreases |us|
  {
    if us == [] then []
    else if !IsSurrogate(us[0]) then [us[0] as int as char] + DecodeUnits(us[1..])
    else if IsHighSurrogate(us[0]) && |us| > 1 && IsLowSurrogate(us[1]) then
      [PairChar(us[0], us[1])] + DecodeUnits(us[2..])
    else DecodeUnits(us[1..])
  }

  /** `b.decode('utf-16be', errors='ignore')`. */
  function DecodeUtf16BeIgnore(b: seq<byte>): string {
    DecodeUnits(Units(b))
  }

  function EncodeChar(c: char): (us: seq<unit16>)
    ensures 1 <= |us| <= 2
  {
    var n := c as int;
    if n < 0x1_0000 then [n as unit16]
    else [(0xD800 + (n - 0x1_0000) / 0x400) as unit16, (0xDC00 + (n - 0x1_0000) % 0x400) as unit16]
  }

  function EncodeUnits(s: string): seq<unit16> {
    if s == [] then [] else EncodeChar(s[0]) + EncodeUnits(s[1..])
  }

  function UnitBytes(us: seq<unit16>): (b: seq<byte>)
    ensures |b| == 2 * |us|
  {
    if us == [] then [] else [(us[0] / 0x100) as int as byte, (us[0] % 0x100) as int as byte] + UnitBytes(us[1..])
  }

  /** `s.encode('utf-16-be')`. */
  function EncodeUtf16Be(s: string): seq<byte> {
    UnitBytes(EncodeUnits(s))
  }

  lemma {:induction false} UnitsOfUnitBytes(us: seq<unit16>)
    ensures Units(UnitBytes(us)) == us
  {
    if us != [] {
      var b := UnitBytes(us);
      assert b[2..] == UnitBytes(us[1..]);
      UnitsOfUnitBytes(us[1..]);
    }
  }

  /** One encoded character decodes back to itself, whatever follows it. */
  lemma DecodeEncodeChar(c: char, rest: seq<unit16>)
    ensures DecodeUnits(EncodeChar(c) + rest) == [c] + DecodeUnits(rest)
  {
    var us := EncodeChar(c) + rest;
    var n := c as int;
    if n < 0x1_0000 {
      assert us[1..] == rest;
    } else {
      var q, r := (n - 0x1_0000) / 0x400, (n - 0x1_0000) % 0x400;
      assert n == 0x1_0000 + q * 0x400 + r;
      assert us[2..] == rest;
    }
  }

  lemma {:induction false} DecodeEncodeUnits(s: string)
    ensures DecodeUnits(EncodeUnits(s)) == s
  {
    if s != [] {
      DecodeEncodeChar(s[0], EncodeUnits(s[1..]));
      DecodeEncodeUnits(s[1..]);
    }
  }

  /** Decoding what the encoder produced gives the text back. */
  lemma DecodeEncode(s: string)
    ensures DecodeUtf16BeIgnore(EncodeUtf16Be(s)) == s
  {
    UnitsOfUnitBytes(EncodeUnits(s));
    DecodeEncodeUnits(s);
  }

  /** A trailing odd byte is dropped. */
  lemma {:induction false} OddByteIgnored(b: seq<byte>, x: byte)
    requires |b| % 2 == 0
    ensures DecodeUtf16BeIgnore(b + [x]) == DecodeUtf16BeIgnore(b)
  {
    UnitsOddByte(b, x);
  }

  lemma {:induction false} UnitsOddByte(b: seq<byte>, x: byte)
    requires |b| % 2 == 0
    ensures Units(b + [x]) == Units(b)
    decreases |b|
  {
    if |b| >= 2 {
      assert (b + [x])[2..] == b[2..] + [x];
      UnitsOddByte(b[2..], x);
    }
  }

  /** Decoding splits at any point that is not just after a high surrogate. */
  lemma {:induction false} DecodeConcat(a: seq<unit16>, b: seq<unit16>)
    requires a == [] || !IsHighSurrogate(a[|a| - 1])
    ensures DecodeUnits(a + b) == DecodeUnits(a) + DecodeUnits(b)
    decreases |a|
  {
    if a == [] {
      assert a + b == b;
    } else if IsHighSurrogate(a[0]) && |a| > 1 && IsLowSurrogate(a[1]) {
      DecodeConcat(a[2..], b);
      DecodePairStep(a, b);
    } else {
      assert IsHighSurrogate(a[0]) ==> |a| > 1;
      DecodeConcat(a[1..], b);
      DecodeUnitStep(a, b);
    }
  }

  /** One step of `DecodeConcat` when the first unit decodes, or is dropped, on its own. */
  lemma DecodeUnitStep(a: seq<unit16>, b: seq<unit16>)
    requires |a| > 1 || (a != [] && !IsHighSurrogate(a[0]))
    requires !(IsHighSurrogate(a[0]) && |a| > 1 && IsLowSurrogate(a[1]))
    requires DecodeUnits(a[1..] + b) == DecodeUnits(a[1..]) + DecodeUnits(b)
    ensures DecodeUnits(a + b) == DecodeUnits(a) + DecodeUnits(b)
  {
    Prepend(a, b);
    DecodeOfUnit(a);
    DecodeOfUnit(a + b);
    var c := if IsSurrogate(a[0]) then [] else [a[0] as int as char];
    AppendAssoc(c, DecodeUnits(a[1..]), DecodeUnits(b));
  }

  /** One step of `DecodeConcat` when the first two units form a surrogate pair. */
  lemma DecodePairStep(a: seq<unit16>, b: seq<unit16>)
    requires |a| > 1 && IsHighSurrogate(a[0]) && IsLowSurrogate(a[1])
    requires DecodeUnits(a[2..] + b) == DecodeUnits(a[2..]) + DecodeUnits(b)
    ensures DecodeUnits(a + b) == DecodeUnits(a) + DecodeUnits(b)
  {
    Prepend(a, b);
    DecodeOfPair(a);
    DecodeOfPair(a + b);
    var c := [PairChar(a[0], a[1])];
    AppendAssoc(c, DecodeUnits(a[2..]), DecodeUnits(b));
  }

  lemma Prepend(a: seq<unit16>, b: seq<unit16>)
    requires a != []
    ensures (a + b)[0] == a[0] && (a + b)[1..] == a[1..] + b
    ensures |a| > 1 ==> (a + b)[1] == a[1] && (a + b)[2..] == a[2..] + b
  {
  }

  lemma DecodeOfUnit(us: seq<unit16>)
    requires us != [] && !(IsHighSurrogate(us[0]) && |us| > 1 && IsLowSurrogate(us[1]))
    ensures DecodeUnits(us) == (if IsSurrogate(us[0]) then [] else [us[0] as int as char]) + DecodeUnits(us[1..])
  {
  }

  lemma DecodeOfPair(us: seq<unit16>)
    requires |us| > 1 && IsHighSurrogate(us[0]) && IsLowSurrogate(us[1])
    ensures DecodeUnits(us) == [PairChar(us[0], us[1])] + DecodeUnits(us[2..])
  {
  }

  /**
   * An unpaired surrogate anywhere in the input contributes nothing: a low
   * surrogate, or a high surrogate not followed by a low one.
   */
  lemma UnpairedSurrogateDropped(a: seq<unit16>, u: unit16, b: seq<unit16>)
    requires a == [] || !IsHighSurrogate(a[|a| - 1])
    requires IsLowSurrogate(u) || (IsHighSurrogate(u) && (b == [] || !IsLowSurrogate(b[0])))
    ensures DecodeUnits(a + [u] + b) == DecodeUnits(a) + DecodeUnits(b)
  {
    assert a + [u] + b == a + ([u] + b);
    DecodeConcat(a, [u] + b);
    assert ([u] + b)[1..] == b;
  }
}
