/**
 * The textual form of a Solidity `bytes32` as the pane handles it: the validator
 * `isHex32`, the byte encoder inside `randomHex32`, and the default field values.
 */
module Hex32 {
  import opened Wrappers
  import opened Format

  /** One element of a `Uint8Array`. */
  type byte = x: int | 0 <= x < 256

  /** The regular-expression tail `[0-9a-fA-F]{n}$`: exactly `n` hex digits, then the end of the input. */
  predicate HexRun(s: string, n: nat)
    decreases n
  {
    if n == 0 then s == [] else s != [] && IsHexDigit(s[0]) && HexRun(s[1..], n - 1)
  }

  /**
   * `isHex32(v)`: what `/^0x[0-9a-fA-F]{64}$/` accepts, stated by position: 66 characters,
   * `0` and a lower-case `x`, then hex digits of either case.
   */
  predicate IsHex32(v: string) {
    |v| == 66 && v[0] == '0' && v[1] == 'x' && forall i :: 2 <= i < |v| ==> IsHexDigit(v[i])
  }

  lemma {:induction false} HexRunIff(s: string, n: nat)
    ensures HexRun(s, n) <==> |s| == n && forall i :: 0 <= i < |s| ==> IsHexDigit(s[i])
    decreases n
  {
    if n > 0 && s != [] {
      HexRunIff(s[1..], n - 1);
      if |s| == n && forall i :: 0 <= i < |s| ==> IsHexDigit(s[i]) {
        assert forall i :: 0 <= i < |s[1..]| ==> IsHexDigit(s[1..][i]) by {
          forall i | 0 <= i < |s[1..]| ensures IsHexDigit(s[1..][i]) {
            assert s[1..][i] == s[i + 1];
          }
        }
      }
    }
  }

  /**
   * The positional reading agrees with the pattern read left to right: the literal `0x`,
   * then exactly 64 members of `[0-9a-fA-F]`, then the end of the input.
   */
  lemma IsHex32MatchesPattern(v: string)
    ensures IsHex32(v) <==> |v| >= 2 && v[..2] == "0x" && HexRun(v[2..], 64)
  {
    if |v| >= 2 {
      HexRunIff(v[2..], 64);
      assert v[..2] == "0x" <==> v[0] == '0' && v[1] == 'x';
      assert (forall i :: 2 <= i < |v| ==> IsHexDigit(v[i])) <==>
             (forall i :: 0 <= i < |v[2..]| ==> IsHexDigit(v[2..][i])) by {
        forall i | 0 <= i < |v[2..]| ensures v[2..][i] == v[i + 2] {}
      }
    }
  }

  /** An upper-case `0X` prefix is rejected. */
  lemma RejectsUpperCaseX(digits: string)
    ensures !IsHex32("0X" + digits)
  {
  }

  /** Sixty-three or sixty-five digits (any count but 64) are rejected, even when every one is a hex digit. */
  lemma RejectsWrongDigitCount(digits: string)
    requires |digits| != 64
    ensures !IsHex32("0x" + digits)
  {
  }

  predicate IsWhitespace(c: char) {
    c == ' ' || c == '\t' || c == '\n' || c == '\r'
  }

  /** The pattern is anchored at both ends: whitespace before or after the value is rejected. */
  lemma RejectsSurroundingWhitespace(v: string, c: char)
    requires IsWhitespace(c)
    ensures !IsHex32([c] + v) && !IsHex32(v + [c])
  {
    var w := v + [c];
    assert w[|w| - 1] == c;
  }

  /** `b.toString(16).padStart(2, "0")`: the two-digit text of one byte. */
  function ByteHex(b: byte): string {
    PadStart(ToRadixString(b, 16), 2, '0')
  }

  /** Every byte becomes two lower-case digits, high nibble first, with a leading `0` below 16. */
  lemma ByteHexDigits(b: byte)
    ensures ByteHex(b) == [DigitChar(b / 16), DigitChar(b % 16)]
  {
    ToRadixStringShort(b, 16);
    if b < 16 {
      DigitCharRoundTrip(0);
      assert ByteHex(b) == ['0'] + [DigitChar(b)];
    }
  }

  /** `parts.join("")`. */
  function Join(parts: seq<string>): string {
    if parts == [] then "" else parts[0] + Join(parts[1..])
  }

  /** `Array.from(bytes).map(b => ByteHex(b))`. */
  function ByteHexes(bytes: seq<byte>): seq<string> {
    seq(|bytes|, i requires 0 <= i < |bytes| => ByteHex(bytes[i]))
  }

  /** The hex text of a byte array: the two-digit texts of its bytes joined, prefixed with `0x`. */
  function HexOfBytes(bytes: seq<byte>): string {
    "0x" + Join(ByteHexes(bytes))
  }

  /** Joining two-character parts lays them side by side, part `i` at positions `2i` and `2i + 1`. */
  lemma {:induction false} JoinPairs(parts: seq<string>)
    requires forall i :: 0 <= i < |parts| ==> |parts[i]| == 2
    ensures |Join(parts)| == 2 * |parts|
    ensures forall i :: 0 <= i < |parts| ==> Join(parts)[2 * i] == parts[i][0] && Join(parts)[2 * i + 1] == parts[i][1]
  {
    if parts != [] {
      JoinPairs(parts[1..]);
      var rest := Join(parts[1..]);
      assert Join(parts) == parts[0] + rest;
      forall i | 1 <= i < |parts|
        ensures Join(parts)[2 * i] == parts[i][0] && Join(parts)[2 * i + 1] == parts[i][1]
      {
        assert parts[1..][i - 1] == parts[i];
        assert Join(parts)[2 * i] == rest[2 * (i - 1)];
        assert Join(parts)[2 * i + 1] == rest[2 * (i - 1) + 1];
      }
    }
  }

  /**
   * The shape of the encoding: `0x`, then two characters per input byte in input order,
   * the high nibble's digit then the low nibble's.
   */
  lemma HexOfBytesLayout(bytes: seq<byte>)
    ensures |HexOfBytes(bytes)| == 2 + 2 * |bytes|
    ensures HexOfBytes(bytes)[..2] == "0x"
    ensures forall i :: 0 <= i < |bytes| ==>
      HexOfBytes(bytes)[2 + 2 * i] == DigitChar(bytes[i] / 16) && HexOfBytes(bytes)[3 + 2 * i] == DigitChar(bytes[i] % 16)
  {
    var parts := ByteHexes(bytes);
    forall i | 0 <= i < |bytes| ensures parts[i] == [DigitChar(bytes[i] / 16), DigitChar(bytes[i] % 16)] {
      ByteHexDigits(bytes[i]);
    }
    JoinPairs(parts);
    var r := HexOfBytes(bytes);
    assert r == "0x" + Join(parts);
    forall i | 0 <= i < |bytes|
      ensures r[2 + 2 * i] == DigitChar(bytes[i] / 16) && r[3 + 2 * i] == DigitChar(bytes[i] % 16)
    {
      assert r[2 + 2 * i] == Join(parts)[2 * i];
      assert r[3 + 2 * i] == Join(parts)[2 * i + 1];
    }
  }

  /** Position `j` of an encoding belongs to byte `(j - 2) / 2`, as its first or its second digit. */
  lemma PositionOfDigit(j: nat)
    requires j >= 2
    ensures var i := (j - 2) / 2; i >= 0 && (j == 2 + 2 * i || j == 3 + 2 * i)
  {
  }

  /** Every character after the `0x` of an encoding is a lower-case hex digit. */
  lemma HexOfBytesLowerCase(bytes: seq<byte>)
    ensures forall j :: 2 <= j < |HexOfBytes(bytes)| ==> IsLowerHexDigit(HexOfBytes(bytes)[j])
  {
    HexOfBytesLayout(bytes);
    var r := HexOfBytes(bytes);
    forall j | 2 <= j < |r| ensures IsLowerHexDigit(r[j]) {
      PositionOfDigit(j);
      var i := (j - 2) / 2;
      DigitCharRoundTrip(bytes[i] / 16);
      DigitCharRoundTrip(bytes[i] % 16);
    }
  }

  /** The text of 32 bytes passes `isHex32`. */
  lemma HexOfBytesIsHex32(bytes: seq<byte>)
    requires |bytes| == 32
    ensures IsHex32(HexOfBytes(bytes))
  {
    HexOfBytesLayout(bytes);
    HexOfBytesLowerCase(bytes);
  }

  /** `randomHex32()`, with the 32 bytes drawn from `crypto.getRandomValues` given as a parameter. */
  function RandomHex32(random: seq<byte>): (r: string)
    requires |random| == 32
    ensures |r| == 66
    ensures IsHex32(r)
  {
    HexOfBytesIsHex32(random);
    HexOfBytes(random)
  }

  /** The byte two hex digits denote, the first the high nibble. */
  function PairValue(hi: char, lo: char): byte
    requires IsHexDigit(hi) && IsHexDigit(lo)
  {
    16 * DigitValue(hi) + DigitValue(lo)
  }

  /** Reading back the two digits of a byte gives the byte. */
  lemma PairValueOfDigits(b: byte)
    ensures PairValue(DigitChar(b / 16), DigitChar(b % 16)) == b
  {
    DigitCharRoundTrip(b / 16);
    DigitCharRoundTrip(b % 16);
  }

  /** Writing out the byte two lower-case digits denote gives those digits. */
  lemma DigitsOfPairValue(hi: char, lo: char)
    requires IsLowerHexDigit(hi) && IsLowerHexDigit(lo)
    ensures PairValue(hi, lo) / 16 == DigitValue(hi) && PairValue(hi, lo) % 16 == DigitValue(lo)
    ensures DigitChar(PairValue(hi, lo) / 16) == hi && DigitChar(PairValue(hi, lo) % 16) == lo
  {
    DigitValueRoundTrip(hi);
    DigitValueRoundTrip(lo);
  }

  /** The 32 bytes a `bytes32` text denotes, or `None` for a text `isHex32` rejects. */
  function DecodeHex32(s: string): (r: Option<seq<byte>>)
    ensures r.Some? <==> IsHex32(s)
    ensures r.Some? ==> |r.value| == 32
  {
    if IsHex32(s) then Some(seq(32, i requires 0 <= i < 32 => PairValue(s[2 + 2 * i], s[3 + 2 * i])))
    else None
  }

  /** A text `isHex32` accepts decodes to the bytes its digit pairs denote. */
  lemma DecodeHex32Pairs(s: string, bytes: seq<byte>)
    requires IsHex32(s) && |bytes| == 32
    requires forall i :: 0 <= i < 32 ==> PairValue(s[2 + 2 * i], s[3 + 2 * i]) == bytes[i]
    ensures DecodeHex32(s) == Some(bytes)
  {
    assert DecodeHex32(s).value == bytes;
  }

  /** The encoding loses nothing: decoding the text of 32 bytes gives those bytes back. */
  lemma DecodeHexOfBytes(bytes: seq<byte>)
    requires |bytes| == 32
    ensures DecodeHex32(HexOfBytes(bytes)) == Some(bytes)
  {
    var r := HexOfBytes(bytes);
    HexOfBytesIsHex32(bytes);
    HexOfBytesLayout(bytes);
    forall i | 0 <= i < 32 ensures PairValue(r[2 + 2 * i], r[3 + 2 * i]) == bytes[i] {
      PairValueOfDigits(bytes[i]);
    }
    DecodeHex32Pairs(r, bytes);
  }

  /** Two 66-character texts that agree on the prefix and on every digit pair are equal. */
  lemma SameDigitPairs(r: string, s: string)
    requires |r| == |s| == 66 && r[0] == s[0] && r[1] == s[1]
    requires forall i :: 0 <= i < 32 ==> r[2 + 2 * i] == s[2 + 2 * i] && r[3 + 2 * i] == s[3 + 2 * i]
    ensures r == s
  {
    forall j | 2 <= j < 66 ensures r[j] == s[j] {
      PositionOfDigit(j);
    }
  }

  /**
   * Conversely, every `bytes32` text written in lower case is the encoding of the bytes it denotes:
   * the encoder reaches exactly the lower-case texts `isHex32` accepts.
   */
  lemma HexOfBytesDecodeHex32(s: string)
    requires IsHex32(s)
    requires forall j :: 2 <= j < |s| ==> IsLowerHexDigit(s[j])
    ensures HexOfBytes(DecodeHex32(s).value) == s
  {
    var bytes := DecodeHex32(s).value;
    var r := HexOfBytes(bytes);
    HexOfBytesLayout(bytes);
    forall i | 0 <= i < 32 ensures r[2 + 2 * i] == s[2 + 2 * i] && r[3 + 2 * i] == s[3 + 2 * i] {
      assert bytes[i] == PairValue(s[2 + 2 * i], s[3 + 2 * i]);
      DigitsOfPairValue(s[2 + 2 * i], s[3 + 2 * i]);
    }
    assert r[..2] == "0x";
    SameDigitPairs(r, s);
  }

  /** Distinct random draws give distinct commitments. */
  lemma RandomHex32Injective(a: seq<byte>, b: seq<byte>)
    requires |a| == 32 && |b| == 32
    requires RandomHex32(a) == RandomHex32(b)
    ensures a == b
  {
    DecodeHexOfBytes(a);
    DecodeHexOfBytes(b);
  }

  /** `"0x" + "b".repeat(64)`: the initial commitment. */
  const DefaultCommitment: string := "0x" + Repeat('b', 64)
  /** `"0x" + "a".repeat(64)`: the initial virtual Merkle root. */
  const DefaultVirtualMerkleRoot: string := "0x" + Repeat('a', 64)
  /** `"0x" + "9".repeat(64)`: the initial nullifier. */
  const DefaultNullifier: string := "0x" + Repeat('9', 64)

  lemma RepeatedDigitIsHex32(c: char)
    requires IsHexDigit(c)
    ensures IsHex32("0x" + Repeat(c, 64))
  {
  }

  /** The three initial values pass `isHex32`, so the guards accept the untouched form. */
  lemma DefaultsAreHex32()
    ensures IsHex32(DefaultCommitment)
    ensures IsHex32(DefaultVirtualMerkleRoot)
    ensures IsHex32(DefaultNullifier)
  {
    RepeatedDigitIsHex32('b');
    RepeatedDigitIsHex32('a');
    RepeatedDigitIsHex32('9');
  }
}
