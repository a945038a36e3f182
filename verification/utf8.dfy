/** UTF-8 as Rust's `String` uses it: the bytes a string becomes when it is
    sent (`String::as_bytes`), and the lossy decoding `String::from_utf8_lossy`
    applies to a buffered response body. Byte ranges follow RFC 3629 section 4. */
module Utf8 {

  newtype Byte = b: int | 0 <= b < 256

  type Bytes = seq<Byte>

  /** U+FFFD REPLACEMENT CHARACTER: stands for one ill-formed subsequence. */
  const Replacement: char := '\U{FFFD}'

  predicate IsContinuation(b: Byte) {
    0x80 <= b <= 0xBF
  }

  predicate IsAscii(bs: Bytes) {
    forall i :: 0 <= i < |bs| ==> bs[i] < 0x80
  }

  predicate IsAsciiText(s: string) {
    forall i :: 0 <= i < |s| ==> s[i] as int < 0x80
  }

  /** The UTF-8 form of one scalar value. */
  function EncodeChar(c: char): (r: Bytes)
    ensures 1 <= |r| <= 4
    ensures |r| == 1 <==> c as int < 0x80
    ensures |r| == 1 ==> r[0] as int == c as int
    ensures forall i :: 1 <= i < |r| ==> IsContinuation(r[i])
  {
    var n := c as int;
    if n < 0x80 then
      [n as Byte]
    else if n < 0x800 then
      [(0xC0 + n / 0x40) as Byte, (0x80 + n % 0x40) as Byte]
    else if n < 0x1_0000 then
      [(0xE0 + n / 0x1000) as Byte, (0x80 + n / 0x40 % 0x40) as Byte, (0x80 + n % 0x40) as Byte]
    else
      [(0xF0 + n / 0x4_0000) as Byte, (0x80 + n / 0x1000 % 0x40) as Byte,
       (0x80 + n / 0x40 % 0x40) as Byte, (0x80 + n % 0x40) as Byte]
  }

  /** The UTF-8 form of a string: what `String::as_bytes` yields. Every
      character takes one to four bytes. */
  function Encode(s: string): (r: Bytes)
    ensures |s| <= |r| <= 4 * |s|
  {
    if s == [] then [] else EncodeChar(s[0]) + Encode(s[1..])
  }

  /** May `b` follow the lead byte `lead` of a three-byte sequence? The
      ranges after E0 and ED exclude overlong forms and surrogates. */
  predicate SecondOfThree(lead: Byte, b: Byte) {
    if lead == 0xE0 then 0xA0 <= b <= 0xBF
    else if lead == 0xED then 0x80 <= b <= 0x9F
    else IsContinuation(b)
  }

  /** May `b` follow the lead byte `lead` of a four-byte sequence? The
      ranges after F0 and F4 exclude overlong forms and values past U+10FFFF. */
  predicate SecondOfFour(lead: Byte, b: Byte) {
    if lead == 0xF0 then 0x90 <= b <= 0xBF
    else if lead == 0xF4 then 0x80 <= b <= 0x8F
    else IsContinuation(b)
  }

  predicate ContinuationAt(bs: Bytes, i: nat) {
    i < |bs| && IsContinuation(bs[i])
  }

  /** One step of the lossy decoder at the start of `bs`: how many bytes it
      consumes and the character they give. A well-formed sequence gives its
      scalar value. Otherwise the step consumes the lead byte and every
      following byte that still fits a well-formed sequence (a maximal
      subpart, at least one byte), and gives one U+FFFD for all of them. */
  function Step(bs: Bytes): (r: (nat, char))
    requires |bs| > 0
    ensures 1 <= r.0 <= |bs| && r.0 <= 4
    ensures bs[0] < 0x80 ==> r == (1, bs[0] as int as char)
  {
    var lead := bs[0];
    var x := lead as int;
    if lead < 0x80 then
      (1, x as char)
    else if 0xC2 <= lead <= 0xDF then
      if !ContinuationAt(bs, 1) then (1, Replacement)
      else (2, ((x - 0xC0) * 0x40 + (bs[1] as int - 0x80)) as char)
    else if 0xE0 <= lead <= 0xEF then
      if !(1 < |bs| && SecondOfThree(lead, bs[1])) then (1, Replacement)
      else if !ContinuationAt(bs, 2) then (2, Replacement)
      else (3, ThreeByteValue(lead, bs[1], bs[2]) as char)
    else if 0xF0 <= lead <= 0xF4 then
      if !(1 < |bs| && SecondOfFour(lead, bs[1])) then (1, Replacement)
      else if !ContinuationAt(bs, 2) then (2, Replacement)
      else if !ContinuationAt(bs, 3) then (3, Replacement)
      else (4, FourByteValue(lead, bs[1], bs[2], bs[3]) as char)
    else
      (1, Replacement)
  }

  function ThreeByteValue(lead: Byte, b1: Byte, b2: Byte): (n: int)
    requires 0xE0 <= lead <= 0xEF && SecondOfThree(lead, b1) && IsContinuation(b2)
    ensures 0x800 <= n < 0xD800 || 0xE000 <= n < 0x1_0000
  {
    (lead as int - 0xE0) * 0x1000 + (b1 as int - 0x80) * 0x40 + (b2 as int - 0x80)
  }

  function FourByteValue(lead: Byte, b1: Byte, b2: Byte, b3: Byte): (n: int)
    requires 0xF0 <= lead <= 0xF4 && SecondOfFour(lead, b1)
    requires IsContinuation(b2) && IsContinuation(b3)
    ensures 0x1_0000 <= n < 0x11_0000
  {
    (lead as int - 0xF0) * 0x4_0000 + (b1 as int - 0x80) * 0x1000
      + (b2 as int - 0x80) * 0x40 + (b3 as int - 0x80)
  }

  /** `String::from_utf8_lossy`: decode `bs` step by step, each ill-formed
      subsequence becoming one U+FFFD. It never yields more characters than
      there are bytes. */
  function DecodeLossy(bs: Bytes): (s: string)
    ensures |s| <= |bs|
    decreases |bs|
  {
    if bs == [] then ""
    else
      var (n, c) := Step(bs);
      [c] + DecodeLossy(bs[n..])
  }

  /** Decoding the UTF-8 form of a character takes exactly its bytes and
      gives the character back, whatever follows. */
  lemma StepEncodeChar(c: char, rest: Bytes)
    ensures Step(EncodeChar(c) + rest) == (|EncodeChar(c)|, c)
  {
    var n := c as int;
    if n < 0x80 {
    } else if n < 0x800 {
      StepTwo(c, rest);
    } else if n < 0x1_0000 {
      StepThree(c, rest);
    } else {
      StepFour(c, rest);
    }
  }

  lemma StepTwo(c: char, rest: Bytes)
    requires 0x80 <= c as int < 0x800
    ensures Step(EncodeChar(c) + rest) == (2, c)
  {
    var n := c as int;
    var bs := EncodeChar(c) + rest;
    assert bs[0] as int == 0xC0 + n / 0x40 && bs[1] as int == 0x80 + n % 0x40;
    assert (bs[0] as int - 0xC0) * 0x40 + (bs[1] as int - 0x80) == n;
  }

  lemma StepThree(c: char, rest: Bytes)
    requires 0x800 <= c as int < 0x1_0000
    ensures Step(EncodeChar(c) + rest) == (3, c)
  {
    var n := c as int;
    var bs := EncodeChar(c) + rest;
    var hi, mid, lo := n / 0x1000, n / 0x40 % 0x40, n % 0x40;
    Split3(n);
    assert bs[0] as int == 0xE0 + hi && bs[1] as int == 0x80 + mid && bs[2] as int == 0x80 + lo;
    assert SecondOfThree(bs[0], bs[1]);
    assert ThreeByteValue(bs[0], bs[1], bs[2]) == n;
  }

  lemma StepFour(c: char, rest: Bytes)
    requires 0x1_0000 <= c as int
    ensures Step(EncodeChar(c) + rest) == (4, c)
  {
    var n := c as int;
    var bs := EncodeChar(c) + rest;
    var top, hi, mid, lo := n / 0x4_0000, n / 0x1000 % 0x40, n / 0x40 % 0x40, n % 0x40;
    Split4(n);
    assert bs[0] as int == 0xF0 + top && bs[1] as int == 0x80 + hi;
    assert bs[2] as int == 0x80 + mid && bs[3] as int == 0x80 + lo;
    assert SecondOfFour(bs[0], bs[1]);
    assert FourByteValue(bs[0], bs[1], bs[2], bs[3]) == n;
  }

  /** The three six-or-fewer-bit groups of a value below 0x10000, with the
      ranges that keep its encoding out of the overlong and surrogate forms. */
  lemma Split3(n: int)
    requires 0x800 <= n < 0x1_0000 && !(0xD800 <= n < 0xE000)
    ensures n == n / 0x1000 * 0x1000 + n / 0x40 % 0x40 * 0x40 + n % 0x40
    ensures 0 <= n / 0x1000 < 0x10
    ensures n / 0x1000 == 0 ==> n / 0x40 % 0x40 >= 0x20
    ensures n / 0x1000 == 0xD ==> n / 0x40 % 0x40 < 0x20
  {
    var q := n / 0x40;
    assert n == q * 0x40 + n % 0x40;
    assert q == q / 0x40 * 0x40 + q % 0x40;
    assert q / 0x40 == n / 0x1000;
  }

  lemma Split4(n: int)
    requires 0x1_0000 <= n < 0x11_0000
    ensures n == n / 0x4_0000 * 0x4_0000 + n / 0x1000 % 0x40 * 0x1000 + n / 0x40 % 0x40 * 0x40 + n % 0x40
    ensures 0 <= n / 0x4_0000 <= 4
    ensures n / 0x4_0000 == 0 ==> n / 0x1000 % 0x40 >= 0x10
    ensures n / 0x4_0000 == 4 ==> n / 0x1000 % 0x40 < 0x10
  {
    var q := n / 0x40;
    var p := q / 0x40;
    assert n == q * 0x40 + n % 0x40;
    assert q == p * 0x40 + q % 0x40;
    assert p == p / 0x40 * 0x40 + p % 0x40;
    assert p == n / 0x1000;
    assert p / 0x40 == n / 0x4_0000;
  }

  /** Round trip: the lossy decoding of well-formed UTF-8 replaces nothing,
      so a string sent as bytes decodes back to itself. */
  lemma {:induction false} DecodeEncode(s: string)
    ensures DecodeLossy(Encode(s)) == s
  {
    if s != [] {
      var e := EncodeChar(s[0]);
      var bs := Encode(s);
      assert bs == e + Encode(s[1..]);
      StepEncodeChar(s[0], Encode(s[1..]));
      assert bs[|e|..] == Encode(s[1..]);
      DecodeEncode(s[1..]);
    }
  }

  /** An ASCII body decodes character for character. */
  lemma {:induction false} DecodeAscii(bs: Bytes)
    requires IsAscii(bs)
    ensures |DecodeLossy(bs)| == |bs|
    ensures forall i :: 0 <= i < |bs| ==> DecodeLossy(bs)[i] as int == bs[i] as int
  {
    if bs != [] {
      assert IsAscii(bs[1..]) by {
        forall i | 0 <= i < |bs[1..]| ensures bs[1..][i] < 0x80 {
          assert bs[1..][i] == bs[i + 1];
        }
      }
      DecodeAscii(bs[1..]);
    }
  }

  /** ASCII text takes one byte per character, each equal to its code. */
  lemma {:induction false} EncodeAscii(s: string)
    requires IsAsciiText(s)
    ensures |Encode(s)| == |s|
    ensures forall i :: 0 <= i < |s| ==> Encode(s)[i] as int == s[i] as int
  {
    if s != [] {
      assert IsAsciiText(s[1..]) by {
        forall i | 0 <= i < |s[1..]| ensures s[1..][i] as int < 0x80 {
          assert s[1..][i] == s[i + 1];
        }
      }
      EncodeAscii(s[1..]);
    }
  }
}
