/**
 * Strict UTF-8 well-formedness, as `bytes.decode("utf-8")` checks it before it
 * returns a string: shortest forms only, no surrogates, nothing above U+10FFFF.
 */
module Utf8 {
  import opened ByteCodec

  predicate InRange(b: byte, lo: int, hi: int) {
    lo <= b <= hi
  }

  /** A trailing byte 10xxxxxx. */
  predicate IsContinuation(b: byte) {
    InRange(b, 0x80, 0xBF)
  }

  /** The well-formed byte sequences of the Unicode standard (its table of well-formed UTF-8). */
  predicate ValidUtf8(s: seq<byte>)
    decreases |s|
  {
    if |s| == 0 then true
    else if s[0] <= 0x7F then ValidUtf8(s[1..])
    else if InRange(s[0], 0xC2, 0xDF) then
      |s| >= 2 && IsContinuation(s[1]) && ValidUtf8(s[2..])
    else if InRange(s[0], 0xE0, 0xEF) then
      |s| >= 3 &&
      (if s[0] == 0xE0 then InRange(s[1], 0xA0, 0xBF)
       else if s[0] == 0xED then InRange(s[1], 0x80, 0x9F)
       else IsContinuation(s[1])) &&
      IsContinuation(s[2]) && ValidUtf8(s[3..])
    else if InRange(s[0], 0xF0, 0xF4) then
      |s| >= 4 &&
      (if s[0] == 0xF0 then InRange(s[1], 0x90, 0xBF)
       else if s[0] == 0xF4 then InRange(s[1], 0x80, 0x8F)
       else IsContinuation(s[1])) &&
      IsContinuation(s[2]) && IsContinuation(s[3]) && ValidUtf8(s[4..])
    else false
  }

  /** A Unicode scalar value: a code point that is not a surrogate. */
  predicate IsScalarValue(cp: int) {
    0 <= cp < 0xD800 || 0xE000 <= cp <= 0x10FFFF
  }

  /** The UTF-8 encoding of one scalar value: one to four bytes. */
  function EncodeScalar(cp: int): (r: seq<byte>)
    requires IsScalarValue(cp)
    ensures 1 <= |r| <= 4
    ensures |r| == 1 <==> cp < 0x80
  {
    if cp < 0x80 then [cp]
    else if cp < 0x800 then [0xC0 + cp / 64, 0x80 + cp % 64]
    else if cp < 0x10000 then [0xE0 + cp / 4096, 0x80 + (cp / 64) % 64, 0x80 + cp % 64]
    else [0xF0 + cp / 262144, 0x80 + (cp / 4096) % 64, 0x80 + (cp / 64) % 64, 0x80 + cp % 64]
  }

  /** The UTF-8 encoding of a string of scalar values. */
  function Encode(cps: seq<int>): (r: seq<byte>)
    requires forall i :: 0 <= i < |cps| ==> IsScalarValue(cps[i])
  {
    if |cps| == 0 then [] else EncodeScalar(cps[0]) + Encode(cps[1..])
  }

  /** A well-formed sequence stays well-formed behind one encoded scalar value. */
  lemma EncodeScalarValid(cp: int, rest: seq<byte>)
    requires IsScalarValue(cp) && ValidUtf8(rest)
    ensures ValidUtf8(EncodeScalar(cp) + rest)
  {
    var s := EncodeScalar(cp) + rest;
    var n := |EncodeScalar(cp)|;
    assert s[n..] == rest;
  }

  /** Every encoded string of scalar values is well-formed UTF-8. */
  lemma {:induction false} EncodeValid(cps: seq<int>)
    requires forall i :: 0 <= i < |cps| ==> IsScalarValue(cps[i])
    ensures ValidUtf8(Encode(cps))
  {
    if |cps| > 0 {
      EncodeValid(cps[1..]);
      EncodeScalarValid(cps[0], Encode(cps[1..]));
    }
  }

  /**
   * The byte length of an encoded string is at least its number of scalar
   * values, and equals it exactly when every scalar value is ASCII.
   */
  lemma {:induction false} EncodeLength(cps: seq<int>)
    requires forall i :: 0 <= i < |cps| ==> IsScalarValue(cps[i])
    ensures |Encode(cps)| >= |cps|
    ensures |Encode(cps)| == |cps| <==> forall i :: 0 <= i < |cps| ==> cps[i] < 0x80
  {
    if |cps| > 0 {
      EncodeLength(cps[1..]);
      assert forall i :: 1 <= i < |cps| ==> cps[i] == cps[1..][i - 1];
    }
  }
}
