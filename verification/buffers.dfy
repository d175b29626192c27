/**
 * Node `Buffer`s as byte sequences: slicing with JavaScript's index
 * conventions, encoding a string into bytes and turning bytes back into text.
 */
module Buffers {

  type Byte = b: int | 0 <= b < 256

  type Bytes = seq<Byte>

  /** Resolves a `subarray` index: negative counts from the end, then clamped to `[0, len]`. */
  function ResolveIndex(x: int, len: nat): (r: nat)
    ensures r <= len
    ensures 0 <= x <= len ==> r == x
    ensures x < 0 && len + x >= 0 ==> r == len + x
    ensures len + x < 0 ==> r == 0
  {
    if x < 0 then (if len + x < 0 then 0 else len + x)
    else if x > len then len
    else x
  }

  /**
   * `buffer.subarray(start, end)`: the bytes between the two resolved
   * indexes, empty when the end does not lie after the start.
   */
  function Subarray(b: Bytes, start: int, end: int): (r: Bytes)
    ensures 0 <= start <= end <= |b| ==> r == b[start..end]
    ensures 0 <= start && end < 0 ==>
              r == if start <= |b| + end then b[start..|b| + end] else []
  {
    var s := ResolveIndex(start, |b|);
    var e := ResolveIndex(end, |b|);
    if e <= s then [] else b[s..e]
  }

  /** The UTF-8 encoding of one character: a lead byte, then continuation bytes. */
  function EncodeChar(c: char): (r: Bytes)
    ensures 1 <= |r| <= 4
    ensures |r| == 1 <==> c as int < 0x80
    ensures |r| == 1 ==> r[0] == c as int
    ensures forall i :: 1 <= i < |r| ==> 0x80 <= r[i] < 0xC0
    ensures |r| > 1 ==> r[0] >= 0xC0
    ensures |r| == 4 <==> c as int >= 0x10000
  {
    var n := c as int;
    if n < 0x80 then [n]
    else if n < 0x800 then
      assert n / 0x40 < 0x20;
      [0xC0 + n / 0x40, 0x80 + n % 0x40]
    else if n < 0x10000 then
      assert n / 0x1000 < 0x10;
      [0xE0 + n / 0x1000, 0x80 + (n / 0x40) % 0x40, 0x80 + n % 0x40]
    else
      assert n / 0x40000 < 0x5;
      [0xF0 + n / 0x40000, 0x80 + (n / 0x1000) % 0x40, 0x80 + (n / 0x40) % 0x40, 0x80 + n % 0x40]
  }

  /** `Buffer.from(s)`: the UTF-8 encoding of a string, character by character. */
  function Utf8(s: string): (r: Bytes)
    ensures |r| >= |s|
  {
    if |s| == 0 then [] else EncodeChar(s[0]) + Utf8(s[1..])
  }

  predicate IsAscii(s: string) {
    forall i :: 0 <= i < |s| ==> s[i] as int < 0x80
  }

  /** Encoding distributes over concatenation. */
  lemma {:induction false} Utf8Append(a: string, b: string)
    ensures Utf8(a + b) == Utf8(a) + Utf8(b)
  {
    if |a| == 0 {
      assert a + b == b;
    } else {
      assert (a + b)[1..] == a[1..] + b;
      Utf8Append(a[1..], b);
    }
  }

  /**
   * `s.length`: the number of UTF-16 code units, one per character, two for
   * a character beyond U+FFFF (a surrogate pair).
   */
  function Utf16Length(s: string): nat {
    if |s| == 0 then 0 else (if s[0] as int >= 0x10000 then 2 else 1) + Utf16Length(s[1..])
  }

  /**
   * A string never has more UTF-16 code units than UTF-8 bytes, and has as
   * many exactly when it is ASCII.
   */
  lemma {:induction false} Utf16NotLonger(s: string)
    ensures |s| <= Utf16Length(s) <= |Utf8(s)|
    ensures Utf16Length(s) == |Utf8(s)| <==> IsAscii(s)
  {
    if |s| > 0 {
      Utf16NotLonger(s[1..]);
      assert IsAscii(s) <==> s[0] as int < 0x80 && IsAscii(s[1..]) by {
        assert forall i :: 0 < i < |s| ==> s[i] == s[1..][i - 1];
      }
    }
  }

  /** An ASCII string encodes to one byte per character, each its code. */
  lemma {:induction false} Utf8Ascii(s: string)
    requires IsAscii(s)
    ensures |Utf8(s)| == |s|
    ensures forall i :: 0 <= i < |s| ==> Utf8(s)[i] == s[i] as int
  {
    if |s| > 0 {
      Utf8Ascii(s[1..]);
    }
  }

  /**
   * `buffer.toString()`, exact on ASCII: each byte becomes the character
   * with the same code. Decoding of multi-byte UTF-8 sequences is not part
   * of this model.
   */
  function ToText(b: Bytes): (s: string)
    ensures |s| == |b|
    ensures forall i :: 0 <= i < |b| ==> s[i] as int == b[i]
  {
    seq(|b|, i requires 0 <= i < |b| => b[i] as char)
  }

  /** ASCII text survives encoding and decoding. */
  lemma AsciiRoundTrip(s: string)
    requires IsAscii(s)
    ensures ToText(Utf8(s)) == s
  {
    Utf8Ascii(s);
  }
}
