/**
 * `str.encode("utf-8", errors="ignore")`: every code point except a lone
 * surrogate is written as its one- to four-byte UTF-8 form; surrogates
 * cannot be encoded and are silently dropped.
 */
module Utf8 {
  import opened Text

  predicate IsSurrogate(c: CodePoint) { 0xD800 <= c <= 0xDFFF }

  predicate NoSurrogates(s: PyStr) { forall i :: 0 <= i < |s| ==> !IsSurrogate(s[i]) }

  predicate IsContinuation(b: Byte) { 0x80 <= b < 0xC0 }

  /** Number of bytes a sequence starting with lead byte `b` occupies; 0 if `b` cannot start one. */
  function SequenceLength(b: Byte): nat
  {
    if b < 0x80 then 1
    else if b < 0xC0 then 0
    else if b < 0xE0 then 2
    else if b < 0xF0 then 3
    else if b < 0xF8 then 4
    else 0
  }

  function EncodeCodePoint(c: CodePoint): (bs: seq<Byte>)
    requires !IsSurrogate(c)
    ensures 1 <= |bs| <= 4
    ensures SequenceLength(bs[0]) == |bs|
    ensures forall k :: 1 <= k < |bs| ==> IsContinuation(bs[k])
    ensures c < 0x80 <==> |bs| == 1
  {
    if c < 0x80 then [c]
    else if c < 0x800 then [0xC0 + c / 64, 0x80 + c % 64]
    else if c < 0x1_0000 then [0xE0 + c / 4096, 0x80 + c / 64 % 64, 0x80 + c % 64]
    else [0xF0 + c / 262144, 0x80 + c / 4096 % 64, 0x80 + c / 64 % 64, 0x80 + c % 64]
  }

  /** `s.encode("utf-8", errors="ignore")` */
  function EncodeIgnore(s: PyStr): (bs: seq<Byte>)
    ensures NoSurrogates(s) ==> |s| <= |bs| <= 4 * |s|
    ensures |bs| <= 4 * |s|
  {
    if s == [] then []
    else (if IsSurrogate(s[0]) then [] else EncodeCodePoint(s[0])) + EncodeIgnore(s[1..])
  }

  /** Reads back one code point whose encoding is exactly `bs`. */
  function DecodeCodePoint(bs: seq<Byte>): (r: Option<CodePoint>)
  {
    if |bs| == 0 || SequenceLength(bs[0]) != |bs| then None
    else if exists k :: 1 <= k < |bs| && !IsContinuation(bs[k]) then None
    else
      var b: seq<int> := bs;
      var v :=
        if |b| == 1 then b[0]
        else if |b| == 2 then (b[0] - 0xC0) * 64 + (b[1] - 0x80)
        else if |b| == 3 then (b[0] - 0xE0) * 4096 + (b[1] - 0x80) * 64 + (b[2] - 0x80)
        else (b[0] - 0xF0) * 262144 + (b[1] - 0x80) * 4096 + (b[2] - 0x80) * 64 + (b[3] - 0x80);
      if v < 0x11_0000 then Some(v) else None
  }

  /** Decodes a whole byte sequence; None when it is not a sequence of encoded code points. */
  function Decode(bs: seq<Byte>): (r: Option<PyStr>)
    decreases |bs|
  {
    if bs == [] then Some([])
    else
      var n := SequenceLength(bs[0]);
      if n == 0 || |bs| < n then None
      else match DecodeCodePoint(bs[..n])
        case None => None
        case Some(c) =>
          match Decode(bs[n..])
          case None => None
          case Some(rest) => Some([c] + rest)
  }

  lemma DecodeEncodeCodePoint(c: CodePoint)
    requires !IsSurrogate(c)
    ensures DecodeCodePoint(EncodeCodePoint(c)) == Some(c)
  {
    var bs: seq<int> := EncodeCodePoint(c);
    if c < 0x80 {
    } else if c < 0x800 {
      assert (bs[0] - 0xC0) * 64 + (bs[1] - 0x80) == c / 64 * 64 + c % 64 == c;
    } else if c < 0x1_0000 {
      assert c / 64 == c / 4096 * 64 + c / 64 % 64;
      assert (bs[0] - 0xE0) * 4096 + (bs[1] - 0x80) * 64 + (bs[2] - 0x80)
          == (c / 4096 * 64 + c / 64 % 64) * 64 + c % 64
          == c / 64 * 64 + c % 64 == c;
    } else {
      assert c / 4096 == c / 262144 * 64 + c / 4096 % 64;
      assert c / 64 == c / 4096 * 64 + c / 64 % 64;
      assert (bs[0] - 0xF0) * 262144 + (bs[1] - 0x80) * 4096 + (bs[2] - 0x80) * 64 + (bs[3] - 0x80)
          == ((c / 262144 * 64 + c / 4096 % 64) * 64 + c / 64 % 64) * 64 + c % 64
          == (c / 4096 * 64 + c / 64 % 64) * 64 + c % 64
          == c / 64 * 64 + c % 64 == c;
    }
  }

  /** Round trip: encoding loses nothing on a string without lone surrogates. */
  lemma {:induction false} DecodeEncode(s: PyStr)
    requires NoSurrogates(s)
    ensures Decode(EncodeIgnore(s)) == Some(s)
  {
    if s != [] {
      var head := EncodeCodePoint(s[0]);
      var bs := EncodeIgnore(s);
      assert bs == head + EncodeIgnore(s[1..]);
      var n := |head|;
      assert bs[0] == head[0] && bs[..n] == head && bs[n..] == EncodeIgnore(s[1..]);
      DecodeEncodeCodePoint(s[0]);
      assert NoSurrogates(s[1..]) by {
        forall i | 0 <= i < |s[1..]| ensures !IsSurrogate(s[1..][i]) { assert s[1..][i] == s[i + 1]; }
      }
      DecodeEncode(s[1..]);
      assert [s[0]] + s[1..] == s;
    }
  }

  /** Distinct surrogate-free strings have distinct encodings. */
  lemma EncodeInjective(s1: PyStr, s2: PyStr)
    requires NoSurrogates(s1) && NoSurrogates(s2)
    requires EncodeIgnore(s1) == EncodeIgnore(s2)
    ensures s1 == s2
  {
    DecodeEncode(s1);
    DecodeEncode(s2);
  }

  /** `errors="ignore"` drops a lone surrogate wherever it stands. */
  lemma {:induction false} SurrogateDropped(s: PyStr, c: CodePoint, t: PyStr)
    requires IsSurrogate(c)
    ensures EncodeIgnore(s + [c] + t) == EncodeIgnore(s + t)
    decreases |s|
  {
    if s == [] {
      assert s + [c] + t == [c] + t && ([c] + t)[1..] == t && s + t == t;
    } else {
      assert (s + [c] + t)[1..] == s[1..] + [c] + t;
      assert (s + t)[1..] == s[1..] + t;
      SurrogateDropped(s[1..], c, t);
    }
  }

  /**
   * Example, the instance `SurrogateDropped([0x61], 0xD800, [])` worked out:
   * "a" followed by a lone surrogate encodes as "a" does.
   */
  lemma IgnoreDropsSurrogate()
    ensures EncodeIgnore([0x61, 0xD800]) == EncodeIgnore([0x61]) == [0x61]
  {
    assert [0x61, 0xD800][1..] == [0xD800];
  }
}
