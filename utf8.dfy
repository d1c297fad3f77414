/**
  UTF-8 as Python's `str.encode("UTF-8")` and strict `bytes.decode("UTF-8")`
  use it, and Python's slicing of a byte string. A Dafny `char` is a Unicode
  scalar value, so encoding never fails; decoding fails (Python raises
  `UnicodeDecodeError`) on any byte sequence that is not well-formed UTF-8:
  truncated or overlong sequences, surrogates, code points above U+10FFFF.
 */
module Utf8 {
  import opened Wrappers

  type byte = x: int | 0 <= x < 256

  predicate IsContinuation(b: byte) {
    0x80 <= b <= 0xBF
  }

  /** The UTF-8 encoding of one scalar value: one to four bytes. */
  function EncodeChar(c: char): (bs: seq<byte>)
    ensures 1 <= |bs| <= 4
  {
    var n := c as int;
    if n < 0x80 then [n]
    else if n < 0x800 then [0xC0 + n / 64, 0x80 + n % 64]
    else if n < 0x1_0000 then [0xE0 + n / 4096, 0x80 + (n / 64) % 64, 0x80 + n % 64]
    else [0xF0 + n / 262144, 0x80 + (n / 4096) % 64, 0x80 + (n / 64) % 64, 0x80 + n % 64]
  }

  /** `s.encode("UTF-8")`. */
  function Encode(s: string): seq<byte> {
    if s == [] then [] else EncodeChar(s[0]) + Encode(s[1..])
  }

  /**
    The character whose well-formed encoding starts `bs`, and the number of
    bytes it takes; None when `bs` does not start with a well-formed sequence.
   */
  function DecodeFirst(bs: seq<byte>): (r: Option<(char, nat)>)
    requires bs != []
    ensures r.Some? ==> 1 <= r.value.1 <= |bs| && r.value.1 <= 4
  {
    var b0: int := bs[0];
    if b0 < 0x80 then Some((b0 as char, 1))
    else if 0xC2 <= b0 <= 0xDF then
      if |bs| >= 2 && IsContinuation(bs[1]) then
        var b1: int := bs[1];
        Some((((b0 - 0xC0) * 64 + (b1 - 0x80)) as char, 2))
      else None
    else if 0xE0 <= b0 <= 0xEF then
      var lo := if b0 == 0xE0 then 0xA0 else 0x80;
      var hi := if b0 == 0xED then 0x9F else 0xBF;
      if |bs| >= 3 && lo <= bs[1] <= hi && IsContinuation(bs[2]) then
        var b1: int, b2: int := bs[1], bs[2];
        Some((((b0 - 0xE0) * 4096 + (b1 - 0x80) * 64 + (b2 - 0x80)) as char, 3))
      else None
    else if 0xF0 <= b0 <= 0xF4 then
      var lo := if b0 == 0xF0 then 0x90 else 0x80;
      var hi := if b0 == 0xF4 then 0x8F else 0xBF;
      if |bs| >= 4 && lo <= bs[1] <= hi && IsContinuation(bs[2]) && IsContinuation(bs[3]) then
        var b1: int, b2: int, b3: int := bs[1], bs[2], bs[3];
        Some((((b0 - 0xF0) * 262144 + (b1 - 0x80) * 4096 + (b2 - 0x80) * 64 + (b3 - 0x80)) as char, 4))
      else None
    else None
  }

  /** `bs.decode("UTF-8")`: None where Python raises `UnicodeDecodeError`. */
  function Decode(bs: seq<byte>): (r: Option<string>)
    ensures r.Some? ==> |r.value| <= |bs| <= 4 * |r.value|
    decreases |bs|
  {
    if bs == [] then Some([])
    else match DecodeFirst(bs)
      case None => None
      case Some((c, k)) =>
        match Decode(bs[k..])
        case None => None
        case Some(rest) => Some([c] + rest)
  }

  /** Python's normalisation of a slice bound against a length `n`. */
  function SliceBound(i: int, n: nat): (k: nat)
    ensures k <= n
  {
    if i < 0 then (if i + n < 0 then 0 else i + n)
    else if i > n then n
    else i
  }

  /** `s[start:end]` with Python's rules for negative and out-of-range bounds. */
  function Slice<T>(s: seq<T>, start: int, end: int): seq<T> {
    var a := SliceBound(start, |s|);
    var b := SliceBound(end, |s|);
    if b <= a then [] else s[a..b]
  }

  /** `encoded[start:end].decode("UTF-8")`. */
  function DecodeSlice(encoded: seq<byte>, start: int, end: int): Option<string> {
    Decode(Slice(encoded, start, end))
  }

  // ---------------------------------------------------------------------------
  // Lemmas

  /** The base-64 digits of a two-byte scalar value, as the encoder writes them. */
  lemma {:induction false} TwoDigits(n: int)
    requires 0x80 <= n < 0x800
    ensures 2 <= n / 64 <= 0x1F
    ensures (n / 64) * 64 + n % 64 == n
  {
  }

  lemma {:induction false} ThreeDigits(n: int)
    requires 0x800 <= n < 0x1_0000
    ensures n / 4096 <= 0xF && (n / 64) % 64 + (n / 4096) * 64 == n / 64
    ensures n / 4096 == 0 ==> 0x20 <= (n / 64) % 64
    ensures (n / 4096) * 4096 + ((n / 64) % 64) * 64 + n % 64 == n
  {
    assert n / 4096 == (n / 64) / 64;
  }

  lemma {:induction false} FourDigits(n: int)
    requires 0x1_0000 <= n < 0x11_0000
    ensures n / 262144 <= 4
    ensures n / 262144 == 0 ==> 0x10 <= (n / 4096) % 64
    ensures n / 262144 == 4 ==> (n / 4096) % 64 <= 0xF
    ensures (n / 262144) * 262144 + ((n / 4096) % 64) * 4096 + ((n / 64) % 64) * 64 + n % 64 == n
  {
    assert n / 4096 == (n / 64) / 64;
    assert n / 262144 == (n / 4096) / 64;
  }

  lemma {:induction false} DecodeFirstTwoBytes(c: char, rest: seq<byte>)
    requires 0x80 <= c as int < 0x800
    ensures DecodeFirst(EncodeChar(c) + rest) == Some((c, 2))
  {
    var n := c as int;
    var bs := EncodeChar(c) + rest;
    TwoDigits(n);
    assert bs[0] == 0xC0 + n / 64 && bs[1] == 0x80 + n % 64;
  }

  lemma {:induction false} DecodeFirstThreeBytes(c: char, rest: seq<byte>)
    requires 0x800 <= c as int < 0x1_0000
    ensures DecodeFirst(EncodeChar(c) + rest) == Some((c, 3))
  {
    var n := c as int;
    var bs := EncodeChar(c) + rest;
    ThreeDigits(n);
    assert bs[0] == 0xE0 + n / 4096 && bs[1] == 0x80 + (n / 64) % 64 && bs[2] == 0x80 + n % 64;
  }

  lemma {:induction false} DecodeFirstFourBytes(c: char, rest: seq<byte>)
    requires 0x1_0000 <= c as int
    ensures DecodeFirst(EncodeChar(c) + rest) == Some((c, 4))
  {
    var n := c as int;
    var bs := EncodeChar(c) + rest;
    FourDigits(n);
    assert bs[0] == 0xF0 + n / 262144 && bs[1] == 0x80 + (n / 4096) % 64;
    assert bs[2] == 0x80 + (n / 64) % 64 && bs[3] == 0x80 + n % 64;
  }

  /** The decoder reads back exactly the bytes of one encoded character. */
  lemma {:induction false} DecodeFirstEncodeChar(c: char, rest: seq<byte>)
    ensures DecodeFirst(EncodeChar(c) + rest) == Some((c, |EncodeChar(c)|))
  {
    var n := c as int;
    if n < 0x80 {
      assert (EncodeChar(c) + rest)[0] == n;
    } else if n < 0x800 {
      DecodeFirstTwoBytes(c, rest);
    } else if n < 0x1_0000 {
      DecodeFirstThreeBytes(c, rest);
    } else {
      DecodeFirstFourBytes(c, rest);
    }
  }

  lemma {:induction false} Digits(q: int, r: int)
    requires 0 <= q && 0 <= r < 64
    ensures (q * 64 + r) / 64 == q && (q * 64 + r) % 64 == r
  {
  }

  lemma {:induction false} EncodeTwoBytes(b0: byte, b1: byte)
    requires 0xC2 <= b0 <= 0xDF && IsContinuation(b1)
    ensures EncodeChar(((b0 - 0xC0) * 64 + (b1 - 0x80)) as char) == [b0, b1]
  {
    Digits(b0 - 0xC0, b1 - 0x80);
  }

  lemma {:induction false} EncodeThreeBytes(b0: byte, b1: byte, b2: byte)
    requires 0xE0 <= b0 <= 0xEF && IsContinuation(b1) && IsContinuation(b2)
    requires b0 == 0xE0 ==> 0xA0 <= b1
    requires b0 == 0xED ==> b1 <= 0x9F
    ensures EncodeChar(((b0 - 0xE0) * 4096 + (b1 - 0x80) * 64 + (b2 - 0x80)) as char) == [b0, b1, b2]
  {
    var n := (b0 - 0xE0) * 4096 + (b1 - 0x80) * 64 + (b2 - 0x80);
    var q := (b0 - 0xE0) * 64 + (b1 - 0x80);
    assert n == q * 64 + (b2 - 0x80);
    Digits(q, b2 - 0x80);
    Digits(b0 - 0xE0, b1 - 0x80);
    assert n / 4096 == (n / 64) / 64;
  }

  lemma {:induction false} EncodeFourBytes(b0: byte, b1: byte, b2: byte, b3: byte)
    requires 0xF0 <= b0 <= 0xF4 && IsContinuation(b1) && IsContinuation(b2) && IsContinuation(b3)
    requires b0 == 0xF0 ==> 0x90 <= b1
    requires b0 == 0xF4 ==> b1 <= 0x8F
    ensures EncodeChar(((b0 - 0xF0) * 262144 + (b1 - 0x80) * 4096 + (b2 - 0x80) * 64 + (b3 - 0x80)) as char) == [b0, b1, b2, b3]
  {
    var n := (b0 - 0xF0) * 262144 + (b1 - 0x80) * 4096 + (b2 - 0x80) * 64 + (b3 - 0x80);
    var q1 := (b0 - 0xF0) * 64 + (b1 - 0x80);
    var q2 := q1 * 64 + (b2 - 0x80);
    assert n == q2 * 64 + (b3 - 0x80);
    Digits(q2, b3 - 0x80);
    Digits(q1, b2 - 0x80);
    Digits(b0 - 0xF0, b1 - 0x80);
    assert n / 4096 == (n / 64) / 64;
    assert n / 262144 == (n / 4096) / 64;
  }

  /** One well-formed sequence re-encodes to the bytes it was decoded from. */
  lemma {:induction false} EncodeCharDecodeFirst(bs: seq<byte>)
    requires bs != [] && DecodeFirst(bs).Some?
    ensures EncodeChar(DecodeFirst(bs).value.0) == bs[..DecodeFirst(bs).value.1]
  {
    var k := DecodeFirst(bs).value.1;
    if k == 2 {
      EncodeTwoBytes(bs[0], bs[1]);
      assert bs[..2] == [bs[0], bs[1]];
    } else if k == 3 {
      EncodeThreeBytes(bs[0], bs[1], bs[2]);
      assert bs[..3] == [bs[0], bs[1], bs[2]];
    } else if k == 4 {
      EncodeFourBytes(bs[0], bs[1], bs[2], bs[3]);
      assert bs[..4] == [bs[0], bs[1], bs[2], bs[3]];
    } else {
      assert bs[..1] == [bs[0]];
    }
  }

  lemma {:induction false} EncodeAppend(a: string, b: string)
    ensures Encode(a + b) == Encode(a) + Encode(b)
  {
    if a == [] {
      assert a + b == b;
    } else {
      assert (a + b)[1..] == a[1..] + b;
      EncodeAppend(a[1..], b);
    }
  }

  /** Decoding undoes encoding. */
  lemma {:induction false} DecodeEncode(s: string)
    ensures Decode(Encode(s)) == Some(s)
  {
    if s != [] {
      var e := EncodeChar(s[0]);
      var bs := e + Encode(s[1..]);
      assert Encode(s) == bs;
      DecodeFirstEncodeChar(s[0], Encode(s[1..]));
      assert bs[|e|..] == Encode(s[1..]);
      DecodeEncode(s[1..]);
      assert s == [s[0]] + s[1..];
    }
  }

  /** Whatever decodes re-encodes to the same bytes: Decode is exactly the inverse of Encode. */
  lemma {:induction false} EncodeDecode(bs: seq<byte>)
    requires Decode(bs).Some?
    ensures Encode(Decode(bs).value) == bs
    decreases |bs|
  {
    if bs != [] {
      var k := DecodeFirst(bs).value.1;
      EncodeCharDecodeFirst(bs);
      EncodeDecode(bs[k..]);
      assert bs == bs[..k] + bs[k..];
    }
  }

  lemma {:induction false} SliceMiddle<T>(x: seq<T>, y: seq<T>, z: seq<T>)
    ensures Slice(x + y + z, |x|, |x| + |y|) == y
  {
    var all := x + y + z;
    assert SliceBound(|x|, |all|) == |x|;
    assert SliceBound(|x| + |y|, |all|) == |x| + |y|;
    assert all[|x|..|x| + |y|] == y;
  }

  lemma {:induction false} DecodeSliceOfEncoding(bs: seq<byte>, start: int, end: int, s: string)
    requires Slice(bs, start, end) == Encode(s)
    ensures DecodeSlice(bs, start, end) == Some(s)
  {
    DecodeEncode(s);
  }

  /** The encoding of `a + b + c` holds the encoding of `b` at byte offset `|Encode(a)|`. */
  lemma {:induction false} SpanEncodes(a: string, b: string, c: string)
    ensures Slice(Encode(a + b + c), |Encode(a)|, |Encode(a)| + |Encode(b)|) == Encode(b)
  {
    EncodeAppend(a + b, c);
    EncodeAppend(a, b);
    SliceMiddle(Encode(a), Encode(b), Encode(c));
  }

  /**
    A byte span that covers exactly the encoding of `b` inside the encoding
    of `a + b + c` decodes to `b`: this is what a facet's byte offsets mean
    when they fit the text they are applied to.
   */
  lemma {:induction false} SpanDecodes(text: string, a: string, b: string, c: string, start: int, end: int)
    requires text == a + b + c
    requires start == |Encode(a)| && end == |Encode(a)| + |Encode(b)|
    ensures DecodeSlice(Encode(text), start, end) == Some(b)
  {
    SpanEncodes(a, b, c);
    DecodeSliceOfEncoding(Encode(text), start, end, b);
  }
}
