/** UTF-8 as section 3 of RFC 3629 defines it, for strings of Unicode scalar values. */
module Utf8 {
  import opened Wrappers

  type Byte = b: int | 0 <= b < 256

  predicate IsContinuation(b: Byte) {
    0x80 <= b < 0xc0
  }

  function EncodeChar(c: char): (bytes: seq<Byte>)
    ensures 1 <= |bytes| <= 4
    ensures !IsContinuation(bytes[0])
    ensures forall i :: 1 <= i < |bytes| ==> IsContinuation(bytes[i])
    ensures |bytes| == 1 <==> bytes[0] < 0x80
    ensures |bytes| == 1 <==> c as int < 0x80
  {
    var n := c as int;
    if n < 0x80 then [n]
    else if n < 0x800 then [0xc0 + n / 0x40, 0x80 + n % 0x40]
    else if n < 0x1_0000 then [0xe0 + n / 0x1000, 0x80 + n / 0x40 % 0x40, 0x80 + n % 0x40]
    else [0xf0 + n / 0x4_0000, 0x80 + n / 0x1000 % 0x40, 0x80 + n / 0x40 % 0x40, 0x80 + n % 0x40]
  }

  function Encode(s: string): seq<Byte> {
    if s == "" then [] else EncodeChar(s[0]) + Encode(s[1..])
  }

  // ----- Decoding -----

  predicate IsScalar(n: int) {
    0 <= n < 0xd800 || 0xe000 <= n < 0x11_0000
  }

  function CharOf(n: int): Option<char> {
    if IsScalar(n) then Some(n as char) else None
  }

  /** Length of the sequence a first byte announces. */
  function SequenceLength(b: int): nat {
    if b < 0x80 then 1 else if b < 0xe0 then 2 else if b < 0xf0 then 3 else 4
  }

  function DecodeChar(bytes: seq<int>): Option<char>
    requires bytes != [] && |bytes| == SequenceLength(bytes[0])
  {
    if |bytes| == 1 then CharOf(bytes[0])
    else if |bytes| == 2 then CharOf((bytes[0] - 0xc0) * 0x40 + (bytes[1] - 0x80))
    else if |bytes| == 3 then
      CharOf((bytes[0] - 0xe0) * 0x1000 + (bytes[1] - 0x80) * 0x40 + (bytes[2] - 0x80))
    else
      CharOf((bytes[0] - 0xf0) * 0x4_0000 + (bytes[1] - 0x80) * 0x1000 + (bytes[2] - 0x80) * 0x40 + (bytes[3] - 0x80))
  }

  function Decode(bytes: seq<Byte>): Option<string> {
    if bytes == [] then Some("")
    else
      var n := SequenceLength(bytes[0]);
      if n > |bytes| then None
      else
        var c, rest := DecodeChar(bytes[..n]), Decode(bytes[n..]);
        if c.Some? && rest.Some? then Some([c.value] + rest.value) else None
  }

  lemma {:induction false} DecodeEncodeChar(c: char)
    ensures |EncodeChar(c)| == SequenceLength(EncodeChar(c)[0])
    ensures DecodeChar(EncodeChar(c)) == Some(c)
  {
    var n := c as int;
    assert IsScalar(n);
    assert n / 0x1000 == n / 0x40 / 0x40;
    assert n / 0x4_0000 == n / 0x1000 / 0x40;
  }

  /** The four forms of a character: which characters have which, the marks of their bytes,
      and the number that the bytes spell below those marks. */
  lemma {:induction false} EncodingIs(c: char)
    ensures var n: int, b: seq<int> := c as int, EncodeChar(c);
            && (n <= 0x7f ==> b == [n])
            && (0x80 <= n <= 0x7ff ==> |b| == 2 && 0xc2 <= b[0] <= 0xdf && n == (b[0] - 0xc0) * 0x40 + b[1] - 0x80)
            && (0x800 <= n <= 0xffff ==>
                  |b| == 3 && 0xe0 <= b[0] <= 0xef && n == (b[0] - 0xe0) * 0x1000 + (b[1] - 0x80) * 0x40 + b[2] - 0x80)
            && (0x1_0000 <= n ==>
                  && |b| == 4 && 0xf0 <= b[0] <= 0xf4
                  && n == (b[0] - 0xf0) * 0x4_0000 + (b[1] - 0x80) * 0x1000 + (b[2] - 0x80) * 0x40 + b[3] - 0x80)
            && forall i :: 1 <= i < |b| ==> 0x80 <= b[i] <= 0xbf
  {
    var n := c as int;
    assert n / 0x1000 == n / 0x40 / 0x40;
    assert n / 0x4_0000 == n / 0x1000 / 0x40;
  }

  lemma {:induction false} DecodeEncode(s: string)
    ensures Decode(Encode(s)) == Some(s)
  {
    if s != "" {
      var first, rest := EncodeChar(s[0]), Encode(s[1..]);
      DecodeEncodeChar(s[0]);
      DecodeEncode(s[1..]);
      assert (first + rest)[..|first|] == first && (first + rest)[|first|..] == rest;
      assert s == [s[0]] + s[1..];
    }
  }

  lemma {:induction false} EncodeAppend(s: string, t: string)
    ensures Encode(s + t) == Encode(s) + Encode(t)
  {
    if s == "" {
      assert s + t == t;
    } else {
      assert (s + t)[1..] == s[1..] + t;
      EncodeAppend(s[1..], t);
    }
  }

  // ----- Character boundaries -----

  /** Where a string may be sliced: its ends, and any byte that starts a character. */
  predicate IsBoundary(bytes: seq<Byte>, i: nat) {
    i == 0 || i == |bytes| || (i < |bytes| && !IsContinuation(bytes[i]))
  }

  /** A boundary separates the encodings of two halves of the string. */
  lemma {:induction false} BoundarySplits(s: string, i: nat) returns (k: nat)
    requires IsBoundary(Encode(s), i) && i <= |Encode(s)|
    ensures k <= |s|
    ensures Encode(s)[..i] == Encode(s[..k]) && Encode(s)[i..] == Encode(s[k..])
  {
    if i == 0 {
      k := 0;
      assert s[..0] == "" && s[0..] == s;
    } else {
      var first, rest := EncodeChar(s[0]), Encode(s[1..]);
      assert i >= |first|;
      var j := BoundarySplits(s[1..], i - |first|);
      k := j + 1;
      assert s[..k][0] == s[0] && s[..k][1..] == s[1..][..j] && s[k..] == s[1..][j..];
      assert Encode(s)[..i] == first + rest[..i - |first|];
      assert Encode(s)[i..] == rest[i - |first|..];
    }
  }

  /** The string begins at a boundary, and a boundary follows every ASCII byte. */
  lemma {:induction false} AfterAscii(s: string, i: nat)
    requires i < |Encode(s)| && Encode(s)[i] < 0x80
    ensures IsBoundary(Encode(s), i) && IsBoundary(Encode(s), i + 1)
  {
    var first, rest := EncodeChar(s[0]), Encode(s[1..]);
    if i < |first| {
      assert i == 0 && |first| == 1;
      if s[1..] != "" {
        assert rest[0] == EncodeChar(s[1])[0];
      }
    } else {
      assert rest[i - |first|] == Encode(s)[i];
      AfterAscii(s[1..], i - |first|);
    }
  }

  /** What is between two boundaries is itself the encoding of a part of the string. */
  lemma {:induction false} SliceIsText(s: string, i: nat, j: nat) returns (t: string)
    requires i <= j <= |Encode(s)| && IsBoundary(Encode(s), i) && IsBoundary(Encode(s), j)
    ensures Encode(s)[i..j] == Encode(t)
  {
    var k := BoundarySplits(s, i);
    BoundaryInTail(Encode(s), i, j);
    t := PrefixIsText(s[k..], j - i);
  }

  lemma {:induction false} PrefixIsText(s: string, i: nat) returns (t: string)
    requires IsBoundary(Encode(s), i) && i <= |Encode(s)|
    ensures Encode(s)[..i] == Encode(t)
  {
    var k := BoundarySplits(s, i);
    t := s[..k];
  }

  lemma {:induction false} BoundaryInTail(bytes: seq<Byte>, i: nat, j: nat)
    requires i <= j <= |bytes| && IsBoundary(bytes, j)
    ensures IsBoundary(bytes[i..], j - i)
    ensures bytes[i..][..j - i] == bytes[i..j]
  {
  }
}
