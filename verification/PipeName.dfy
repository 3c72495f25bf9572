/** The pipe-name fragment of a user name: injective, and readable backwards. */
module PipeName {
  import opened Wrappers
  import opened Utf8

  predicate IsAlphanumeric(b: int) {
    0x30 <= b <= 0x39 || 0x41 <= b <= 0x5a || 0x61 <= b <= 0x7a
  }

  function HexDigit(n: nat): (c: char)
    requires n < 16
    ensures IsAlphanumeric(c as int) && c != '_'
    ensures HexValue(c) == Some(n)
  {
    if n < 10 then '0' + n as char else 'A' + (n - 10) as char
  }

  function HexValue(c: char): (n: Option<nat>)
    ensures n.Some? ==> n.value < 16
  {
    if '0' <= c <= '9' then Some(c as int - '0' as int)
    else if 'A' <= c <= 'F' then Some(c as int - 'A' as int + 10)
    else None
  }

  function Escape(b: Byte): string {
    ['_', HexDigit(b / 16), HexDigit(b % 16)]
  }

  function EscapeAll(bytes: seq<Byte>): string {
    if bytes == [] then "" else EscapeAll(bytes[..|bytes| - 1]) + Escape(bytes[|bytes| - 1])
  }

  /** The character loop of the source, character by character. */
  function FragmentOf(c: char): string {
    if IsAlphanumeric(c as int) then [c] else EscapeAll(EncodeChar(c))
  }

  function Fragment(raw: string): string {
    if raw == "" then "" else Fragment(raw[..|raw| - 1]) + FragmentOf(raw[|raw| - 1])
  }

  method PipeUserFragment(raw: string) returns (out: string)
    ensures out == Fragment(raw)
  {
    out := "";
    for i := 0 to |raw|
      invariant out == Fragment(raw[..i])
    {
      assert raw[..i + 1][..i] == raw[..i];
      out := PushChar(out, raw[i]);
    }
    assert raw[..|raw|] == raw;
  }

  method PushChar(before: string, c: char) returns (out: string)
    ensures out == before + FragmentOf(c)
  {
    if IsAlphanumeric(c as int) {
      out := before + [c];
    } else {
      out := PushEscapes(before, EncodeChar(c));
    }
  }

  method PushEscapes(before: string, bytes: seq<Byte>) returns (out: string)
    ensures out == before + EscapeAll(bytes)
  {
    out := before;
    for j := 0 to |bytes|
      invariant out == before + EscapeAll(bytes[..j])
    {
      assert bytes[..j + 1][..j] == bytes[..j];
      out := out + Escape(bytes[j]);
    }
    assert bytes[..|bytes|] == bytes;
  }

  // ----- Byte by byte -----

  /** The escape of one byte of the encoding, whatever character it belongs to. */
  function ByteFragment(b: Byte): string {
    if IsAlphanumeric(b) then [b as char] else Escape(b)
  }

  function BytesFragment(bytes: seq<Byte>): string {
    if bytes == [] then "" else ByteFragment(bytes[0]) + BytesFragment(bytes[1..])
  }

  lemma {:induction false} BytesFragmentAppend(a: seq<Byte>, b: seq<Byte>)
    ensures BytesFragment(a + b) == BytesFragment(a) + BytesFragment(b)
  {
    if a == [] {
      assert a + b == b;
    } else {
      assert (a + b)[1..] == a[1..] + b;
      BytesFragmentAppend(a[1..], b);
    }
  }

  lemma {:induction false} EscapeAllIsBytes(bytes: seq<Byte>)
    requires forall b <- bytes :: !IsAlphanumeric(b)
    ensures EscapeAll(bytes) == BytesFragment(bytes)
  {
    if bytes != [] {
      var init, last := bytes[..|bytes| - 1], bytes[|bytes| - 1];
      assert last in bytes && bytes == init + [last];
      EscapeAllIsBytes(init);
      BytesFragmentAppend(init, [last]);
      assert BytesFragment([last]) == Escape(last);
    }
  }

  lemma {:induction false} FragmentOfIsBytes(c: char)
    ensures FragmentOf(c) == BytesFragment(EncodeChar(c))
  {
    var bytes := EncodeChar(c);
    if IsAlphanumeric(c as int) {
      assert bytes == [c as int] && bytes[1..] == [];
    } else {
      assert forall i :: 0 <= i < |bytes| ==> !IsAlphanumeric(bytes[i]);
      EscapeAllIsBytes(bytes);
    }
  }

  /** The character loop escapes the UTF-8 encoding one byte at a time. */
  lemma {:induction false} FragmentIsBytes(raw: string)
    ensures Fragment(raw) == BytesFragment(Encode(raw))
  {
    if raw != "" {
      var init, last := raw[..|raw| - 1], raw[|raw| - 1];
      assert raw == init + [last] && Encode([last]) == EncodeChar(last);
      EncodeAppend(init, [last]);
      FragmentIsBytes(init);
      FragmentOfIsBytes(last);
      BytesFragmentAppend(Encode(init), EncodeChar(last));
    }
  }

  // ----- Reading back -----

  function ReadBytes(s: string): Option<seq<Byte>> {
    if s == "" then Some([])
    else if s[0] == '_' then
      if |s| < 3 then None
      else
        var hi, lo, rest := HexValue(s[1]), HexValue(s[2]), ReadBytes(s[3..]);
        if hi.Some? && lo.Some? && rest.Some? then Some([hi.value * 16 + lo.value] + rest.value) else None
    else if IsAlphanumeric(s[0] as int) then
      var rest := ReadBytes(s[1..]);
      if rest.Some? then Some([s[0] as int] + rest.value) else None
    else None
  }

  function ReadUser(fragment: string): Option<string> {
    match ReadBytes(fragment)
    case None => None
    case Some(bytes) => Decode(bytes)
  }

  lemma {:induction false} ReadBytesBack(bytes: seq<Byte>)
    ensures ReadBytes(BytesFragment(bytes)) == Some(bytes)
  {
    if bytes != [] {
      var first, rest := ByteFragment(bytes[0]), BytesFragment(bytes[1..]);
      ReadBytesBack(bytes[1..]);
      assert bytes == [bytes[0]] + bytes[1..];
      assert (first + rest)[|first|..] == rest;
      assert forall i :: 0 <= i < |first| ==> (first + rest)[i] == first[i];
    }
  }

  /** A decoder recovers every user name from its fragment. */
  lemma {:induction false} ReadUserBack(raw: string)
    ensures ReadUser(Fragment(raw)) == Some(raw)
  {
    FragmentIsBytes(raw);
    ReadBytesBack(Encode(raw));
    DecodeEncode(raw);
  }

  /** Different users never share a default pipe name. */
  lemma {:induction false} FragmentIsInjective(a: string, b: string)
    requires Fragment(a) == Fragment(b)
    ensures a == b
  {
    ReadUserBack(a);
    ReadUserBack(b);
  }

  predicate IsNameChar(c: char) {
    c == '_' || IsAlphanumeric(c as int)
  }

  /** A fragment holds nothing but ASCII letters, digits and underscores. */
  lemma {:induction false} FragmentIsPlain(bytes: seq<Byte>)
    ensures forall c <- BytesFragment(bytes) :: IsNameChar(c)
  {
    if bytes != [] {
      FragmentIsPlain(bytes[1..]);
    }
  }

  // ----- The fragment itself -----

  /** Letters and digits stand for themselves; any other byte is an underscore and its two
      digits in upper-case hexadecimal. */
  lemma {:induction false} ByteFragmentIs(b: Byte)
    ensures ByteFragment(b) ==
            if '0' as int <= b <= '9' as int || 'A' as int <= b <= 'Z' as int || 'a' as int <= b <= 'z' as int
            then [b as char]
            else ['_', "0123456789ABCDEF"[b / 16], "0123456789ABCDEF"[b % 16]]
  {
    var digits := "0123456789ABCDEF";
    forall n | 0 <= n < 16
      ensures HexDigit(n) == digits[n]
    {
      assert n < 10 ==> digits[n] as int == '0' as int + n;
    }
  }

  /** A name of letters and digits is its own fragment. */
  lemma {:induction false} PlainNameIsItself(raw: string)
    requires forall i :: 0 <= i < |raw| ==>
               '0' <= raw[i] <= '9' || 'A' <= raw[i] <= 'Z' || 'a' <= raw[i] <= 'z'
    ensures Fragment(raw) == raw
  {
    if raw != "" {
      assert raw == raw[..|raw| - 1] + [raw[|raw| - 1]];
      PlainNameIsItself(raw[..|raw| - 1]);
    }
  }
}
