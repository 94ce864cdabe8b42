/** Reading through a pointer, memcpy and memset. */
module Buffers {

  /** The character a C pointer sees at offset i of a string: none of those beyond its terminator. */
  function At(s: string, i: nat): char
    requires i <= |s|
  {
    if i < |s| then s[i] else '\0'
  }

  function Min(a: nat, b: nat): nat {
    if a < b then a else b
  }

  /** `n` copies of a character. */
  function Repeat(c: char, n: nat): (s: string)
    ensures |s| == n && forall k :: 0 <= k < n ==> s[k] == c
  {
    seq(n, _ => c)
  }

  method CopyInto<T>(buf: array<T>, at: nat, s: seq<T>)
    requires at + |s| <= buf.Length
    modifies buf
    ensures buf[..at] == old(buf[..at])
    ensures buf[..at + |s|] == old(buf[..at]) + s
  {
    for i := 0 to |s|
      invariant buf[..at] == old(buf[..at])
      invariant buf[at..at + i] == s[..i]
    {
      buf[at + i] := s[i];
    }
    assert buf[..at + |s|] == buf[..at] + buf[at..at + |s|];
  }

  method Fill(buf: array<char>, at: nat, c: char, n: nat)
    requires at + n <= buf.Length
    modifies buf
    ensures buf[..at + n] == old(buf[..at]) + Repeat(c, n)
  {
    CopyInto(buf, at, Repeat(c, n));
  }

  /** A left-justified field: the text, then the padding. */
  method TextThenPad(buf: array<char>, at: nat, text: string, pad: char, n: nat)
    requires at + |text| + n <= buf.Length
    modifies buf
    ensures buf[..at + |text| + n] == old(buf[..at]) + (text + Repeat(pad, n))
  {
    CopyInto(buf, at, text);
    Fill(buf, at + |text|, pad, n);
    Associate(old(buf[..at]), text, Repeat(pad, n));
  }

  /** A right-justified field. */
  method PadThenText(buf: array<char>, at: nat, text: string, pad: char, n: nat)
    requires at + |text| + n <= buf.Length
    modifies buf
    ensures buf[..at + |text| + n] == old(buf[..at]) + (Repeat(pad, n) + text)
  {
    Fill(buf, at, pad, n);
    CopyInto(buf, at + n, text);
    Associate(old(buf[..at]), Repeat(pad, n), text);
  }

  lemma Associate<T>(a: seq<T>, b: seq<T>, c: seq<T>)
    ensures (a + b) + c == a + (b + c)
  {
  }
}
