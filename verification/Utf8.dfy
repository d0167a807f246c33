/** UTF-8 as StringDataPython3 writes it, against the grammar of section 4 of
    RFC 3629. Shifts and masks of the original are written as division and
    remainder; BitForm shows that these are the same numbers. */
module Utf8 {
  import opened Wrappers
  import opened RemoteMemory

  type CodePoint = c: int | 0 <= c < 0x110000

  predicate Surrogate(c: CodePoint) {
    0xd800 <= c < 0xe000
  }

  function EncodeChar(c: CodePoint): seq<Byte> {
    if c < 0x80 then [c]
    else if c < 0x800 then [0xc0 + c / 0x40, 0x80 + c % 0x40]
    else if c < 0x10000 then [0xe0 + c / 0x1000, 0x80 + c / 0x40 % 0x40, 0x80 + c % 0x40]
    else [0xf0 + c / 0x40000, 0x80 + c / 0x1000 % 0x40, 0x80 + c / 0x40 % 0x40, 0x80 + c % 0x40]
  }

  /** The shifts, masks and ors of the original, on its unsigned 32-bit type. */
  lemma BitForm(c: bv32)
    requires c <= 0x10ffff
    ensures c >> 6 == c / 0x40 && c >> 12 == c / 0x1000 && c >> 18 == c / 0x40000
    ensures c & 0x3f == c % 0x40 && (c >> 6) & 0x3f == c / 0x40 % 0x40 && (c >> 12) & 0x3f == c / 0x1000 % 0x40
    ensures 0x80 | (c & 0x3f) == 0x80 + (c & 0x3f)
    ensures c < 0x800 ==> 0xc0 | (c >> 6) == 0xc0 + (c >> 6)
    ensures c < 0x10000 ==> 0xe0 | (c >> 12) == 0xe0 + (c >> 12)
    ensures 0xf0 | (c >> 18) == 0xf0 + (c >> 18)
  {
  }

  /** How many bytes a character takes, and where its bits are: six in each byte
      after the first, the highest in front. */
  lemma EncodeCharBytes(c: CodePoint)
    ensures var b := EncodeChar(c);
      && |b| == (if c <= 0x7f then 1 else if c <= 0x7ff then 2 else if c <= 0xffff then 3 else 4)
      && (forall i :: 1 <= i < |b| ==> 0x80 <= b[i] < 0xc0)
      && (|b| == 1 ==> c == b[0])
      && (|b| == 2 ==> c == (b[0] as int - 0xc0) * 0x40 + (b[1] as int - 0x80))
      && (|b| == 3 ==> c == (b[0] as int - 0xe0) * 0x1000 + (b[1] as int - 0x80) * 0x40 + (b[2] as int - 0x80))
      && (|b| == 4 ==> c == (b[0] as int - 0xf0) * 0x40000 + (b[1] as int - 0x80) * 0x1000
                           + (b[2] as int - 0x80) * 0x40 + (b[3] as int - 0x80))
  {
    Digits(c);
  }

  /** The output is that of the characters one after the other. */
  lemma {:induction false} EncodeConcat(a: seq<CodePoint>, b: seq<CodePoint>)
    ensures Encode(a + b) == Encode(a) + Encode(b)
    ensures |a| == 1 ==> Encode(a) == EncodeChar(a[0])
  {
    hide EncodeChar;
    if a == [] {
      assert a + b == b;
    } else {
      assert (a + b)[1..] == a[1..] + b;
      EncodeConcat(a[1..], b);
    }
  }

  function Encode(text: seq<CodePoint>): seq<Byte> {
    if text == [] then [] else EncodeChar(text[0]) + Encode(text[1..])
  }

  lemma {:induction false} EncodeSnoc(text: seq<CodePoint>, c: CodePoint)
    ensures Encode(text + [c]) == Encode(text) + EncodeChar(c)
  {
    hide EncodeChar;
    if text == [] {
      assert Encode([c]) == EncodeChar(c) + Encode([]);
      assert text + [c] == [c];
    } else {
      EncodeSnoc(text[1..], c);
      assert (text + [c])[1..] == text[1..] + [c];
    }
  }

  predicate Tail(b: Byte) { 0x80 <= b <= 0xbf }

  predicate Tails(b: seq<Byte>, n: nat) {
    n < |b| && forall i :: 1 <= i <= n ==> Tail(b[i])
  }

  /** The length of the one character of the grammar that b starts with, 0 if
      there is none: UTF8-1, UTF8-2, UTF8-3 and UTF8-4, alternative by alternative. */
  function CharLength(b: seq<Byte>): (n: nat)
    ensures n <= |b| && n <= 4
  {
    if b == [] then 0
    else if b[0] <= 0x7f then 1
    else if 0xc2 <= b[0] <= 0xdf && Tails(b, 1) then 2
    else if Tails(b, 2) && (
      || (b[0] == 0xe0 && 0xa0 <= b[1])
      || 0xe1 <= b[0] <= 0xec
      || (b[0] == 0xed && b[1] <= 0x9f)
      || 0xee <= b[0] <= 0xef) then 3
    else if Tails(b, 3) && (
      || (b[0] == 0xf0 && 0x90 <= b[1])
      || 0xf1 <= b[0] <= 0xf3
      || (b[0] == 0xf4 && b[1] <= 0x8f)) then 4
    else 0
  }

  /** The number a character stands for, from the bit table of section 3. */
  function CharValue(b: seq<Byte>): (c: CodePoint)
    requires CharLength(b) > 0
  {
    var v := (i: nat, mark: int) requires i < |b| => b[i] as int - mark;
    match CharLength(b)
    case 1 => b[0]
    case 2 => v(0, 0xc0) * 0x40 + v(1, 0x80)
    case 3 => v(0, 0xe0) * 0x1000 + v(1, 0x80) * 0x40 + v(2, 0x80)
    case _ => v(0, 0xf0) * 0x40000 + v(1, 0x80) * 0x1000 + v(2, 0x80) * 0x40 + v(3, 0x80)
  }

  /** A decoder for the grammar; None when b is not in it. */
  function Decode(b: seq<Byte>): Option<seq<CodePoint>> {
    if b == [] then Some([])
    else if CharLength(b) == 0 then None
    else
      match Decode(b[CharLength(b)..])
      case None => None
      case Some(text) => Some([CharValue(b)] + text)
  }

  lemma CharRoundTrip(c: CodePoint, rest: seq<Byte>)
    ensures CharLength(EncodeChar(c) + rest) == if Surrogate(c) then 0 else |EncodeChar(c)|
    ensures !Surrogate(c) ==> CharValue(EncodeChar(c) + rest) == c
  {
    Digits(c);
    var b := EncodeChar(c) + rest;
    assert forall i :: 0 <= i < |EncodeChar(c)| ==> b[i] == EncodeChar(c)[i];
    assert Tails(b, |EncodeChar(c)| - 1);
  }

  /** c in base 64. */
  lemma Digits(c: CodePoint)
    ensures c / 0x40 == c / 0x1000 * 0x40 + c / 0x40 % 0x40
    ensures c / 0x1000 == c / 0x40000 * 0x40 + c / 0x1000 % 0x40
  {
    assert c / 0x40 / 0x40 == c / 0x1000;
    assert c / 0x1000 / 0x40 == c / 0x40000;
  }

  /** The written bytes decode to the text exactly when it has no surrogate; a
      single surrogate makes the whole output ill-formed, since the encoder
      skips the check for them. */
  lemma {:induction false} DecodeEncode(text: seq<CodePoint>)
    ensures Decode(Encode(text)) == if exists c :: c in text && Surrogate(c) then None else Some(text)
  {
    if text != [] {
      var c, rest := text[0], Encode(text[1..]);
      CharRoundTrip(c, rest);
      DecodeEncode(text[1..]);
      assert (EncodeChar(c) + rest)[|EncodeChar(c)|..] == rest;
      assert text == [c] + text[1..];
    }
  }

  /** Every byte string of the grammar is the encoding of what it decodes to, so
      no character has a second, longer form in the output. */
  lemma {:induction false} EncodeDecode(b: seq<Byte>)
    requires Decode(b).Some?
    ensures Encode(Decode(b).value) == b
  {
    hide EncodeChar, CharValue, CharLength;
    if b != [] {
      var n := CharLength(b);
      EncodeDecode(b[n..]);
      CharShortest(b);
      var text := Decode(b).value;
      assert text[1..] == Decode(b[n..]).value;
      assert b == b[..n] + b[n..];
    }
  }

  lemma CharShortest(b: seq<Byte>)
    requires CharLength(b) > 0
    ensures EncodeChar(CharValue(b)) == b[..CharLength(b)]
  {
    var c := CharValue(b);
    Digits(c);
    match CharLength(b)
    case 1 =>
    case 2 => assert c / 0x40 == b[0] - 0xc0;
    case 3 => ShortestOfThree(b);
    case _ => ShortestOfFour(b);
  }

  lemma ShortestOfThree(b: seq<Byte>)
    requires CharLength(b) == 3
    ensures EncodeChar(CharValue(b)) == b[..3]
  {
    var c := CharValue(b);
    Digits(c);
    assert c / 0x40 == (b[0] as int - 0xe0) * 0x40 + (b[1] as int - 0x80) && c / 0x1000 == b[0] - 0xe0;
  }

  lemma ShortestOfFour(b: seq<Byte>)
    requires CharLength(b) == 4
    ensures EncodeChar(CharValue(b)) == b[..4]
  {
    var c := CharValue(b);
    Digits(c);
    assert c / 0x40 == (b[0] as int - 0xf0) * 0x1000 + (b[1] as int - 0x80) * 0x40 + (b[2] as int - 0x80);
    assert c / 0x1000 == (b[0] as int - 0xf0) * 0x40 + (b[1] as int - 0x80) && c / 0x40000 == b[0] - 0xf0;
  }
}
