/** StringDataPython3: the text of a compact PEP 393 string in the target,
    as UTF-8. */
module PyString {
  import opened Wrappers
  import opened RemoteMemory
  import opened Utf8

  // The x86-64 layout of PyASCIIObject and PyCompactUnicodeObject: length is
  // the word at 16, the state bit-field starts at 32 with kind in bits 2-4,
  // compact in bit 5 and ascii in bit 6.
  const LENGTH: nat := 16
  const STATE: nat := 32
  const SIZEOF_ASCII: nat := 48
  const SIZEOF_COMPACT: nat := 72

  function Kind(header: seq<Byte>): (k: nat)
    requires |header| == SIZEOF_ASCII
    ensures k < 8
  {
    header[STATE] / 4 % 8
  }

  predicate Compact(header: seq<Byte>)
    requires |header| == SIZEOF_ASCII
  {
    header[STATE] / 32 % 2 == 1
  }

  function DataOffset(header: seq<Byte>): nat
    requires |header| == SIZEOF_ASCII
  {
    if header[STATE] / 64 % 2 == 1 then SIZEOF_ASCII else SIZEOF_COMPACT
  }

  function Length(header: seq<Byte>): nat
    requires |header| == SIZEOF_ASCII
  {
    FromLe(header[LENGTH..LENGTH + WORD])
  }

  /** The first n numbers in units, each in kind little-endian bytes. */
  function Chars(units: seq<Byte>, kind: nat, n: nat): (chars: seq<nat>)
    requires kind * n <= |units|
    ensures |chars| == n
  {
    if n == 0 then []
    else
      assert kind * n == kind + kind * (n - 1);
      [FromLe(units[..kind])] + Chars(units[kind..], kind, n - 1)
  }

  predicate InUnicode(chars: seq<nat>) {
    forall i :: 0 <= i < |chars| ==> chars[i] < 0x110000
  }

  /** The characters from data on are text, with mapped memory up to a whole word. */
  predicate HoldsText(mem: Memory, data: nat, kind: nat, text: seq<CodePoint>) {
    && Mapped(mem, data, RoundUp(kind * |text|))
    && Chars(Read(mem, data, RoundUp(kind * |text|)), kind, |text|) == text
  }

  /** The object at addr is a compact string whose characters are text. */
  predicate Stored(mem: Memory, addr: nat, text: seq<CodePoint>) {
    && Mapped(mem, addr, SIZEOF_ASCII)
    && var header := Read(mem, addr, SIZEOF_ASCII);
    && Compact(header)
    && Kind(header) in {1, 2, 4}
    && Length(header) == |text|
    && HoldsText(mem, addr + DataOffset(header), Kind(header), text)
  }

  /** A compact object with no character to visit although its kind is not a
      character size: above all the WCHAR kind, 0, whatever its length. */
  predicate NoUnits(mem: Memory, addr: nat) {
    && Mapped(mem, addr, SIZEOF_ASCII)
    && var header := Read(mem, addr, SIZEOF_ASCII);
    && Compact(header)
    && Kind(header) !in {1, 2, 4} && Kind(header) * Length(header) == 0
  }

  /** What a header says. The byte at 32 holds two bits for interning, three for the
      kind, one for compact and one for ascii; the length is the word at 16, and
      the characters start at 48 or 72. */
  lemma StoredMeans(mem: Memory, addr: nat, interned: nat, kind: nat, compact: bool, ascii: bool, ready: nat, text: seq<CodePoint>)
    requires Mapped(mem, addr, 48) && interned < 4 && kind < 8 && ready < 2
    requires mem[addr + 32] == interned + 4 * kind + (if compact then 32 else 0) + (if ascii then 64 else 0) + 128 * ready
    ensures Stored(mem, addr, text) <==>
      && compact && kind in {1, 2, 4} && Peek(mem, addr + 16) == Ok(|text|)
      && HoldsText(mem, addr + if ascii then 48 else 72, kind, text)
    ensures NoUnits(mem, addr) <==> compact && kind !in {1, 2, 4} && (kind == 0 || Peek(mem, addr + 16) == Ok(0))
  {
    var header := Read(mem, addr, SIZEOF_ASCII);
    assert header[LENGTH..LENGTH + WORD] == Read(mem, addr + LENGTH, WORD);
    HeaderFields(header, interned, kind, compact, ascii, ready);
    assert Peek(mem, addr + 16) == Ok(Length(header));
    hide HoldsText, Kind, Compact, DataOffset, Length, Peek;
    ZeroProduct(kind, Length(header));
  }

  lemma HeaderFields(header: seq<Byte>, interned: nat, kind: nat, compact: bool, ascii: bool, ready: nat)
    requires |header| == SIZEOF_ASCII && interned < 4 && kind < 8 && ready < 2
    requires header[32] == interned + 4 * kind + (if compact then 32 else 0) + (if ascii then 64 else 0) + 128 * ready
    ensures Kind(header) == kind && Compact(header) == compact && DataOffset(header) == if ascii then 48 else 72
  {
    Fields(header[32], interned, kind, if compact then 1 else 0, if ascii then 1 else 0, ready);
  }

  lemma Fields(b: nat, interned: nat, kind: nat, compact: nat, ascii: nat, ready: nat)
    requires interned < 4 && kind < 8 && compact < 2 && ascii < 2 && ready < 2
    requires b == interned + 4 * kind + 32 * compact + 64 * ascii + 128 * ready
    ensures b / 4 % 8 == kind && b / 32 % 2 == compact && b / 64 % 2 == ascii
  {
    assert b / 4 == kind + 8 * (compact + 2 * ascii + 4 * ready);
    assert b / 32 == compact + 2 * (ascii + 2 * ready);
    assert b / 64 == ascii + 2 * ready;
  }

  lemma ZeroProduct(k: nat, n: nat)
    ensures k * n == 0 <==> k == 0 || n == 0
  {
  }

  /** A text is held in units of one, two or four bytes, the lowest first. */
  lemma HoldsBytes(mem: Memory, data: nat, text: seq<CodePoint>)
    ensures HoldsText(mem, data, 1, text) <==>
      && Mapped(mem, data, RoundUp(|text|))
      && var b := Read(mem, data, RoundUp(|text|));
         forall m {:trigger text[m]} :: 0 <= m < |text| ==> text[m] == b[m]
    ensures HoldsText(mem, data, 2, text) <==>
      && Mapped(mem, data, RoundUp(2 * |text|))
      && var b := Read(mem, data, RoundUp(2 * |text|));
         forall m {:trigger text[m]} :: 0 <= m < |text| ==> text[m] == b[2 * m] as int + 0x100 * b[2 * m + 1] as int
    ensures HoldsText(mem, data, 4, text) <==>
      && Mapped(mem, data, RoundUp(4 * |text|))
      && var b := Read(mem, data, RoundUp(4 * |text|));
         forall m {:trigger text[m]} :: 0 <= m < |text| ==>
           text[m] == b[4 * m] as int + 0x100 * b[4 * m + 1] as int + 0x1_0000 * b[4 * m + 2] as int + 0x100_0000 * b[4 * m + 3] as int
  {
    hide Chars;
    if Mapped(mem, data, RoundUp(|text|)) {
      OneByte(Read(mem, data, RoundUp(|text|)), text);
    }
    if Mapped(mem, data, RoundUp(2 * |text|)) {
      TwoBytes(Read(mem, data, RoundUp(2 * |text|)), text);
    }
    if Mapped(mem, data, RoundUp(4 * |text|)) {
      FourBytes(Read(mem, data, RoundUp(4 * |text|)), text);
    }
  }

  lemma OneByte(b: seq<Byte>, text: seq<CodePoint>)
    requires |text| <= |b|
    ensures Chars(b, 1, |text|) == text <==> forall m {:trigger text[m]} :: 0 <= m < |text| ==> text[m] == b[m]
  {
    var chars := Chars(b, 1, |text|);
    forall m | 0 <= m < |text| ensures chars[m] == b[m] {
      CharAt(b, 1, |text|, m);
      FromLeOfFour(b[m..m + 1]);
    }
  }

  lemma TwoBytes(b: seq<Byte>, text: seq<CodePoint>)
    requires 2 * |text| <= |b|
    ensures Chars(b, 2, |text|) == text <==>
      forall m {:trigger text[m]} :: 0 <= m < |text| ==> text[m] == b[2 * m] as int + 0x100 * b[2 * m + 1] as int
  {
    hide Chars;
    var chars := Chars(b, 2, |text|);
    forall m {:trigger chars[m]} | 0 <= m < |text| ensures chars[m] == b[2 * m] as int + 0x100 * b[2 * m + 1] as int {
      TwoAt(b, |text|, m);
    }
  }

  lemma TwoAt(b: seq<Byte>, n: nat, m: nat)
    requires m < n && 2 * n <= |b|
    ensures Chars(b, 2, n)[m] == b[2 * m] as int + 0x100 * b[2 * m + 1] as int
  {
    hide Chars;
    CharAt(b, 2, n, m);
    FromLeOfFour(b[2 * m..2 * m + 2]);
  }

  lemma FourBytes(b: seq<Byte>, text: seq<CodePoint>)
    requires 4 * |text| <= |b|
    ensures Chars(b, 4, |text|) == text <==> forall m {:trigger text[m]} :: 0 <= m < |text| ==>
      text[m] == b[4 * m] as int + 0x100 * b[4 * m + 1] as int + 0x1_0000 * b[4 * m + 2] as int + 0x100_0000 * b[4 * m + 3] as int
  {
    hide Chars;
    var chars := Chars(b, 4, |text|);
    forall m {:trigger chars[m]} | 0 <= m < |text|
      ensures chars[m] == b[4 * m] as int + 0x100 * b[4 * m + 1] as int + 0x1_0000 * b[4 * m + 2] as int + 0x100_0000 * b[4 * m + 3] as int
    {
      FourAt(b, |text|, m);
    }
  }

  lemma FourAt(b: seq<Byte>, n: nat, m: nat)
    requires m < n && 4 * n <= |b|
    ensures Chars(b, 4, n)[m]
      == b[4 * m] as int + 0x100 * b[4 * m + 1] as int + 0x1_0000 * b[4 * m + 2] as int + 0x100_0000 * b[4 * m + 3] as int
  {
    hide Chars, FromLe;
    CharAt(b, 4, n, m);
    FourInGroup(b, 4 * m);
  }

  lemma FourInGroup(b: seq<Byte>, i: nat)
    requires i + 4 <= |b|
    ensures FromLe(b[i..i + 4])
      == b[i] as int + 0x100 * b[i + 1] as int + 0x1_0000 * b[i + 2] as int + 0x100_0000 * b[i + 3] as int
  {
    var group := b[i..i + 4];
    FromLeOfFour(group);
    assert group[4..] == [] && FromLe([]) == 0;
  }

  /** StringDataPython3. A stored string comes back as its UTF-8 encoding, which
      does not depend on the kind it is stored with. Nothing else succeeds but
      the objects with no units, which give an empty string: every other object
      is either unmapped or fails an assert. */
  method StringDataPython3(mem: Memory, addr: nat) returns (r: Fetched<seq<Byte>>)
    ensures forall text :: Stored(mem, addr, text) ==> r == Ok(Encode(text))
    ensures NoUnits(mem, addr) ==> r == Ok([])
    ensures r.Ok? ==> NoUnits(mem, addr) || exists text :: Stored(mem, addr, text)
  {
    var header :- PeekBytes(mem, addr, SIZEOF_ASCII);
    if !Compact(header) {
      return Err(Aborted);
    }
    var strLength := Kind(header) * Length(header);
    var bytes :- PeekBytes(mem, addr + DataOffset(header), strLength);
    r := EncodeUnits(bytes, Kind(header), Length(header));
    if r.Ok? && Kind(header) in {1, 2, 4} {
      ghost var text: seq<CodePoint> := Chars(bytes, Kind(header), Length(header));
      assert Stored(mem, addr, text);
    }
  }

  /** The loop of StringDataPython3. A kind other than 1, 2 and 4 fails at the
      first character. */
  method EncodeUnits(bytes: seq<Byte>, chSize: nat, length: nat) returns (r: Fetched<seq<Byte>>)
    requires chSize * length <= |bytes|
    ensures chSize in {1, 2, 4} && !InUnicode(Chars(bytes, chSize, length)) ==> r == Err(Aborted)
    ensures chSize in {1, 2, 4} && InUnicode(Chars(bytes, chSize, length)) ==> r == Ok(Encode(Chars(bytes, chSize, length)))
    ensures chSize !in {1, 2, 4} ==> r == if chSize * length == 0 then Ok([]) else Err(Aborted)
  {
    var dump: seq<Byte> := [];
    ghost var chars, m: nat := Chars(bytes, chSize, length), 0;
    var i := 0;
    while i < chSize * length
      invariant i == chSize * m && m <= length
      invariant m > 0 ==> chSize in {1, 2, 4}
      invariant InUnicode(chars[..m]) && dump == Encode(chars[..m])
      decreases length - m
    {
      if chSize !in {1, 2, 4} {
        return Err(Aborted);
      }
      CharAt(bytes, chSize, length, m);
      var ch := FromLe(bytes[i..i + chSize]);
      if ch > 0x10ffff {
        return Err(Aborted);
      }
      EncodePrefix(chars, m);
      dump := dump + EncodeChar(ch);
      i, m := i + chSize, m + 1;
    }
    assert chSize * length >= 0;
    if chSize in {1, 2, 4} {
      assert m == length && chars[..m] == chars;
    }
    r := Ok(dump);
  }

  lemma EncodePrefix(chars: seq<nat>, m: nat)
    requires m < |chars| && InUnicode(chars[..m]) && chars[m] < 0x110000
    ensures InUnicode(chars[..m + 1])
    ensures Encode(chars[..m + 1]) == Encode(chars[..m]) + EncodeChar(chars[m])
  {
    EncodeSnoc(chars[..m], chars[m]);
    assert chars[..m + 1] == chars[..m] + [chars[m]];
  }

  /** The m-th character is read from the m-th group of bytes. */
  lemma {:induction false} CharAt(units: seq<Byte>, kind: nat, n: nat, m: nat)
    requires kind * n <= |units| && kind * m < kind * n
    ensures m < n && kind * (m + 1) == kind * m + kind <= kind * n
    ensures Chars(units, kind, n)[m] == FromLe(units[kind * m..kind * m + kind])
  {
    hide Chars, FromLe;
    Times(kind, m, n);
    CharsStep(units, kind, n);
    if m > 0 {
      BeforeLast(kind, m, n);
      CharAt(units[kind..], kind, n - 1, m - 1);
      GroupAfter(units, kind, kind * (m - 1));
    }
  }

  lemma BeforeLast(k: nat, m: nat, n: nat)
    requires 0 < m && k * m < k * n
    ensures m < n && 0 <= k * (m - 1) < k * (n - 1)
    ensures k * (m - 1) + k == k * m && k * (n - 1) + k == k * n && k * (m - 1) + k <= k * (n - 1)
  {
    Times(k, m, n);
    Monotone(k, 0, m - 1);
  }

  lemma CharsStep(units: seq<Byte>, kind: nat, n: nat)
    requires 0 < n && kind * n <= |units|
    ensures kind * (n - 1) + kind == kind * n
    ensures Chars(units, kind, n) == [FromLe(units[..kind])] + Chars(units[kind..], kind, n - 1)
  {
  }

  lemma GroupAfter(units: seq<Byte>, kind: nat, i: nat)
    requires kind + i + kind <= |units|
    ensures units[kind..][i..i + kind] == units[kind + i..kind + i + kind]
  {
  }

  /** Every character fits in kind bytes. */
  predicate Fits(text: seq<CodePoint>, kind: nat) {
    forall i :: 0 <= i < |text| ==> text[i] < Power256(kind)
  }

  /** The character data of text with kind bytes to a character. */
  function Pack(text: seq<CodePoint>, kind: nat): (b: seq<Byte>)
    ensures |b| == kind * |text|
  {
    if text == [] then []
    else
      assert kind * |text| == kind + kind * |text[1..]|;
      ToLe(text[0], kind) + Pack(text[1..], kind)
  }

  /** Packed in any kind that can hold it, a text is held in the sense of
      Stored; by the contract of StringDataPython3 its bytes are then the same
      for all these kinds. */
  lemma PackedIsHeld(mem: Memory, data: nat, kind: nat, text: seq<CodePoint>)
    requires Fits(text, kind) && Mapped(mem, data, RoundUp(kind * |text|))
    requires Pack(text, kind) <= Read(mem, data, RoundUp(kind * |text|))
    ensures HoldsText(mem, data, kind, text)
  {
    CharsPack(text, kind, Read(mem, data, RoundUp(kind * |text|)));
  }

  lemma {:induction false} CharsPack(text: seq<CodePoint>, kind: nat, units: seq<Byte>)
    requires Fits(text, kind) && Pack(text, kind) <= units
    ensures kind * |text| <= |units| && Chars(units, kind, |text|) == text
  {
    if text != [] {
      var b := Pack(text, kind);
      assert units[..kind] == b[..kind] == ToLe(text[0], kind);
      assert b[kind..] == Pack(text[1..], kind);
      FromLeToLe(text[0], kind);
      assert units[kind..] == b[kind..] + units[|b|..];
      CharsPack(text[1..], kind, units[kind..]);
    }
  }

  lemma Times(k: nat, m: nat, n: nat)
    requires k * m < k * n
    ensures m < n && k * (m + 1) == k * m + k <= k * n
    ensures k * (n - 1) == k * n - k && k * (m - 1) == k * m - k
  {
    if n <= m {
      Monotone(k, n, m);
    } else {
      Monotone(k, m + 1, n);
    }
  }

  lemma Monotone(k: nat, m: int, n: int)
    requires m <= n
    ensures k * m <= k * n
  {
    assert k * (n - m) >= 0;
  }
}
