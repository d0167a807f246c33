/** The window through which one process reads another: PTRACE_PEEKDATA moves
    one eight-byte little-endian word at a time, from any address, and fails
    when any of the eight bytes is unmapped. The two loops built on it are
    proved to read exactly the bytes of the target, and exactly when they can. */
module RemoteMemory {
  import opened Wrappers

  type Byte = x: int | 0 <= x < 256

  /** The mapped bytes of the target's address space. */
  type Memory = map<nat, Byte>

  const WORD: nat := 8

  /** PtraceError stands for a thrown PtraceException, Aborted for a failed assert(). */
  datatype Failure = PtraceError | Aborted

  type Fetched<+T> = Result<T, Failure>

  predicate Mapped(mem: Memory, addr: nat, n: nat) {
    forall a :: addr <= a < addr + n ==> a in mem
  }

  function Read(mem: Memory, addr: nat, n: nat): (s: seq<Byte>)
    requires Mapped(mem, addr, n)
    ensures |s| == n
    ensures forall i :: 0 <= i < n ==> s[i] == mem[addr + i]
  {
    seq(n, i requires 0 <= i < n => mem[addr + i])
  }

  /** The unsigned value of bytes in little-endian order. */
  function FromLe(s: seq<Byte>): nat {
    if s == [] then 0 else s[0] + 256 * FromLe(s[1..])
  }

  /** The n low bytes of v in little-endian order. */
  function ToLe(v: nat, n: nat): (s: seq<Byte>)
    ensures |s| == n
  {
    if n == 0 then [] else [v % 256] + ToLe(v / 256, n - 1)
  }

  /** Copying a word back into a byte buffer gives the bytes it was made of. */
  lemma {:induction false} ToLeFromLe(s: seq<Byte>)
    ensures ToLe(FromLe(s), |s|) == s
  {
    if s != [] {
      ToLeFromLe(s[1..]);
      assert FromLe(s) % 256 == s[0] && FromLe(s) / 256 == FromLe(s[1..]);
    }
  }

  lemma {:induction false} FromLeToLe(v: nat, n: nat)
    requires v < Power256(n)
    ensures FromLe(ToLe(v, n)) == v
  {
    if n != 0 {
      FromLeToLe(v / 256, n - 1);
      assert ToLe(v, n)[1..] == ToLe(v / 256, n - 1);
    }
  }

  function Power256(n: nat): nat {
    if n == 0 then 1 else 256 * Power256(n - 1)
  }

  /** PTRACE_PEEKDATA. */
  function Peek(mem: Memory, addr: nat): Fetched<nat> {
    if Mapped(mem, addr, WORD) then Ok(FromLe(Read(mem, addr, WORD))) else Err(PtraceError)
  }

  /** A peek reads eight bytes, the lowest first, and all of them have to be mapped. */
  lemma PeekReads(mem: Memory, addr: nat)
    ensures Peek(mem, addr).Ok? <==> forall a :: addr <= a < addr + 8 ==> a in mem
    ensures Peek(mem, addr).Ok? ==>
      && Mapped(mem, addr, 8)
      && var b := Read(mem, addr, 8);
      Peek(mem, addr).value
        == b[0] as int + 0x100 * b[1] as int + 0x1_0000 * b[2] as int + 0x100_0000 * b[3] as int
         + 0x1_0000_0000 * b[4] as int + 0x100_0000_0000 * b[5] as int
         + 0x1_0000_0000_0000 * b[6] as int + 0x100_0000_0000_0000 * b[7] as int
  {
    if Peek(mem, addr).Ok? {
      var b := Read(mem, addr, 8);
      FromLeOfFour(b);
      FromLeOfFour(b[4..]);
      assert b[4..][4..] == [];
    }
  }

  lemma FromLeOfFour(s: seq<Byte>)
    ensures |s| == 1 ==> FromLe(s) == s[0]
    ensures |s| == 2 ==> FromLe(s) == s[0] as int + 0x100 * s[1] as int
    ensures |s| >= 4 ==>
      FromLe(s) == s[0] as int + 0x100 * s[1] as int + 0x1_0000 * s[2] as int + 0x100_0000 * s[3] as int
                 + 0x1_0000_0000 * FromLe(s[4..])
  {
    if |s| >= 4 {
      assert s[1..][1..] == s[2..] && s[2..][1..] == s[3..] && s[3..][1..] == s[4..];
    }
  }

  /** A buffer of n bytes is rounded up to whole words. */
  function RoundUp(n: nat): (r: nat)
    ensures n <= r < n + WORD && r % WORD == 0
  {
    if n % WORD != 0 then (n / WORD + 1) * WORD else n
  }

  /** s is the NUL-terminated string at addr, and the word that its NUL falls
      in, counting from addr, is mapped. */
  predicate StringAt(mem: Memory, addr: nat, s: seq<Byte>) {
    && Mapped(mem, addr, RoundUp(|s| + 1))
    && Read(mem, addr, |s|) == s
    && 0 !in s
    && mem[addr + |s|] == 0
  }

  function FirstNul(s: seq<Byte>): (k: nat)
    ensures k <= |s| && 0 !in s[..k]
    ensures k < |s| ==> s[k] == 0
  {
    if s == [] || s[0] == 0 then 0
    else
      var k := 1 + FirstNul(s[1..]);
      assert s[..k] == [s[0]] + s[1..][..k - 1];
      k
  }

  /** PtracePeekString. It returns the bytes before the first NUL, wherever in a
      word that falls, and fails only when there is no such string; so it finds
      the string at addr exactly when there is one (see StringUnique). */
  method PeekString(mem: Memory, addr: nat) returns (r: Fetched<seq<Byte>>)
    ensures r.Ok? ==> StringAt(mem, addr, r.value)
    ensures r.Err? ==> r.error == PtraceError && forall s :: !StringAt(mem, addr, s)
    ensures r.Ok? ==>
      && (forall i :: 0 <= i < |r.value| ==> addr + i in mem && mem[addr + i] == r.value[i] != 0)
      && addr + |r.value| in mem && mem[addr + |r.value|] == 0
  {
    hide FromLe, ToLe, FirstNul;
    var dump: seq<Byte> := [];
    var off: nat := 0;
    while true
      invariant off % WORD == 0 && Mapped(mem, addr, off)
      invariant dump == Read(mem, addr, off) && 0 !in dump
      decreases set a | a in mem && addr + off <= a
    {
      var val := Peek(mem, addr + off);
      if val.Err? {
        NotTerminated(mem, addr, off);
        return Err(PtraceError);
      }
      var chunk := ToLe(val.value, WORD);
      ToLeFromLe(Read(mem, addr + off, WORD));
      var k := FirstNul(chunk);
      ReadSplit(mem, addr, off, k);
      dump := dump + chunk[..k];
      if k < WORD {
        return Ok(dump);
      }
      ghost var ahead := set a | a in mem && addr + off <= a;
      assert addr + off in ahead && addr + off !in set a | a in mem && addr + off + WORD <= a;
      off := off + WORD;
    }
  }

  lemma ReadSplit(mem: Memory, addr: nat, off: nat, k: nat)
    requires k <= WORD && Mapped(mem, addr, off) && Mapped(mem, addr + off, WORD)
    ensures Mapped(mem, addr, off + WORD)
    ensures Read(mem, addr, off + k) == Read(mem, addr, off) + Read(mem, addr + off, WORD)[..k]
    ensures k < WORD ==> mem[addr + (off + k)] == Read(mem, addr + off, WORD)[k]
  {
  }

  /** Mapped bytes other than NUL, and a NUL in a word that is mapped too, make a
      string. */
  lemma NulMakesString(mem: Memory, addr: nat, s: seq<Byte>)
    requires forall a :: addr <= a < addr + RoundUp(|s| + 1) ==> a in mem
    requires addr + |s| in mem && mem[addr + |s|] == 0
    requires forall i :: 0 <= i < |s| ==> addr + i in mem && mem[addr + i] == s[i] != 0
    ensures StringAt(mem, addr, s)
  {
  }

  lemma NonNul(mem: Memory, addr: nat, n: nat)
    requires Mapped(mem, addr, n) && 0 !in Read(mem, addr, n)
    ensures forall a :: addr <= a < addr + n ==> mem[a] != 0
  {
    forall a | addr <= a < addr + n ensures mem[a] != 0 {
      assert Read(mem, addr, n)[a - addr] == mem[a];
    }
  }

  lemma NotTerminated(mem: Memory, addr: nat, off: nat)
    requires off % WORD == 0 && Mapped(mem, addr, off) && 0 !in Read(mem, addr, off)
    requires !Mapped(mem, addr + off, WORD)
    ensures forall s :: !StringAt(mem, addr, s)
  {
    NonNul(mem, addr, off);
    forall s | StringAt(mem, addr, s) ensures off + WORD <= RoundUp(|s| + 1) {
      assert |s| >= off;
    }
  }

  /** There is at most one string at an address. */
  lemma StringUnique(mem: Memory, addr: nat, s: seq<Byte>, t: seq<Byte>)
    requires StringAt(mem, addr, s) && StringAt(mem, addr, t)
    ensures s == t
  {
    NonNul(mem, addr, |s|);
    NonNul(mem, addr, |t|);
    assert mem[addr + |t|] == 0 && mem[addr + |s|] == 0;
  }

  /** PtracePeekBytes. The buffer holds the target's bytes up to the rounded
      size; no byte past that is needed for it to succeed, and every byte up to
      it is. */
  method PeekBytes(mem: Memory, addr: nat, nbytes: nat) returns (r: Fetched<seq<Byte>>)
    ensures r.Ok? <==> Mapped(mem, addr, RoundUp(nbytes))
    ensures r.Ok? <==> forall a :: addr <= a < addr + RoundUp(nbytes) ==> a in mem
    ensures r.Ok? ==> r.value == Read(mem, addr, RoundUp(nbytes))
    ensures r.Err? ==> r.error == PtraceError
  {
    hide FromLe, ToLe;
    var size := RoundUp(nbytes);
    var bytes := new Byte[size](_ => 0);
    var off := 0;
    while off < size
      invariant 0 <= off <= size && off % WORD == 0
      invariant Mapped(mem, addr, off)
      invariant forall i :: 0 <= i < off ==> bytes[i] == mem[addr + i]
    {
      var val := Peek(mem, addr + off);
      if val.Err? {
        assert off + WORD <= size;
        return Err(PtraceError);
      }
      var word := ToLe(val.value, WORD);
      ToLeFromLe(Read(mem, addr + off, WORD));
      forall i | 0 <= i < WORD {
        bytes[off + i] := word[i];
      }
      off := off + WORD;
      assert forall i :: off - WORD <= i < off ==> bytes[i] == word[i - (off - WORD)] == mem[addr + i];
    }
    r := Ok(bytes[..]);
  }
}
