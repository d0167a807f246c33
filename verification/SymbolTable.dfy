/** The walk over an ELF symbol table for the addresses of the interpreter, the
    detection of the Python ABI, and the relocation of what was found. */
module SymbolTable {
  import opened Wrappers

  const TWO64: int := 0x1_0000_0000_0000_0000

  /** unsigned long, and the uint16_t that counts the entries of a table. */
  type Address = a: int | 0 <= a < 0x1_0000_0000_0000_0000
  newtype Index = i: int | 0 <= i < 0x1_0000

  datatype Abi = Unknown | Py26 | Py34 | Py36

  datatype Symbol = Symbol(name: string, value: Address)

  const TSTATE := "_PyThreadState_Current"
  const INTERP_HEAD := "interp_head"
  const INTERP_HEAD_FN := "PyInterpreterState_Head"
  const STRING_TYPE := "PyString_Type"
  const BYTES_TYPE := "PyBytes_Type"

  predicate Names36(name: string) {
    name == "_PyEval_RequestCodeExtraIndex" || name == "_PyCode_GetExtra" || name == "_PyCode_SetExtra"
  }

  /** Addresses are relative to a load base, and 0 stands for a missing one. */
  function Down(v: Address, base: Address): Address { if v == 0 then 0 else (v - base) % TWO64 }

  function Up(v: Address, base: Address): Address { if v == 0 then 0 else (v + base) % TWO64 }

  /** The hint is absolute, so the operators leave it as it is. */
  datatype PyAddresses = PyAddresses(tstate: Address, interpHead: Address, interpHeadFn: Address, hint: Address, pie: bool) {
    function Minus(base: Address): PyAddresses {
      this.(tstate := Down(tstate, base), interpHead := Down(interpHead, base), interpHeadFn := Down(interpHeadFn, base))
    }

    function Plus(base: Address): PyAddresses {
      this.(tstate := Up(tstate, base), interpHead := Up(interpHead, base), interpHeadFn := Up(interpHeadFn, base))
    }

    predicate Empty() { tstate == 0 }
  }

  const NOTHING := PyAddresses(0, 0, 0, 0, false)

  // --- The walk as a fold over the whole table, without the early exit ---

  datatype Walk = Walk(addrs: PyAddresses, abi: Abi, haveAbi: bool) {
    predicate Complete() {
      haveAbi && addrs.tstate != 0 && addrs.interpHead != 0 && addrs.interpHeadFn != 0
    }

    function Visit(s: Symbol): Walk {
      if addrs.tstate == 0 && s.name == TSTATE then this.(addrs := addrs.(tstate := s.value))
      else if addrs.interpHead == 0 && s.name == INTERP_HEAD then this.(addrs := addrs.(interpHead := s.value))
      else if addrs.interpHead == 0 && s.name == INTERP_HEAD_FN then this.(addrs := addrs.(interpHeadFn := s.value))
      else if haveAbi then this
      else if s.name == STRING_TYPE then this.(abi := Py26, haveAbi := true)
      else if s.name == BYTES_TYPE then this.(abi := Py34)
      else if Names36(s.name) then this.(abi := Py36, haveAbi := true)
      else this
    }

    function VisitAll(table: seq<Symbol>): Walk
      decreases |table|
    {
      if table == [] then this else Visit(table[0]).VisitAll(table[1..])
    }
  }

  lemma {:induction false} CompleteStays(w: Walk, table: seq<Symbol>)
    requires w.Complete()
    ensures w.VisitAll(table) == w
  {
    if table != [] {
      CompleteStays(w, table[1..]);
    }
  }

  /** ELF::WalkTable. Leaving the loop early changes nothing. */
  method WalkTable(table: seq<Symbol>, addrs: PyAddresses) returns (abi: Abi, addrs': PyAddresses)
    requires |table| <= 0xffff
    ensures var w := Walk(addrs, Unknown, false).VisitAll(table); abi == w.abi && addrs' == w.addrs
  {
    abi, addrs' := Unknown, addrs;
    var haveAbi := false;
    var i: Index := 0;
    while i as int < |table|
      invariant i as int <= |table|
      invariant Walk(addrs', abi, haveAbi).VisitAll(table[i..]) == Walk(addrs, Unknown, false).VisitAll(table)
      decreases |table| - i as int
    {
      if haveAbi && addrs'.tstate != 0 && addrs'.interpHead != 0 && addrs'.interpHeadFn != 0 {
        CompleteStays(Walk(addrs', abi, haveAbi), table[i..]);
        break;
      }
      var sym := table[i];
      assert table[i..][1..] == table[i + 1..];
      if addrs'.tstate == 0 && sym.name == TSTATE {
        addrs' := addrs'.(tstate := sym.value);
      } else if addrs'.interpHead == 0 && sym.name == INTERP_HEAD {
        addrs' := addrs'.(interpHead := sym.value);
      } else if addrs'.interpHead == 0 && sym.name == INTERP_HEAD_FN {
        addrs' := addrs'.(interpHeadFn := sym.value);
      } else if !haveAbi {
        if sym.name == STRING_TYPE {
          haveAbi, abi := true, Py26;
        } else if sym.name == BYTES_TYPE {
          abi := Py34;
        } else if Names36(sym.name) {
          haveAbi, abi := true, Py36;
        }
      }
      i := i + 1;
    }
  }

  // --- What the fold finds ---

  /** The first non-zero value of a name, 0 if there is none. */
  function FirstValue(table: seq<Symbol>, name: string): Address {
    if table == [] then 0
    else if table[0].name == name && table[0].value != 0 then table[0].value
    else FirstValue(table[1..], name)
  }

  /** The last value of PyInterpreterState_Head in front of the first interp_head
      that has an address, and fn if there is none. */
  function LastFn(table: seq<Symbol>, fn: Address): Address {
    if table == [] || (table[0].name == INTERP_HEAD && table[0].value != 0) then fn
    else LastFn(table[1..], if table[0].name == INTERP_HEAD_FN then table[0].value else fn)
  }

  /** The value of the first entry with this name and an address. */
  lemma {:induction false} FirstValueMeans(table: seq<Symbol>, name: string, i: nat)
    requires i <= |table| && forall j :: 0 <= j < i ==> !(table[j].name == name && table[j].value != 0)
    ensures i == |table| ==> FirstValue(table, name) == 0
    ensures i < |table| && table[i].name == name && table[i].value != 0 ==> FirstValue(table, name) == table[i].value
  {
    if i > 0 {
      FirstValueMeans(table[1..], name, i - 1);
    }
  }

  /** The value of the i-th entry, when it is the last PyInterpreterState_Head in
      front of n and the first interp_head with an address, if any, is at n. */
  lemma {:induction false} LastFnMeans(table: seq<Symbol>, fn: Address, i: nat, n: nat)
    requires n <= |table| && (n < |table| ==> table[n].name == "interp_head" && table[n].value != 0)
    requires forall j :: 0 <= j < n ==> !(table[j].name == "interp_head" && table[j].value != 0)
    requires forall j :: i < j < n ==> table[j].name != "PyInterpreterState_Head"
    ensures i < n && table[i].name == "PyInterpreterState_Head" ==> LastFn(table, fn) == table[i].value
    ensures (forall j :: 0 <= j < n ==> table[j].name != "PyInterpreterState_Head") ==> LastFn(table, fn) == fn
    decreases n
  {
    if n > 0 {
      var rest, fn' := table[1..], if table[0].name == INTERP_HEAD_FN then table[0].value else fn;
      assert LastFn(table, fn) == LastFn(rest, fn');
      LastFnMeans(rest, fn', if i > 0 then i - 1 else 0, n - 1);
    }
  }

  /** The addresses of a walk: first wins for two of them, last for the third. */
  lemma {:induction false} AddressesOf(w: Walk, table: seq<Symbol>)
    ensures w.VisitAll(table).addrs == w.addrs.(
      tstate := if w.addrs.tstate != 0 then w.addrs.tstate else FirstValue(table, TSTATE),
      interpHead := if w.addrs.interpHead != 0 then w.addrs.interpHead else FirstValue(table, INTERP_HEAD),
      interpHeadFn := if w.addrs.interpHead != 0 then w.addrs.interpHeadFn else LastFn(table, w.addrs.interpHeadFn))
    decreases |table|
  {
    if table != [] {
      AddressesOf(w.Visit(table[0]), table[1..]);
    }
  }

  lemma {:induction false} VisitConcat(w: Walk, a: seq<Symbol>, b: seq<Symbol>)
    ensures w.VisitAll(a + b) == w.VisitAll(a).VisitAll(b)
    decreases |a|
  {
    if a == [] {
      assert a + b == b;
    } else {
      VisitConcat(w.Visit(a[0]), a[1..], b);
      assert (a + b)[1..] == a[1..] + b;
    }
  }

  /** Walking two tables, with the ABI forgotten in between, finds the addresses
      of their concatenation. */
  lemma TwoTables(a: seq<Symbol>, b: seq<Symbol>, w: Walk, abi: Abi, haveAbi: bool)
    ensures Walk(w.VisitAll(a).addrs, abi, haveAbi).VisitAll(b).addrs == w.VisitAll(a + b).addrs
  {
    VisitConcat(w, a, b);
    AddressesOf(w.VisitAll(a), b);
    AddressesOf(Walk(w.VisitAll(a).addrs, abi, haveAbi), b);
  }

  // --- The ABI ---

  /** Does the table have a symbol of Python 2, of Python 3, of Python 3.6? */
  predicate Has2(table: seq<Symbol>) { exists i :: 0 <= i < |table| && table[i].name == STRING_TYPE }

  predicate Has3(table: seq<Symbol>) { exists i :: 0 <= i < |table| && table[i].name == BYTES_TYPE }

  predicate Has36(table: seq<Symbol>) { exists i :: 0 <= i < |table| && Names36(table[i].name) }

  function AbiOf(table: seq<Symbol>): Abi {
    Walk(NOTHING, Unknown, false).VisitAll(table).abi
  }

  lemma {:induction false} AbiStays(w: Walk, table: seq<Symbol>)
    requires w.haveAbi
    ensures w.VisitAll(table).abi == w.abi
    decreases |table|
  {
    if table != [] {
      AbiStays(w.Visit(table[0]), table[1..]);
    }
  }

  /** Without symbols of both Python 2 and Python 3.6 the ABI is a matter of which
      symbols occur, whatever addresses the walk starts with. */
  lemma {:induction false} AbiByContents(w: Walk, table: seq<Symbol>)
    requires !w.haveAbi && !(Has2(table) && Has36(table))
    ensures w.VisitAll(table).abi ==
      if Has36(table) then Py36 else if Has2(table) then Py26 else if Has3(table) then Py34 else w.abi
    decreases |table|
  {
    if table != [] {
      var w', rest := w.Visit(table[0]), table[1..];
      assert forall i :: 1 <= i < |table| ==> table[i] == rest[i - 1];
      assert Has2(table) <==> table[0].name == STRING_TYPE || Has2(rest);
      assert Has3(table) <==> table[0].name == BYTES_TYPE || Has3(rest);
      assert Has36(table) <==> Names36(table[0].name) || Has36(rest);
      if w'.haveAbi {
        AbiStays(w', rest);
      } else {
        AbiByContents(w', rest);
      }
    }
  }

  /** The first symbol that is of Python 2 or 3.6 decides, and without one whether
      there is a symbol of Python 3. */
  lemma {:induction false} AbiDecided(w: Walk, table: seq<Symbol>, i: nat)
    requires !w.haveAbi && i <= |table|
    requires forall j :: 0 <= j < i ==>
      table[j].name !in ["PyString_Type", "_PyEval_RequestCodeExtraIndex", "_PyCode_GetExtra", "_PyCode_SetExtra"]
    ensures i < |table| && table[i].name == "PyString_Type" ==> w.VisitAll(table).abi == Py26
    ensures i < |table| && table[i].name in ["_PyEval_RequestCodeExtraIndex", "_PyCode_GetExtra", "_PyCode_SetExtra"] ==>
      w.VisitAll(table).abi == Py36
    ensures i == |table| ==>
      w.VisitAll(table).abi == if exists j :: 0 <= j < i && table[j].name == "PyBytes_Type" then Py34 else w.abi
    decreases |table|
  {
    if i > 0 {
      var rest := table[1..];
      assert forall j :: 0 <= j < |rest| ==> rest[j] == table[j + 1];
      assert forall j :: 1 <= j < |table| ==> table[j] == rest[j - 1];
      AbiDecided(w.Visit(table[0]), rest, i - 1);
    } else if table != [] {
      var w' := w.Visit(table[0]);
      if w'.haveAbi {
        AbiStays(w', table[1..]);
      }
    }
  }

  lemma SameContents(p: seq<Symbol>, q: seq<Symbol>)
    requires multiset(p) == multiset(q)
    ensures (Has2(p) ==> Has2(q)) && (Has3(p) ==> Has3(q)) && (Has36(p) ==> Has36(q))
  {
    forall i | 0 <= i < |p| ensures p[i] in q {
      assert p[i] in multiset(p);
    }
  }

  /** Putting one entry in front. */
  function ToFront(table: seq<Symbol>, i: nat): (p: seq<Symbol>)
    requires i < |table|
    ensures multiset(p) == multiset(table) && p[0] == table[i]
  {
    assert table == table[..i] + [table[i]] + table[i + 1..];
    [table[i]] + table[..i] + table[i + 1..]
  }

  /** The ABI does not depend on the order of the table exactly when the table
      does not have symbols of both Python 2 and Python 3.6; of those two kinds
      the one that comes first decides. */
  lemma OrderIndependence(table: seq<Symbol>)
    ensures (forall p :: multiset(p) == multiset(table) ==> AbiOf(p) == AbiOf(table)) <==> !(Has2(table) && Has36(table))
  {
    var w := Walk(NOTHING, Unknown, false);
    if Has2(table) && Has36(table) {
      var i :| 0 <= i < |table| && table[i].name == STRING_TYPE;
      var j :| 0 <= j < |table| && Names36(table[j].name);
      var p, q := ToFront(table, i), ToFront(table, j);
      AbiStays(w.Visit(p[0]), p[1..]);
      AbiStays(w.Visit(q[0]), q[1..]);
      assert AbiOf(p) == Py26 && AbiOf(q) == Py36;
    } else {
      forall p | multiset(p) == multiset(table) ensures AbiOf(p) == AbiOf(table) {
        SameContents(p, table);
        SameContents(table, p);
        AbiByContents(w, p);
        AbiByContents(w, table);
      }
    }
  }

  // --- ELF files ---

  datatype ProgramHeader = ProgramHeader(isLoad: bool, vaddr: Address)

  /** symtab is present when the file has both .symtab and .strtab. */
  datatype Elf = Elf(dynsym: seq<Symbol>, symtab: Option<seq<Symbol>>, isDyn: bool, headers: seq<ProgramHeader>)

  /** The two exceptions: FatalException and SymbolException. */
  datatype Failure = Fatal | SymbolError

  predicate FirstLoad(headers: seq<ProgramHeader>, i: nat) {
    i < |headers| && headers[i].isLoad && forall j :: 0 <= j < i ==> !headers[j].isLoad
  }

  /** ELF::GetBaseAddress: the address of the first PT_LOAD entry. */
  method GetBaseAddress(headers: seq<ProgramHeader>) returns (r: Result<Address, Failure>)
    ensures r.Ok? ==> exists i: nat :: FirstLoad(headers, i) && r.value == headers[i].vaddr
    ensures r.Ok? ==> exists i :: 0 <= i < |headers| && headers[i].isLoad && r.value == headers[i].vaddr
                                  && forall j :: 0 <= j < i ==> !headers[j].isLoad
    ensures !r.Ok? ==> r == Err(Fatal) && forall i :: 0 <= i < |headers| ==> !headers[i].isLoad
  {
    var i := 0;
    while i < |headers| && !headers[i].isLoad
      invariant 0 <= i <= |headers|
      invariant forall j :: 0 <= j < i ==> !headers[j].isLoad
    {
      i := i + 1;
    }
    if i == |headers| {
      return Err(Fatal);
    }
    assert FirstLoad(headers, i);
    return Ok(headers[i].vaddr);
  }

  function AllSymbols(elf: Elf): seq<Symbol> {
    elf.dynsym + if elf.symtab.Some? then elf.symtab.value else []
  }

  /** The table that is walked last, which alone decides the ABI. */
  function LastTable(elf: Elf): seq<Symbol> {
    if elf.symtab.Some? then elf.symtab.value else elf.dynsym
  }

  /** What a file says about the interpreter, before relocation. */
  function Found(elf: Elf): PyAddresses {
    PyAddresses(FirstValue(AllSymbols(elf), TSTATE), FirstValue(AllSymbols(elf), INTERP_HEAD),
                LastFn(AllSymbols(elf), 0), 0, elf.isDyn)
  }

  /** addrs is what the file says, for ET_DYN relative to the first PT_LOAD entry. */
  ghost predicate Locates(elf: Elf, addrs: PyAddresses) {
    if elf.isDyn then exists i: nat :: FirstLoad(elf.headers, i) && addrs == Found(elf).Minus(elf.headers[i].vaddr)
    else addrs == Found(elf)
  }

  /** ELF::GetAddresses: the symbols of both tables taken together, but the ABI
      of the last table alone. It fails exactly when a base is needed and there
      is none. */
  method GetAddresses(elf: Elf) returns (r: Result<(PyAddresses, Abi), Failure>)
    requires SmallTables(elf)
    ensures r.Ok? ==> Locates(elf, r.value.0)
    ensures r.Ok? ==> r.value.1 == AbiOf(if elf.symtab.Some? then elf.symtab.value else elf.dynsym)
    ensures !r.Ok? ==> r == Err(Fatal) && forall addrs :: !Locates(elf, addrs)
  {
    var start := Walk(NOTHING, Unknown, false);
    var abi, addrs := WalkTable(elf.dynsym, NOTHING);
    if elf.symtab.Some? {
      ghost var first := addrs;
      TwoTables(elf.dynsym, elf.symtab.value, start, Unknown, false);
      abi, addrs := WalkTable(elf.symtab.value, addrs);
      AbiAnyAddresses(Walk(first, Unknown, false), start, elf.symtab.value);
    } else {
      assert AllSymbols(elf) == elf.dynsym;
    }
    AddressesOf(start, AllSymbols(elf));
    addrs := addrs.(pie := elf.isDyn);
    if elf.isDyn {
      var base :- GetBaseAddress(elf.headers);
      return Ok((addrs.Minus(base), abi));
    }
    return Ok((addrs, abi));
  }

  ghost predicate SmallTables(elf: Elf) {
    |elf.dynsym| <= 0xffff && (elf.symtab.Some? ==> |elf.symtab.value| <= 0xffff)
  }

  lemma {:induction false} AbiAnyAddresses(v: Walk, w: Walk, table: seq<Symbol>)
    requires v.abi == w.abi && v.haveAbi == w.haveAbi
    ensures v.VisitAll(table).abi == w.VisitAll(table).abi
    decreases |table|
  {
    if table != [] {
      AbiAnyAddresses(v.Visit(table[0]), w.Visit(table[0]), table[1..]);
    }
  }

  // --- Relocation ---

  /** The run-time address of a symbol in a file with this base, loaded at offset. */
  function Relocated(value: Address, base: Address, offset: Address): Address {
    if value == 0 then 0 else (value - base + offset) % TWO64
  }

  /** Subtracting the base and adding the load offset relocates a symbol exactly
      when it is not at the base itself: such a symbol becomes 0 on the way and is
      then taken for a missing one. */
  lemma RelocationExact(v: Address, base: Address, offset: Address)
    ensures Up(Down(v, base), offset) == Relocated(v, base, offset) <==> v == 0 || v != base || offset == 0
  {
    assert (v - base) % TWO64 == 0 <==> v == base;
    assert ((v - base) % TWO64 + offset) % TWO64 == (v - base + offset) % TWO64;
  }

  /** What the addresses of a file are relative to: the first PT_LOAD entry for ET_DYN. */
  ghost predicate HasBase(elf: Elf, base: Address) {
    if elf.isDyn then exists i: nat :: FirstLoad(elf.headers, i) && base == elf.headers[i].vaddr else base == 0
  }

  /** All three addresses are relative to the base. */
  lemma FieldsLocated(elf: Elf, addrs: PyAddresses, base: Address)
    requires Locates(elf, addrs) && HasBase(elf, base)
    ensures
      var all := elf.dynsym + if elf.symtab.Some? then elf.symtab.value else [];
      var t, h, f := FirstValue(all, "_PyThreadState_Current"), FirstValue(all, "interp_head"), LastFn(all, 0);
      && addrs.tstate == (if t == 0 then 0 else (t - base) % 0x1_0000_0000_0000_0000)
      && addrs.interpHead == (if h == 0 then 0 else (h - base) % 0x1_0000_0000_0000_0000)
      && addrs.interpHeadFn == (if f == 0 then 0 else (f - base) % 0x1_0000_0000_0000_0000)
      && addrs.hint == 0 && addrs.pie == elf.isDyn
  {
    hide FirstValue, LastFn;
    OneLocation(elf, addrs);
  }

  /** Moved by the offset, each of them is where it should be exactly when it is not
      at the base itself, and the hint is left as it is. */
  lemma FieldsMoved(elf: Elf, addrs: PyAddresses, base: Address, offset: Address)
    requires Locates(elf, addrs) && HasBase(elf, base)
    ensures
      var all := elf.dynsym + if elf.symtab.Some? then elf.symtab.value else [];
      var t, h, f := FirstValue(all, "_PyThreadState_Current"), FirstValue(all, "interp_head"), LastFn(all, 0);
      var moved := addrs.Plus(offset);
      && (moved.tstate == (if t == 0 then 0 else (t - base + offset) % 0x1_0000_0000_0000_0000) <==> t == 0 || t != base || offset == 0)
      && (moved.interpHead == (if h == 0 then 0 else (h - base + offset) % 0x1_0000_0000_0000_0000) <==> h == 0 || h != base || offset == 0)
      && (moved.interpHeadFn == (if f == 0 then 0 else (f - base + offset) % 0x1_0000_0000_0000_0000) <==> f == 0 || f != base || offset == 0)
      && moved.hint == 0 && moved.pie == elf.isDyn
  {
    FieldsLocated(elf, addrs, base);
    var all := AllSymbols(elf);
    var t, h, f := FirstValue(all, TSTATE), FirstValue(all, INTERP_HEAD), LastFn(all, 0);
    assert addrs.tstate == Down(t, base) && addrs.interpHead == Down(h, base) && addrs.interpHeadFn == Down(f, base);
    var moved := addrs.Plus(offset);
    assert moved.tstate == Up(Down(t, base), offset) && moved.interpHead == Up(Down(h, base), offset)
        && moved.interpHeadFn == Up(Down(f, base), offset) && moved.hint == 0 && moved.pie == elf.isDyn;
    hide Down, Up, FirstValue, LastFn, Locates, HasBase;
    OneMoved(t, base, offset);
    OneMoved(h, base, offset);
    OneMoved(f, base, offset);
  }

  lemma OneMoved(v: Address, base: Address, offset: Address)
    ensures Up(Down(v, base), offset) == (if v == 0 then 0 else (v - base + offset) % 0x1_0000_0000_0000_0000) <==>
      v == 0 || v != base || offset == 0
  {
    RelocationExact(v, base, offset);
  }

  /** A file as it is mapped: offset is where, or 0 when it is not mapped. */
  datatype Library = Library(offset: Address, elf: Elf)

  predicate SubstringAt(s: string, t: string, i: nat) {
    i + |t| <= |s| && s[i..i + |t|] == t
  }

  predicate Mentions(s: string, t: string) {
    exists i :: 0 <= i <= |s| && SubstringAt(s, t, i)
  }

  /** A text is mentioned when the string is that text with something in front of it
      and something after it. */
  lemma MentionsMeans(s: string, t: string)
    ensures Mentions(s, t) <==> exists a, b :: s == a + t + b
  {
    if i :| 0 <= i <= |s| && SubstringAt(s, t, i) {
      assert s == s[..i] + t + s[i + |t|..];
    }
    if a, b :| s == a + t + b {
      assert SubstringAt(s, t, |a|);
    }
  }

  /** The first needed library with libpython in its name, or a guess. */
  function LibPython(needed: seq<string>): (name: string)
    ensures (forall i :: 0 <= i < |needed| ==> !Mentions(needed[i], "libpython")) ==> name == "libpython2.7.so"
    ensures forall i :: FirstMention(needed, i) ==> name == needed[i]
    ensures forall i :: 0 <= i < |needed| && Mentions(needed[i], "libpython") ==>
      (forall j :: 0 <= j < i ==> !Mentions(needed[j], "libpython")) ==> name == needed[i]
  {
    if needed == [] then "libpython2.7.so"
    else if Mentions(needed[0], "libpython") then needed[0]
    else
      assert forall i :: 1 <= i < |needed| ==> needed[i] == needed[1..][i - 1];
      assert forall i :: FirstMention(needed, i) ==> i > 0 && FirstMention(needed[1..], i - 1);
      LibPython(needed[1..])
  }

  /** The i-th needed library is the first with libpython in its name. */
  predicate FirstMention(needed: seq<string>, i: int) {
    0 <= i < |needed| && Mentions(needed[i], "libpython") && forall j :: 0 <= j < i ==> !Mentions(needed[j], "libpython")
  }

  lemma {:induction false} SomeFirstMention(needed: seq<string>, i: int)
    requires 0 <= i < |needed| && Mentions(needed[i], "libpython")
    ensures exists j :: FirstMention(needed, j)
    decreases i
  {
    if j :| 0 <= j < i && Mentions(needed[j], "libpython") {
      SomeFirstMention(needed, j);
    } else {
      assert FirstMention(needed, i);
    }
  }

  /** What a library gives: it must be mapped and know the current thread. Its
      addresses move with it, and the ABI is that of its last table. */
  ghost predicate FromLibrary(lib: Library, r: Result<(PyAddresses, Abi), Failure>) {
    if lib.offset == 0 then r == Err(SymbolError)
    else
      && ((forall addrs :: !Locates(lib.elf, addrs)) ==> r == Err(Fatal))
      && forall addrs :: Locates(lib.elf, addrs) ==>
           r == if addrs.Empty() then Err(SymbolError) else Ok((addrs.Plus(lib.offset), AbiOf(LastTable(lib.elf))))
  }

  method AddressesFromLibPython(lib: Library) returns (r: Result<(PyAddresses, Abi), Failure>)
    requires SmallTables(lib.elf)
    ensures FromLibrary(lib, r)
    ensures lib.offset == 0 ==> r == Err(SymbolError)
    ensures lib.offset != 0 ==> forall addrs :: Locates(lib.elf, addrs) ==>
      r == if addrs.tstate == 0 then Err(SymbolError)
           else Ok((addrs.Plus(lib.offset), AbiOf(if lib.elf.symtab.Some? then lib.elf.symtab.value else lib.elf.dynsym)))
    ensures lib.offset != 0 && (forall addrs :: !Locates(lib.elf, addrs)) ==> r == Err(Fatal)
  {
    if lib.offset == 0 {
      return Err(SymbolError);
    }
    var found :- GetAddresses(lib.elf);
    OneLocation(lib.elf, found.0);
    if found.0.Empty() {
      return Err(SymbolError);
    }
    return Ok((found.0.Plus(lib.offset), found.1));
  }

  /** Addrs: the executable, moved to where it is mapped if it is position
      independent, when it knows the current thread, and otherwise the Python
      library that it needs. The ABI is that of the file that was used. */
  method Addrs(target: Library, needed: seq<string>, libraries: string -> Library) returns (r: Result<(PyAddresses, Abi), Failure>)
    requires SmallTables(target.elf) && SmallTables(libraries(LibPython(needed)).elf)
    ensures forall addrs :: Locates(target.elf, addrs) && addrs.tstate != 0 ==>
      r == Ok((if target.elf.isDyn then addrs.Plus(target.offset) else addrs,
               AbiOf(if target.elf.symtab.Some? then target.elf.symtab.value else target.elf.dynsym)))
    ensures (exists addrs :: Locates(target.elf, addrs) && addrs.tstate == 0) ==> FromLibrary(libraries(LibPython(needed)), r)
    ensures (forall addrs :: !Locates(target.elf, addrs)) ==> r == Err(Fatal)
  {
    var found :- GetAddresses(target.elf);
    OneLocation(target.elf, found.0);
    if !found.0.Empty() {
      if found.0.pie {
        return Ok((found.0.Plus(target.offset), found.1));
      }
      return Ok(found);
    }
    r := AddressesFromLibPython(libraries(LibPython(needed)));
  }

  /** A library gives one thing only. */
  lemma OneFromLibrary(lib: Library, r: Result<(PyAddresses, Abi), Failure>, r': Result<(PyAddresses, Abi), Failure>)
    requires FromLibrary(lib, r) && FromLibrary(lib, r')
    ensures r == r'
  {
    if lib.offset != 0 && exists addrs :: Locates(lib.elf, addrs) {
      var addrs :| Locates(lib.elf, addrs);
      OneLocation(lib.elf, addrs);
    }
  }

  lemma OneLocation(elf: Elf, addrs: PyAddresses)
    requires Locates(elf, addrs)
    ensures forall other :: Locates(elf, other) ==> other == addrs
    ensures addrs.pie == elf.isDyn
  {
    if elf.isDyn {
      var i: nat :| FirstLoad(elf.headers, i) && addrs == Found(elf).Minus(elf.headers[i].vaddr);
      assert forall j: nat :: FirstLoad(elf.headers, j) ==> j == i;
    }
  }
}
