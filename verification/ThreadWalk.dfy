/** FollowFrame and GetThreads: from raw words of the target to its threads and
    their stacks. The linked lists that the code walks are given as ghost
    sequences of addresses; their being finite is what makes the walks end. */
module ThreadWalk {
  import opened Wrappers
  import opened RemoteMemory
  import opened PyString
  import opened LineTable
  import opened Frames
  import Utf8

  /** offsetof() for the structures of one Python ABI. The string layout of
      PyStringObject (26) or the compact strings (34 and 36) goes with it. */
  datatype Abi = Abi(
    compactStrings: bool, obSize: nat, byteData: nat,
    fBack: nat, fCode: nat, fTrace: nat, fLasti: nat, fLineno: nat,
    coFilename: nat, coName: nat, coFirstlineno: nat, coLnotab: nat,
    tsInterp: nat, tsNext: nat, tsFrame: nat, tsThreadId: nat, isTstateHead: nat)

  /** The fields of PyAddresses that the walk starts from. */
  datatype Roots = Roots(tstateAddr: nat, interpHeadAddr: nat, interpHeadHint: nat)

  // --- Strings and lines of one frame ---

  function AsString(b: seq<Byte>): string {
    seq(|b|, i requires 0 <= i < |b| => b[i] as char)
  }

  /** The string object at addr reads as s. */
  ghost predicate HoldsString(mem: Memory, abi: Abi, addr: nat, s: string) {
    if abi.compactStrings then
      || (NoUnits(mem, addr) && s == "")
      || exists text :: Stored(mem, addr, text) && s == AsString(Utf8.Encode(text))
    else
      HoldsCString(mem, addr + abi.byteData, s)
  }

  ghost predicate HoldsCString(mem: Memory, addr: nat, s: string) {
    exists b :: StringAt(mem, addr, b) && s == AsString(b)
  }

  lemma StringDataUnique(mem: Memory, abi: Abi, addr: nat, s: string, t: string)
    requires HoldsString(mem, abi, addr, s) && HoldsString(mem, abi, addr, t)
    ensures s == t
  {
    if !abi.compactStrings {
      var data := addr + abi.byteData;
      var b :| StringAt(mem, data, b) && s == AsString(b);
      var c :| StringAt(mem, data, c) && t == AsString(c);
      StringUnique(mem, data, b, c);
    }
  }

  method StringData(mem: Memory, abi: Abi, addr: nat) returns (r: Fetched<string>)
    ensures r.Ok? ==> HoldsString(mem, abi, addr, r.value)
    ensures r.Err? ==> forall s :: !HoldsString(mem, abi, addr, s)
    ensures abi.compactStrings ==> forall text :: Stored(mem, addr, text) ==>
      && r.Ok? && |r.value| == |Utf8.Encode(text)|
      && forall i :: 0 <= i < |r.value| ==> r.value[i] as int == Utf8.Encode(text)[i]
    ensures !abi.compactStrings ==> forall b :: StringAt(mem, addr + abi.byteData, b) ==>
      r.Ok? && |r.value| == |b| && forall i :: 0 <= i < |b| ==> r.value[i] as int == b[i]
  {
    var b: Fetched<seq<Byte>>;
    if abi.compactStrings {
      b := StringDataPython3(mem, addr);
    } else {
      b := PeekString(mem, addr + abi.byteData);
    }
    var data := addr + abi.byteData;
    if !abi.compactStrings && b.Ok? {
      forall c {:trigger StringAt(mem, data, c)} | StringAt(mem, data, c) ensures c == b.value {
        StringUnique(mem, data, b.value, c);
      }
    }
    return if b.Ok? then Ok(AsString(b.value)) else Err(b.error);
  }

  /** word & INT_MAX on an unsigned word. */
  function Masked(word: nat): nat { word % (INT_MAX + 1) }

  /** The low half of a word, without its sign bit. */
  lemma MaskedIsLow(k: nat, high: nat)
    requires k <= 0x7fff_ffff
    ensures Masked(k + 0x8000_0000 * high) == k
  {
  }

  /** co_firstlineno and the bytes of co_lnotab of a code object. */
  function TableOf(mem: Memory, abi: Abi, code: nat): Fetched<(nat, seq<Byte>)> {
    var lnotab :- Peek(mem, code + abi.coLnotab);
    var size :- Peek(mem, lnotab + abi.obSize);
    var first :- Peek(mem, code + abi.coFirstlineno);
    if Mapped(mem, lnotab + abi.byteData, RoundUp(Masked(size))) then
      Ok((Masked(first), Read(mem, lnotab + abi.byteData, Masked(size))))
    else
      Err(PtraceError)
  }

  /** The frame at frame, running code, is at line: the one kept for a tracing
      function if there is one, else that of the pair of the line table in
      effect at the last instruction. */
  ghost predicate HoldsLine(mem: Memory, abi: Abi, frame: nat, code: nat, line: nat) {
    match Peek(mem, frame + abi.fTrace)
    case Err(_) => false
    case Ok(trace) =>
      if trace != 0 then
        Peek(mem, frame + abi.fLineno).Ok? && line == Masked(Peek(mem, frame + abi.fLineno).value)
      else
        && Peek(mem, frame + abi.fLasti).Ok? && TableOf(mem, abi, code).Ok?
        && var (first, table) := TableOf(mem, abi, code).value;
        LineInEffect(table, first, Masked(Peek(mem, frame + abi.fLasti).value), line)
  }

  /** The line of a frame from the words it is made of, whose low halves are ints. */
  lemma LineMeans(mem: Memory, abi: Abi, frame: nat, code: nat, trace: nat, line: nat,
                  lineno: nat, lasti: nat, first: nat, size: nat, lnotab: nat, h1: nat, h2: nat, h3: nat)
    requires Peek(mem, frame + abi.fTrace) == Ok(trace)
    requires lineno <= 0x7fff_ffff && lasti <= 0x7fff_ffff && first <= 0x7fff_ffff && size <= 0x7fff_ffff
    ensures trace != 0 && Peek(mem, frame + abi.fLineno) == Ok(lineno + 0x1_0000_0000 * h1) ==>
      (HoldsLine(mem, abi, frame, code, line) <==> line == lineno)
    ensures
      && trace == 0 && Peek(mem, frame + abi.fLasti) == Ok(lasti + 0x1_0000_0000 * h1)
      && Peek(mem, code + abi.coLnotab) == Ok(lnotab) && Peek(mem, lnotab + abi.obSize) == Ok(size + 0x1_0000_0000 * h2)
      && Peek(mem, code + abi.coFirstlineno) == Ok(first + 0x1_0000_0000 * h3)
      && Mapped(mem, lnotab + abi.byteData, RoundUp(size))
      ==>
      && Mapped(mem, lnotab + abi.byteData, size)
      && (HoldsLine(mem, abi, frame, code, line) <==>
          LineInEffect(Read(mem, lnotab + abi.byteData, size), first, lasti, line))
  {
    hide Peek, LineInEffect, Masked;
    MaskedIsLow(lineno, 2 * h1);
    MaskedIsLow(lasti, 2 * h1);
    MaskedIsLow(size, 2 * h2);
    MaskedIsLow(first, 2 * h3);
  }

  method GetLine(mem: Memory, abi: Abi, frame: nat, code: nat) returns (r: Fetched<nat>)
    ensures r.Ok? ==> HoldsLine(mem, abi, frame, code, r.value)
    ensures r.Err? ==> forall line: nat :: !HoldsLine(mem, abi, frame, code, line)
  {
    hide Peek, LineInEffect;
    var trace :- Peek(mem, frame + abi.fTrace);
    if trace != 0 {
      var lineno :- Peek(mem, frame + abi.fLineno);
      return Ok(Masked(lineno));
    }
    var lasti :- Peek(mem, frame + abi.fLasti);
    var lnotab :- Peek(mem, code + abi.coLnotab);
    var size :- Peek(mem, lnotab + abi.obSize);
    var first :- Peek(mem, code + abi.coFirstlineno);
    var buffer :- PeekBytes(mem, lnotab + abi.byteData, Masked(size));
    var table := buffer[..Masked(size)];
    assert table == Read(mem, lnotab + abi.byteData, Masked(size));
    assert TableOf(mem, abi, code) == Ok((Masked(first), table));
    var line := ScanTable(table, Masked(first), Masked(lasti));
    return Ok(line);
  }

  // --- Linked lists ---

  /** chain is the list that starts at address start and goes on through the
      pointers at offset off, up to null or to a pointer that cannot be read. */
  ghost predicate Walk(mem: Memory, off: nat, start: nat, chain: seq<nat>)
    decreases |chain|
  {
    if start == 0 then chain == []
    else
      && chain != [] && chain[0] == start
      && match Peek(mem, start + off)
         case Err(_) => |chain| == 1
         case Ok(next) => Walk(mem, off, next, chain[1..])
  }

  /** A list that can be read starts at start, has each element pointing to the next,
      and the last to null. */
  lemma {:induction false} WalkMeans(mem: Memory, off: nat, start: nat, chain: seq<nat>)
    ensures Walk(mem, off, start, chain) && Readable(mem, off, chain) <==>
      && start == (if chain == [] then 0 else chain[0]) && (forall i :: 0 <= i < |chain| ==> chain[i] != 0)
      && (forall i :: 0 <= i < |chain| ==>
            Peek(mem, chain[i] + off) == Ok(if i + 1 < |chain| then chain[i + 1] else 0))
    decreases |chain|
  {
    hide Peek;
    if chain != [] {
      var rest := chain[1..];
      var next := if 1 < |chain| then chain[1] else 0;
      WalkMeans(mem, off, next, rest);
      WalkStep(mem, off, start, chain, next);
      hide Walk, Readable;
      assert forall i :: 0 <= i < |rest| ==> rest[i] == chain[i + 1];
      assert forall i :: 1 <= i < |chain| ==> chain[i] == rest[i - 1];
    }
  }

  lemma WalkStep(mem: Memory, off: nat, start: nat, chain: seq<nat>, next: nat)
    requires chain != [] && next == if 1 < |chain| then chain[1] else 0
    ensures Walk(mem, off, start, chain) && Readable(mem, off, chain) <==>
      && start == chain[0] != 0 && Peek(mem, chain[0] + off) == Ok(next)
      && Walk(mem, off, next, chain[1..]) && Readable(mem, off, chain[1..])
  {
    hide Peek, Readable;
    ReadableStep(mem, off, chain);
    assert 1 < |chain| ==> chain[1..][0] == chain[1];
  }

  lemma ReadableStep(mem: Memory, off: nat, chain: seq<nat>)
    requires chain != []
    ensures Readable(mem, off, chain) <==> Peek(mem, chain[0] + off).Ok? && Readable(mem, off, chain[1..])
  {
    hide Peek;
    var rest := chain[1..];
    assert forall i :: 1 <= i < |chain| ==> chain[i] == rest[i - 1];
  }

  predicate Readable(mem: Memory, off: nat, chain: seq<nat>) {
    forall i :: 0 <= i < |chain| ==> Peek(mem, chain[i] + off).Ok?
  }

  lemma {:induction false} WalkUnique(mem: Memory, off: nat, start: nat, c: seq<nat>, d: seq<nat>)
    requires Walk(mem, off, start, c) && Walk(mem, off, start, d)
    ensures c == d
    decreases |c|
  {
    if start != 0 && Peek(mem, start + off).Ok? {
      WalkUnique(mem, off, Peek(mem, start + off).value, c[1..], d[1..]);
      assert c == [c[0]] + c[1..] && d == [d[0]] + d[1..];
    }
  }

  lemma {:induction false} WalkSuffix(mem: Memory, off: nat, start: nat, chain: seq<nat>, i: nat)
    requires Walk(mem, off, start, chain) && i < |chain|
    ensures chain[i] != 0 && Walk(mem, off, chain[i], chain[i..])
    decreases i
  {
    if i > 0 {
      WalkSuffix(mem, off, Peek(mem, start + off).value, chain[1..], i - 1);
      assert chain[1..][i - 1..] == chain[i..];
    }
  }

  /** A list that ends visits no address twice, and never the null address. */
  lemma WalkAcyclic(mem: Memory, off: nat, start: nat, chain: seq<nat>)
    requires Walk(mem, off, start, chain)
    ensures 0 !in chain
    ensures forall i, j :: 0 <= i < j < |chain| ==> chain[i] != chain[j]
  {
    forall i | 0 <= i < |chain| ensures chain[i] != 0 {
      WalkSuffix(mem, off, start, chain, i);
    }
    forall i, j | 0 <= i < j < |chain| ensures chain[i] != chain[j] {
      WalkSuffix(mem, off, start, chain, i);
      WalkSuffix(mem, off, start, chain, j);
      if chain[i] == chain[j] {
        WalkUnique(mem, off, chain[i], chain[i..], chain[j..]);
      }
    }
  }

  // --- Frames ---

  ghost predicate FrameAt(mem: Memory, abi: Abi, addr: nat, frame: Frame) {
    && Peek(mem, addr + abi.fCode).Ok?
    && var code := Peek(mem, addr + abi.fCode).value;
    && Peek(mem, code + abi.coFilename).Ok? && HoldsString(mem, abi, Peek(mem, code + abi.coFilename).value, frame.file)
    && Peek(mem, code + abi.coName).Ok? && HoldsString(mem, abi, Peek(mem, code + abi.coName).value, frame.name)
    && HoldsLine(mem, abi, addr, code, frame.line)
  }

  /** The frames of an f_back chain, most recent first. */
  ghost predicate FramesAt(mem: Memory, abi: Abi, chain: seq<nat>, frames: seq<Frame>) {
    && |frames| == |chain|
    && Readable(mem, abi.fBack, chain)
    && forall i :: 0 <= i < |chain| ==> FrameAt(mem, abi, chain[i], frames[i])
  }

  /** The part of FollowFrame that reads one frame. */
  method ReadFrame(mem: Memory, abi: Abi, addr: nat) returns (r: Fetched<Frame>)
    ensures r.Ok? ==> FrameAt(mem, abi, addr, r.value)
    ensures r.Err? ==> forall frame :: !FrameAt(mem, abi, addr, frame)
    ensures r.Ok? ==>
      && Peek(mem, addr + abi.fCode).Ok?
      && var code := Peek(mem, addr + abi.fCode).value;
      && Peek(mem, code + abi.coFilename).Ok? && HoldsString(mem, abi, Peek(mem, code + abi.coFilename).value, r.value.file)
      && Peek(mem, code + abi.coName).Ok? && HoldsString(mem, abi, Peek(mem, code + abi.coName).value, r.value.name)
      && HoldsLine(mem, abi, addr, code, r.value.line)
  {
    hide Peek, HoldsString, HoldsLine;
    var code :- Peek(mem, addr + abi.fCode);
    var coFilename :- Peek(mem, code + abi.coFilename);
    var filename :- StringData(mem, abi, coFilename);
    var coName :- Peek(mem, code + abi.coName);
    var name :- StringData(mem, abi, coName);
    var line :- GetLine(mem, abi, addr, code);
    return Ok(Frame(filename, name, line));
  }

  /** FollowFrame appends exactly the frames of the chain, and fails when they
      cannot all be read. */
  method FollowFrame(mem: Memory, abi: Abi, addr: nat, stack: seq<Frame>, ghost chain: seq<nat>)
    returns (r: Fetched<seq<Frame>>)
    requires addr != 0 && Walk(mem, abi.fBack, addr, chain)
    ensures r.Ok? ==> stack <= r.value && FramesAt(mem, abi, chain, r.value[|stack|..])
    ensures r.Err? ==> forall frames :: !FramesAt(mem, abi, chain, frames)
    decreases |chain|
  {
    hide Peek, FrameAt;
    var frame := ReadFrame(mem, abi, addr);
    if frame.Err? {
      forall frames | FramesAt(mem, abi, chain, frames) ensures false {
        FirstFrame(mem, abi, chain, frames);
      }
      return Err(frame.error);
    }
    var back := Peek(mem, addr + abi.fBack);
    if back.Err? {
      assert !Readable(mem, abi.fBack, chain) by { assert Peek(mem, chain[0] + abi.fBack).Err?; }
      return Err(back.error);
    }
    if back.value == 0 {
      return Ok(stack + [frame.value]);
    }
    r := FollowFrame(mem, abi, back.value, stack + [frame.value], chain[1..]);
    if r.Ok? {
      assert r.value[|stack|..] == [frame.value] + r.value[|stack| + 1..];
      FramesCons(mem, abi, chain, r.value[|stack|..]);
    } else {
      forall frames | FramesAt(mem, abi, chain, frames) ensures false {
        FramesCons(mem, abi, chain, frames);
      }
    }
  }

  /** One frame for each address of the chain, in the same order. */
  lemma FramesMean(mem: Memory, abi: Abi, chain: seq<nat>, frames: seq<Frame>)
    ensures FramesAt(mem, abi, chain, frames) <==> |frames| == |chain| && forall i :: 0 <= i < |chain| ==>
      Peek(mem, chain[i] + abi.fBack).Ok? && FrameAt(mem, abi, chain[i], frames[i])
  {
    hide Peek, FrameAt;
  }

  lemma FirstFrame(mem: Memory, abi: Abi, chain: seq<nat>, frames: seq<Frame>)
    requires chain != [] && FramesAt(mem, abi, chain, frames)
    ensures frames != [] && FrameAt(mem, abi, chain[0], frames[0])
  {
  }

  lemma FramesCons(mem: Memory, abi: Abi, chain: seq<nat>, frames: seq<Frame>)
    requires chain != [] && frames != []
    ensures FramesAt(mem, abi, chain, frames) <==>
      && Peek(mem, chain[0] + abi.fBack).Ok? && FrameAt(mem, abi, chain[0], frames[0])
      && FramesAt(mem, abi, chain[1..], frames[1..])
  {
    if FramesAt(mem, abi, chain[1..], frames[1..]) {
      forall i | 1 <= i < |chain| && |chain| == |frames|
        ensures FrameAt(mem, abi, chain[i], frames[i]) && Peek(mem, chain[i] + abi.fBack).Ok?
      {
        assert chain[1..][i - 1] == chain[i] && frames[1..][i - 1] == frames[i];
      }
    }
  }


  lemma FrameUnique(mem: Memory, abi: Abi, addr: nat, f: Frame, g: Frame)
    requires FrameAt(mem, abi, addr, f) && FrameAt(mem, abi, addr, g)
    ensures f == g
  {
    hide Peek, HoldsString, HoldsLine;
    var code := Peek(mem, addr + abi.fCode).value;
    StringDataUnique(mem, abi, Peek(mem, code + abi.coFilename).value, f.file, g.file);
    StringDataUnique(mem, abi, Peek(mem, code + abi.coName).value, f.name, g.name);
    LineUnique(mem, abi, addr, code, f.line, g.line);
  }

  lemma LineUnique(mem: Memory, abi: Abi, frame: nat, code: nat, l: nat, l': nat)
    requires HoldsLine(mem, abi, frame, code, l) && HoldsLine(mem, abi, frame, code, l')
    ensures l == l'
  {
    if Peek(mem, frame + abi.fTrace).value == 0 {
      var (first, table) := TableOf(mem, abi, code).value;
      OneLine(table, first, Masked(Peek(mem, frame + abi.fLasti).value), l);
    }
  }

  lemma FramesUnique(mem: Memory, abi: Abi, chain: seq<nat>, f: seq<Frame>, g: seq<Frame>)
    requires FramesAt(mem, abi, chain, f) && FramesAt(mem, abi, chain, g)
    ensures f == g
  {
    forall i | 0 <= i < |chain| ensures f[i] == g[i] {
      FrameUnique(mem, abi, chain[i], f[i], g[i]);
    }
  }

  // --- Threads ---

  /** A thread state: its thread_id, the address of its frame or null, and the
      stack that starts there. */
  datatype Cell = Cell(id: nat, frame: nat, stack: seq<Frame>)

  ghost predicate CellAt(mem: Memory, abi: Abi, tstate: nat, cell: Cell) {
    && Peek(mem, tstate + abi.tsThreadId) == Ok(cell.id)
    && Peek(mem, tstate + abi.tsFrame) == Ok(cell.frame)
    && exists chain :: Walk(mem, abi.fBack, cell.frame, chain) && FramesAt(mem, abi, chain, cell.stack)
  }

  ghost predicate CellsAt(mem: Memory, abi: Abi, chain: seq<nat>, cells: seq<Cell>) {
    && |cells| == |chain|
    && forall i :: 0 <= i < |chain| ==> CellAt(mem, abi, chain[i], cells[i])
  }

  /** Memory holds at most one frame at an address, one stack on a chain and one
      list of cells, so "exactly" below is meant literally. */
  lemma CellsUnique(mem: Memory, abi: Abi, chain: seq<nat>, cells: seq<Cell>, cells': seq<Cell>)
    requires CellsAt(mem, abi, chain, cells) && CellsAt(mem, abi, chain, cells')
    ensures cells == cells'
  {
    hide Peek, FramesAt;
    forall i | 0 <= i < |chain| ensures cells[i] == cells'[i] {
      assert CellAt(mem, abi, chain[i], cells[i]) && CellAt(mem, abi, chain[i], cells'[i]);
      var start := Peek(mem, chain[i] + abi.tsFrame).value;
      var c :| Walk(mem, abi.fBack, start, c) && FramesAt(mem, abi, c, cells[i].stack);
      var d :| Walk(mem, abi.fBack, start, d) && FramesAt(mem, abi, d, cells'[i].stack);
      WalkUnique(mem, abi.fBack, start, c, d);
      FramesUnique(mem, abi, c, cells[i].stack, cells'[i].stack);
    }
  }

  /** The threads with a frame, in list order. */
  function Listed(chain: seq<nat>, cells: seq<Cell>, current: nat): seq<Thread>
    requires |cells| == |chain|
  {
    if cells == [] then [] else Entry(chain[0], cells[0], current) + Listed(chain[1..], cells[1..], current)
  }

  function Entry(tstate: nat, cell: Cell, current: nat): seq<Thread> {
    if cell.frame == 0 then [] else [Thread(cell.id, tstate == current, cell.stack)]
  }

  /** A thread state has an empty stack exactly when its frame is null. */
  lemma StackOfCell(mem: Memory, abi: Abi, tstate: nat, cell: Cell)
    requires CellAt(mem, abi, tstate, cell)
    ensures cell.stack == [] <==> cell.frame == 0
  {
    hide Peek, FrameAt;
  }

  /** So no thread of the result is without frames. */
  lemma {:induction false} ListedHaveFrames(mem: Memory, abi: Abi, chain: seq<nat>, cells: seq<Cell>, current: nat)
    requires CellsAt(mem, abi, chain, cells)
    ensures forall i :: 0 <= i < |Listed(chain, cells, current)| ==> Listed(chain, cells, current)[i].frames != []
    decreases |cells|
  {
    hide CellAt;
    if cells != [] {
      StackOfCell(mem, abi, chain[0], cells[0]);
      ListedHaveFrames(mem, abi, chain[1..], cells[1..], current);
    }
  }

  /** Where the walk over thread states starts: with threads, at the head of the
      interpreter named by the current thread, or else by the interp_head
      symbol, or else by the hint; without, or when none of them names one, at
      the current thread. */
  function Head(mem: Memory, abi: Abi, roots: Roots, enableThreads: bool): Fetched<nat> {
    var tstate :- Peek(mem, roots.tstateAddr);
    if !enableThreads then Ok(tstate)
    else
      var istate :-
        if tstate != 0 then Peek(mem, tstate + abi.tsInterp)
        else if roots.interpHeadAddr != 0 then Peek(mem, roots.interpHeadAddr)
        else Ok(roots.interpHeadHint);
      if istate != 0 then Peek(mem, istate + abi.isTstateHead) else Ok(tstate)
  }

  /** The first part of GetThreads. */
  method FindHead(mem: Memory, abi: Abi, roots: Roots, enableThreads: bool) returns (r: Fetched<nat>)
    ensures r == Head(mem, abi, roots, enableThreads)
    ensures r.Ok? ==> Peek(mem, roots.tstateAddr).Ok?
    ensures Peek(mem, roots.tstateAddr).Err? ==> r.Err?
    ensures !enableThreads ==> r == Peek(mem, roots.tstateAddr)
    ensures enableThreads && r.Ok? ==>
      var tstate := Peek(mem, roots.tstateAddr).value;
      var named := if tstate != 0 then Peek(mem, tstate + abi.tsInterp)
        else if roots.interpHeadAddr != 0 then Peek(mem, roots.interpHeadAddr)
        else Ok(roots.interpHeadHint);
      named.Ok? && r == if named.value != 0 then Peek(mem, named.value + abi.isTstateHead) else Ok(tstate)
    ensures enableThreads ==> forall istate :: Names(mem, abi, roots, istate) ==> r == NamedList(mem, abi, roots, istate)
  {
    var istate := 0;
    var tstate :- Peek(mem, roots.tstateAddr);
    if enableThreads {
      if tstate != 0 {
        istate :- Peek(mem, tstate + abi.tsInterp);
      } else if roots.interpHeadAddr != 0 {
        istate :- Peek(mem, roots.interpHeadAddr);
      } else if roots.interpHeadHint != 0 {
        istate := roots.interpHeadHint;
      }
      if istate != 0 {
        tstate :- Peek(mem, istate + abi.isTstateHead);
      }
    }
    r := Ok(tstate);
  }

  /** chain lists the thread states that the walk visits. */
  ghost predicate Visits(mem: Memory, abi: Abi, enableThreads: bool, head: nat, chain: seq<nat>) {
    if enableThreads then Walk(mem, abi.tsNext, head, chain)
    else chain == if head == 0 then [] else [head]
  }

  /** The whole list that can be read from the head on, or the head alone. */
  lemma VisitsMeans(mem: Memory, abi: Abi, head: nat, chain: seq<nat>)
    ensures Visits(mem, abi, false, head, chain) <==> chain == if head == 0 then [] else [head]
    ensures Visits(mem, abi, true, head, chain) && (forall i :: 0 <= i < |chain| ==> Peek(mem, chain[i] + abi.tsNext).Ok?) <==>
      && head == (if chain == [] then 0 else chain[0]) && (forall i :: 0 <= i < |chain| ==> chain[i] != 0)
      && (forall i :: 0 <= i < |chain| ==>
            Peek(mem, chain[i] + abi.tsNext) == Ok(if i + 1 < |chain| then chain[i + 1] else 0))
  {
    hide Peek, Walk;
    WalkMeans(mem, abi.tsNext, head, chain);
  }

  /** The f_back list of a thread state ends. */
  ghost predicate FrameListEnds(mem: Memory, abi: Abi, tstate: nat) {
    match Peek(mem, tstate + abi.tsFrame)
    case Err(_) => true
    case Ok(frame) => exists frames :: Walk(mem, abi.fBack, frame, frames)
  }

  /** Everything that GetThreads has to read can be read: cells are the thread
      states it visits. */
  ghost predicate Holds(mem: Memory, abi: Abi, roots: Roots, enableThreads: bool, chain: seq<nat>, cells: seq<Cell>) {
    && Head(mem, abi, roots, enableThreads).Ok?
    && (enableThreads ==> Readable(mem, abi.tsNext, chain))
    && CellsAt(mem, abi, chain, cells)
  }

  /** threads are what memory holds on this list. */
  ghost predicate Gives(mem: Memory, abi: Abi, roots: Roots, enableThreads: bool, chain: seq<nat>, threads: seq<Thread>) {
    exists cells :: Holds(mem, abi, roots, enableThreads, chain, cells)
                    && threads == Listed(chain, cells, Peek(mem, roots.tstateAddr).value)
  }

  lemma GivenHaveFrames(mem: Memory, abi: Abi, roots: Roots, enableThreads: bool, chain: seq<nat>, threads: seq<Thread>)
    requires Gives(mem, abi, roots, enableThreads, chain, threads)
    ensures forall i :: 0 <= i < |threads| ==> threads[i].frames != []
  {
    hide CellAt, Listed;
    var current := Peek(mem, roots.tstateAddr).value;
    var cells :| Holds(mem, abi, roots, enableThreads, chain, cells) && threads == Listed(chain, cells, current);
    ListedHaveFrames(mem, abi, chain, cells, current);
  }

  /** GetThreads succeeds exactly when everything it visits can be read, and then
      returns the threads of the list that have a frame, each with its whole stack. */
  method GetThreads(mem: Memory, abi: Abi, roots: Roots, enableThreads: bool, ghost chain: seq<nat>)
    returns (r: Fetched<seq<Thread>>)
    requires Head(mem, abi, roots, enableThreads).Ok? ==>
      Visits(mem, abi, enableThreads, Head(mem, abi, roots, enableThreads).value, chain)
    requires forall tstate :: tstate in chain ==> FrameListEnds(mem, abi, tstate)
    ensures r.Ok? ==> Gives(mem, abi, roots, enableThreads, chain, r.value)
    ensures r.Err? ==> forall cells :: !Holds(mem, abi, roots, enableThreads, chain, cells)
    ensures !enableThreads && Peek(mem, roots.tstateAddr).Ok? ==>
      var tstate := Peek(mem, roots.tstateAddr).value;
      && (tstate == 0 ==> chain == [] && r == Ok([]))
      && (tstate != 0 ==> chain == [tstate] && forall cell :: CellAt(mem, abi, tstate, cell) ==>
            r == Ok(if cell.frame == 0 then [] else [Thread(cell.id, true, cell.stack)]))
    ensures enableThreads && Head(mem, abi, roots, true).Ok? ==>
      forall cells :: CellsAt(mem, abi, chain, cells) && Readable(mem, abi.tsNext, chain) ==>
        r == Ok(Listed(chain, cells, Peek(mem, roots.tstateAddr).value))
  {
    hide Peek, Head, CellAt, FrameListEnds, Names, NamedList, Listed, Readable, Walk;
    var tstate: nat :- FindHead(mem, abi, roots, enableThreads);
    var current := Peek(mem, roots.tstateAddr).value;
    r := ListThreads(mem, abi, enableThreads, tstate, current, chain);
    forall cells | CellsAt(mem, abi, chain, cells) && (enableThreads ==> Readable(mem, abi.tsNext, chain))
      ensures r == Ok(Listed(chain, cells, current))
    {
      assert Holds(mem, abi, roots, enableThreads, chain, cells);
      forall cells' | CellsAt(mem, abi, chain, cells') ensures cells' == cells {
        CellsUnique(mem, abi, chain, cells, cells');
      }
    }
    if !enableThreads && tstate != 0 {
      forall cell | CellAt(mem, abi, tstate, cell)
        ensures r == Ok(if cell.frame == 0 then [] else [Thread(cell.id, true, cell.stack)])
      {
        assert CellsAt(mem, abi, [tstate], [cell]);
        ListedOne(tstate, cell, current);
      }
    } else if !enableThreads {
      assert CellsAt(mem, abi, [], []);
      ListedNone(current);
    }
  }

  lemma ListedNone(current: nat)
    ensures Listed([], [], current) == []
  {
  }

  lemma ListedOne(tstate: nat, cell: Cell, current: nat)
    ensures Listed([tstate], [cell], current) == if cell.frame == 0 then [] else [Thread(cell.id, tstate == current, cell.stack)]
  {
    assert [tstate][1..] == [] && [cell][1..] == [];
    assert Listed([], [], current) == [];
  }

  /** The loop of GetThreads. */
  method ListThreads(mem: Memory, abi: Abi, enableThreads: bool, head: nat, current: nat, ghost chain: seq<nat>)
    returns (r: Fetched<seq<Thread>>)
    requires Visits(mem, abi, enableThreads, head, chain)
    requires forall tstate :: tstate in chain ==> FrameListEnds(mem, abi, tstate)
    ensures r.Ok? ==> exists cells ::
      CellsAt(mem, abi, chain, cells) && (enableThreads ==> Readable(mem, abi.tsNext, chain)) && r.value == Listed(chain, cells, current)
    ensures r.Err? ==> forall cells :: !(CellsAt(mem, abi, chain, cells) && (enableThreads ==> Readable(mem, abi.tsNext, chain)))
  {
    hide Peek, CellAt, FrameListEnds, Entry, Visits, Readable, CellsAt, Listed;
    assert chain[0..] == chain && chain[..0] == [];
    NothingListed(mem, abi, current);
    var tstate: nat := head;
    var threads: seq<Thread> := [];
    ghost var cells: seq<Cell> := [];
    while tstate != 0
      invariant |cells| <= |chain| && Visits(mem, abi, enableThreads, tstate, chain[|cells|..])
      invariant enableThreads ==> Readable(mem, abi.tsNext, chain[..|cells|])
      invariant CellsAt(mem, abi, chain[..|cells|], cells)
      invariant threads == Listed(chain[..|cells|], cells, current)
      decreases |chain| - |cells|
    {
      VisitsStep(mem, abi, enableThreads, tstate, chain[|cells|..]);
      assert tstate == chain[|cells|];
      assert chain[|cells|..][1..] == chain[|cells| + 1..];
      ListStep(mem, abi, chain, cells);
      var cell := ReadCell(mem, abi, tstate);
      if cell.Err? {
        return Err(cell.error);
      }
      EntryOf(tstate, cell.value, current);
      if cell.value.frame != 0 {
        threads := threads + [Thread(cell.value.id, tstate == current, cell.value.stack)];
      }
      ListedSnoc(chain[..|cells|], cells, current, tstate, cell.value);
      assert chain[..|cells| + 1] == chain[..|cells|] + [tstate];
      if enableThreads {
        var next := Peek(mem, tstate + abi.tsNext);
        if next.Err? {
          return Err(next.error);
        }
        tstate := next.value;
      } else {
        tstate := 0;
      }
      cells := cells + [cell.value];
    }
    VisitsEnd(mem, abi, enableThreads, chain[|cells|..]);
    assert chain[..|cells|] == chain;
    r := Ok(threads);
  }

  lemma NothingListed(mem: Memory, abi: Abi, current: nat)
    ensures Readable(mem, abi.tsNext, []) && CellsAt(mem, abi, [], []) && Listed([], [], current) == []
  {
  }

  lemma VisitsStep(mem: Memory, abi: Abi, enableThreads: bool, tstate: nat, rest: seq<nat>)
    requires Visits(mem, abi, enableThreads, tstate, rest) && tstate != 0
    ensures rest != [] && rest[0] == tstate
    ensures enableThreads && Peek(mem, tstate + abi.tsNext).Ok? ==>
      Visits(mem, abi, enableThreads, Peek(mem, tstate + abi.tsNext).value, rest[1..])
    ensures !enableThreads ==> Visits(mem, abi, enableThreads, 0, rest[1..])
  {
    hide Peek;
  }

  lemma VisitsEnd(mem: Memory, abi: Abi, enableThreads: bool, rest: seq<nat>)
    requires Visits(mem, abi, enableThreads, 0, rest)
    ensures rest == []
  {
  }

  /** One thread state more has been read, or cannot be. */
  lemma ListStep(mem: Memory, abi: Abi, chain: seq<nat>, cells: seq<Cell>)
    requires |cells| < |chain| && CellsAt(mem, abi, chain[..|cells|], cells)
    ensures var n := |cells|;
      && (forall cell :: CellAt(mem, abi, chain[n], cell) ==> CellsAt(mem, abi, chain[..n + 1], cells + [cell]))
      && ((forall cell :: !CellAt(mem, abi, chain[n], cell)) ==> forall all :: !CellsAt(mem, abi, chain, all))
      && (Readable(mem, abi.tsNext, chain[..n]) && Peek(mem, chain[n] + abi.tsNext).Ok? ==> Readable(mem, abi.tsNext, chain[..n + 1]))
      && (Peek(mem, chain[n] + abi.tsNext).Err? ==> !Readable(mem, abi.tsNext, chain))
  {
    hide Peek, CellAt;
    var n := |cells|;
    forall all | CellsAt(mem, abi, chain, all) ensures CellAt(mem, abi, chain[n], all[n]) {
    }
    assert chain[..n + 1] == chain[..n] + [chain[n]];
  }

  /** The threads listed are those of the cells with a frame, in order. */
  lemma {:induction false} ListedMeans(chain: seq<nat>, cells: seq<Cell>, current: nat) returns (picks: seq<nat>)
    requires |cells| == |chain|
    ensures |picks| == |Listed(chain, cells, current)|
    ensures forall j :: 0 <= j < |picks| ==>
      && picks[j] < |cells| && cells[picks[j]].frame != 0
      && Listed(chain, cells, current)[j] == Thread(cells[picks[j]].id, chain[picks[j]] == current, cells[picks[j]].stack)
    ensures forall i, j :: 0 <= i < j < |picks| ==> picks[i] < picks[j]
    ensures forall i :: 0 <= i < |cells| && cells[i].frame != 0 ==> i in picks
  {
    hide Listed, Entry;
    picks := [];
    if cells == [] {
      ListedNone(current);
    } else {
      var n := |cells| - 1;
      picks := ListedMeans(chain[..n], cells[..n], current);
      ListedSnoc(chain[..n], cells[..n], current, chain[n], cells[n]);
      EntryOf(chain[n], cells[n], current);
      assert chain == chain[..n] + [chain[n]] && cells == cells[..n] + [cells[n]];
      assert forall i :: 0 <= i < n ==> cells[..n][i] == cells[i] && chain[..n][i] == chain[i];
      if cells[n].frame != 0 {
        picks := picks + [n];
      }
    }
  }

  /** The part of GetThreads that reads one thread state. */
  method ReadCell(mem: Memory, abi: Abi, tstate: nat) returns (r: Fetched<Cell>)
    requires FrameListEnds(mem, abi, tstate)
    ensures r.Ok? ==> CellAt(mem, abi, tstate, r.value)
    ensures r.Err? ==> forall cell :: !CellAt(mem, abi, tstate, cell)
    ensures r.Ok? ==> Peek(mem, tstate + abi.tsThreadId) == Ok(r.value.id) && Peek(mem, tstate + abi.tsFrame) == Ok(r.value.frame)
    ensures r.Ok? ==> exists chain :: Walk(mem, abi.fBack, r.value.frame, chain) && FramesAt(mem, abi, chain, r.value.stack)
  {
    var id :- Peek(mem, tstate + abi.tsThreadId);
    var frameAddr :- Peek(mem, tstate + abi.tsFrame);
    ghost var frames :| Walk(mem, abi.fBack, frameAddr, frames);
    if frameAddr == 0 {
      assert FramesAt(mem, abi, frames, []);
      return Ok(Cell(id, 0, []));
    }
    var stack := FollowFrame(mem, abi, frameAddr, [], frames);
    if stack.Ok? {
      assert stack.value[0..] == stack.value;
      return Ok(Cell(id, frameAddr, stack.value));
    }
    forall chain, s | Walk(mem, abi.fBack, frameAddr, chain) && FramesAt(mem, abi, chain, s) ensures false {
      WalkUnique(mem, abi.fBack, frameAddr, chain, frames);
    }
    return Err(stack.error);
  }

  lemma EntryOf(tstate: nat, cell: Cell, current: nat)
    ensures Entry(tstate, cell, current) == if cell.frame == 0 then [] else [Thread(cell.id, tstate == current, cell.stack)]
  {
  }

  lemma {:induction false} ListedSnoc(chain: seq<nat>, cells: seq<Cell>, current: nat, tstate: nat, cell: Cell)
    requires |cells| == |chain|
    ensures Listed(chain + [tstate], cells + [cell], current) == Listed(chain, cells, current) + Entry(tstate, cell, current)
  {
    hide Entry;
    var chain', cells' := chain + [tstate], cells + [cell];
    if cells == [] {
      assert chain'[1..] == [] && cells'[1..] == [];
      assert Listed(chain', cells', current) == Entry(tstate, cell, current) + [];
    } else {
      assert chain'[1..] == chain[1..] + [tstate] && cells'[1..] == cells[1..] + [cell];
      ListedSnoc(chain[1..], cells[1..], current, tstate, cell);
      var first, rest := Entry(chain[0], cells[0], current), Listed(chain[1..], cells[1..], current);
      assert first + (rest + Entry(tstate, cell, current)) == (first + rest) + Entry(tstate, cell, current);
    }
  }

  // --- What the result means ---

  /** At most one listed thread is current, and none is when
      _PyThreadState_Current is null. */
  lemma AtMostOneCurrent(mem: Memory, abi: Abi, enableThreads: bool, head: nat, chain: seq<nat>, cells: seq<Cell>, current: nat)
    requires Visits(mem, abi, enableThreads, head, chain) && |cells| == |chain|
    ensures var threads := Listed(chain, cells, current);
      && (forall i, j :: 0 <= i < j < |threads| ==> !(threads[i].isCurrent && threads[j].isCurrent))
      && (current == 0 ==> forall i :: 0 <= i < |threads| ==> !threads[i].isCurrent)
  {
    hide Listed, Walk, Peek;
    if enableThreads {
      WalkAcyclic(mem, abi.tsNext, head, chain);
    }
    var picks := ListedMeans(chain, cells, current);
  }

  /** The same threads but for the marks of who is current. */
  predicate SameButCurrent(threads: seq<Thread>, threads': seq<Thread>) {
    |threads| == |threads'| && forall i :: 0 <= i < |threads| ==>
      threads[i].id == threads'[i].id && threads[i].frames == threads'[i].frames
  }

  lemma {:induction false} UnmarkedListed(chain: seq<nat>, cells: seq<Cell>, current: nat, current': nat)
    requires |cells| == |chain|
    ensures SameButCurrent(Listed(chain, cells, current), Listed(chain, cells, current'))
  {
    if cells != [] {
      UnmarkedListed(chain[1..], cells[1..], current, current');
    }
  }

  /** The interpreter that a state of the target names: through the current
      thread, or when that is null through interp_head, or else through the hint. */
  predicate Names(mem: Memory, abi: Abi, roots: Roots, istate: nat) {
    && Peek(mem, roots.tstateAddr).Ok?
    && var tstate := Peek(mem, roots.tstateAddr).value;
    && (tstate != 0 ==> Peek(mem, tstate + abi.tsInterp) == Ok(istate))
    && (tstate == 0 && roots.interpHeadAddr != 0 ==> Peek(mem, roots.interpHeadAddr) == Ok(istate))
    && (tstate == 0 && roots.interpHeadAddr == 0 ==> roots.interpHeadHint == istate)
  }

  /** Where the list of an interpreter starts; without one, the current thread. */
  function NamedList(mem: Memory, abi: Abi, roots: Roots, istate: nat): Fetched<nat> {
    Peek(mem, if istate != 0 then istate + abi.isTstateHead else roots.tstateAddr)
  }

  lemma NamedHead(mem: Memory, abi: Abi, roots: Roots, istate: nat)
    requires Names(mem, abi, roots, istate)
    ensures Head(mem, abi, roots, true) == NamedList(mem, abi, roots, istate)
  {
  }

  /** Two states of the target that name the same interpreter, by whichever route,
      and have the memory in common in which its threads and their stacks are.
      Whatever the rest of each memory is, GetThreads finds the same threads with
      the same stacks; only the mark of the current thread can differ. */
  lemma RoutesAgree(mem: Memory, mem': Memory, common: Memory, abi: Abi, roots: Roots, roots': Roots, istate: nat,
                    chain: seq<nat>, chain': seq<nat>, cells: seq<Cell>, cells': seq<Cell>)
    requires istate != 0 && Names(mem, abi, roots, istate) && Names(mem', abi, roots', istate)
    requires forall a :: a in common ==> a in mem && mem[a] == common[a]
    requires forall a :: a in common ==> a in mem' && mem'[a] == common[a]
    requires HoldsThreads(common, abi, istate)
    requires forall head :: Head(mem, abi, roots, true) == Ok(head) ==> Visits(mem, abi, true, head, chain)
    requires forall head :: Head(mem', abi, roots', true) == Ok(head) ==> Visits(mem', abi, true, head, chain')
    requires Holds(mem, abi, roots, true, chain, cells) && Holds(mem', abi, roots', true, chain', cells')
    ensures chain == chain' && cells == cells'
    ensures
      var threads := Listed(chain, cells, Peek(mem, roots.tstateAddr).value);
      var threads' := Listed(chain', cells', Peek(mem', roots'.tstateAddr).value);
      |threads| == |threads'| && forall i :: 0 <= i < |threads| ==>
        threads[i].id == threads'[i].id && threads[i].frames == threads'[i].frames
  {
    assert Part(common, mem) && Part(common, mem');
    hide Peek, Head, Walk, CellsAt, Part, HoldsThreads, Listed;
    var c, d := ThreadsOf(common, abi, istate);
    SameThreads(mem, common, abi, roots, istate, chain, cells, c, d);
    SameThreads(mem', common, abi, roots', istate, chain', cells', c, d);
    UnmarkedListed(chain, cells, Peek(mem, roots.tstateAddr).value, Peek(mem', roots'.tstateAddr).value);
  }

  /** Memory holds the thread list of an interpreter with all stacks. */
  ghost predicate HoldsThreads(mem: Memory, abi: Abi, istate: nat) {
    exists chain, cells :: ThreadsAt(mem, abi, istate, chain, cells)
  }

  ghost predicate ThreadsAt(mem: Memory, abi: Abi, istate: nat, chain: seq<nat>, cells: seq<Cell>) {
    && Peek(mem, istate + abi.isTstateHead).Ok?
    && Walk(mem, abi.tsNext, Peek(mem, istate + abi.isTstateHead).value, chain)
    && Readable(mem, abi.tsNext, chain)
    && CellsAt(mem, abi, chain, cells)
  }

  /** It does when the list and what each thread state points to can be read. */
  lemma HoldsThreadsMeans(mem: Memory, abi: Abi, istate: nat, head: nat, chain: seq<nat>, cells: seq<Cell>)
    requires Peek(mem, istate + abi.isTstateHead) == Ok(head)
    requires Walk(mem, abi.tsNext, head, chain) && Readable(mem, abi.tsNext, chain) && |cells| == |chain|
    requires forall i :: 0 <= i < |chain| ==> CellAt(mem, abi, chain[i], cells[i])
    ensures HoldsThreads(mem, abi, istate)
  {
    assert ThreadsAt(mem, abi, istate, chain, cells);
  }

  lemma ThreadsOf(mem: Memory, abi: Abi, istate: nat) returns (chain: seq<nat>, cells: seq<Cell>)
    requires HoldsThreads(mem, abi, istate)
    ensures ThreadsAt(mem, abi, istate, chain, cells)
  {
    chain, cells :| ThreadsAt(mem, abi, istate, chain, cells);
  }

  /** What GetThreads visits is what a part of memory already holds. */
  lemma SameThreads(mem: Memory, part: Memory, abi: Abi, roots: Roots, istate: nat,
                    chain: seq<nat>, cells: seq<Cell>, c: seq<nat>, d: seq<Cell>)
    requires istate != 0 && Names(mem, abi, roots, istate) && Part(part, mem) && ThreadsAt(part, abi, istate, c, d)
    requires forall head :: Head(mem, abi, roots, true) == Ok(head) ==> Visits(mem, abi, true, head, chain)
    requires Holds(mem, abi, roots, true, chain, cells)
    ensures chain == c && cells == d && |cells| == |chain|
  {
    hide Peek, Head, CellAt, Names, Part, Walk;
    NamedHead(mem, abi, roots, istate);
    PeekPart(part, mem, istate + abi.isTstateHead);
    var head := Peek(mem, istate + abi.isTstateHead).value;
    WalkPart(part, mem, abi.tsNext, head, c);
    WalkUnique(mem, abi.tsNext, head, chain, c);
    forall i | 0 <= i < |c| ensures CellAt(mem, abi, c[i], d[i]) {
      CellPart(part, mem, abi, c[i], d[i]);
    }
    CellsUnique(mem, abi, chain, cells, d);
  }

  // --- What a part of memory holds, all of it holds ---

  predicate Part(part: Memory, mem: Memory) {
    forall a :: a in part ==> a in mem && mem[a] == part[a]
  }

  lemma ReadPart(part: Memory, mem: Memory, addr: nat, n: nat)
    requires Part(part, mem) && Mapped(part, addr, n)
    ensures Mapped(mem, addr, n) && Read(mem, addr, n) == Read(part, addr, n)
  {
  }

  lemma PeekPart(part: Memory, mem: Memory, addr: nat)
    requires Part(part, mem) && Peek(part, addr).Ok?
    ensures Peek(mem, addr) == Peek(part, addr)
  {
    ReadPart(part, mem, addr, WORD);
  }

  lemma {:induction false} WalkPart(part: Memory, mem: Memory, off: nat, start: nat, chain: seq<nat>)
    requires Part(part, mem) && Walk(part, off, start, chain) && Readable(part, off, chain)
    ensures Walk(mem, off, start, chain) && Readable(mem, off, chain)
    decreases |chain|
  {
    hide Peek, Part;
    forall i | 0 <= i < |chain| ensures Peek(mem, chain[i] + off) == Peek(part, chain[i] + off) {
      PeekPart(part, mem, chain[i] + off);
    }
    if start != 0 {
      assert Peek(part, chain[0] + off).Ok?;
      WalkPart(part, mem, off, Peek(part, start + off).value, chain[1..]);
    }
  }

  lemma StringPart(part: Memory, mem: Memory, abi: Abi, addr: nat, s: string)
    requires Part(part, mem) && HoldsString(part, abi, addr, s)
    ensures HoldsString(mem, abi, addr, s)
  {
    if !abi.compactStrings {
      var b :| StringAt(part, addr + abi.byteData, b) && s == AsString(b);
      assert StringAt(mem, addr + abi.byteData, b);
    } else if NoUnits(part, addr) && s == "" {
      ReadPart(part, mem, addr, SIZEOF_ASCII);
    } else {
      var text :| Stored(part, addr, text) && s == AsString(Utf8.Encode(text));
      ReadPart(part, mem, addr, SIZEOF_ASCII);
      var header := Read(part, addr, SIZEOF_ASCII);
      ReadPart(part, mem, addr + DataOffset(header), RoundUp(Kind(header) * |text|));
      assert Stored(mem, addr, text);
    }
  }

  lemma TablePart(part: Memory, mem: Memory, abi: Abi, code: nat)
    requires Part(part, mem) && TableOf(part, abi, code).Ok?
    ensures TableOf(mem, abi, code) == TableOf(part, abi, code)
  {
    hide Peek, Part, RoundUp;
    var lnotab := Peek(part, code + abi.coLnotab).value;
    PeekPart(part, mem, code + abi.coLnotab);
    PeekPart(part, mem, lnotab + abi.obSize);
    PeekPart(part, mem, code + abi.coFirstlineno);
    var size := Masked(Peek(part, lnotab + abi.obSize).value);
    ReadPart(part, mem, lnotab + abi.byteData, RoundUp(size));
    ReadPart(part, mem, lnotab + abi.byteData, size);
  }

  lemma LinePart(part: Memory, mem: Memory, abi: Abi, frame: nat, code: nat, line: nat)
    requires Part(part, mem) && HoldsLine(part, abi, frame, code, line)
    ensures HoldsLine(mem, abi, frame, code, line)
  {
    hide Peek, Part, TableOf, LineInEffect;
    PeekPart(part, mem, frame + abi.fTrace);
    if Peek(part, frame + abi.fTrace).value != 0 {
      PeekPart(part, mem, frame + abi.fLineno);
    } else {
      PeekPart(part, mem, frame + abi.fLasti);
      TablePart(part, mem, abi, code);
    }
  }

  lemma FramePart(part: Memory, mem: Memory, abi: Abi, addr: nat, frame: Frame)
    requires Part(part, mem) && FrameAt(part, abi, addr, frame)
    ensures FrameAt(mem, abi, addr, frame)
  {
    hide Peek, Part, HoldsString, HoldsLine;
    PeekPart(part, mem, addr + abi.fCode);
    var code := Peek(part, addr + abi.fCode).value;
    PeekPart(part, mem, code + abi.coFilename);
    PeekPart(part, mem, code + abi.coName);
    StringPart(part, mem, abi, Peek(part, code + abi.coFilename).value, frame.file);
    StringPart(part, mem, abi, Peek(part, code + abi.coName).value, frame.name);
    LinePart(part, mem, abi, addr, code, frame.line);
  }

  lemma CellPart(part: Memory, mem: Memory, abi: Abi, tstate: nat, cell: Cell)
    requires Part(part, mem) && CellAt(part, abi, tstate, cell)
    ensures CellAt(mem, abi, tstate, cell)
  {
    hide Peek, Part, FrameAt, Walk;
    PeekPart(part, mem, tstate + abi.tsThreadId);
    PeekPart(part, mem, tstate + abi.tsFrame);
    var start := Peek(part, tstate + abi.tsFrame).value;
    var chain :| Walk(part, abi.fBack, start, chain) && FramesAt(part, abi, chain, cell.stack);
    WalkPart(part, mem, abi.fBack, start, chain);
    forall i | 0 <= i < |chain| ensures FrameAt(mem, abi, chain[i], cell.stack[i]) {
      FramePart(part, mem, abi, chain[i], cell.stack[i]);
    }
    assert FramesAt(mem, abi, chain, cell.stack);
  }
}
