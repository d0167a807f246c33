/** co_lnotab: pairs of bytes (address delta, line delta). The scan of GetLine
    against the meaning of the table, and against the tables that
    Objects/lnotab_notes.txt of CPython builds from larger deltas. */
module LineTable {
  import opened RemoteMemory

  const INT_MAX: int := 0x7fff_ffff

  /** The address at which the k-th pair takes effect. */
  function AddrAt(table: seq<Byte>, k: nat): nat
    requires 2 * k <= |table|
  {
    if k == 0 then 0 else AddrAt(table, k - 1) + table[2 * (k - 1)]
  }

  /** The line from that address on. */
  function LineAt(table: seq<Byte>, first: nat, k: nat): nat
    requires 2 * k <= |table|
  {
    if k == 0 then first else LineAt(table, first, k - 1) + table[2 * (k - 1) + 1]
  }

  /** A table is read in pairs: an address delta and then a line delta. */
  lemma PairsAdd(table: seq<Byte>, first: nat, k: nat)
    ensures AddrAt(table, 0) == 0 && LineAt(table, first, 0) == first
    ensures 2 * k + 2 <= |table| ==>
      && AddrAt(table, k + 1) == AddrAt(table, k) + table[2 * k]
      && LineAt(table, first, k + 1) == LineAt(table, first, k) + table[2 * k + 1]
  {
  }

  /** k is the last pair that has taken effect at address lasti. */
  predicate InEffect(table: seq<Byte>, lasti: nat, k: nat) {
    && 2 * k <= |table|
    && AddrAt(table, k) <= lasti
    && forall j :: k < j <= |table| / 2 ==> lasti < AddrAt(table, j)
  }

  ghost predicate LineInEffect(table: seq<Byte>, first: nat, lasti: nat, line: nat) {
    exists k: nat :: InEffect(table, lasti, k) && line == LineAt(table, first, k)
  }

  /** The loop of GetLine, with the pointer p as an index. */
  method ScanTable(table: seq<Byte>, first: nat, lasti: nat) returns (line: nat)
    ensures LineInEffect(table, first, lasti, line)
    ensures exists k: nat ::
      && 2 * k <= |table| && line == LineAt(table, first, k) && AddrAt(table, k) <= lasti
      && forall j :: k < j <= |table| / 2 ==> lasti < AddrAt(table, j)
  {
    var size := |table| / 2;
    line := first;
    var p, addr := 0, 0;
    ghost var k: nat := 0;
    while true
      invariant p == 2 * k && k + size == |table| / 2 && size >= 0
      invariant addr == AddrAt(table, k) <= lasti && line == LineAt(table, first, k)
      decreases size
    {
      size := size - 1;
      if size < 0 {
        break;
      }
      addr, p := addr + table[p], p + 1;
      if addr > lasti {
        AddrGrows(table, k + 1);
        break;
      }
      line, p := line + table[p], p + 1;
      k := k + 1;
    }
    assert InEffect(table, lasti, k);
  }

  lemma {:induction false} AddrMonotone(table: seq<Byte>, j: nat, k: nat)
    requires j <= k && 2 * k <= |table|
    ensures AddrAt(table, j) <= AddrAt(table, k)
  {
    if j < k {
      AddrMonotone(table, j, k - 1);
    }
  }

  lemma AddrGrows(table: seq<Byte>, k: nat)
    requires 2 * k <= |table|
    ensures forall j :: k <= j <= |table| / 2 ==> AddrAt(table, k) <= AddrAt(table, j)
  {
    forall j | k <= j <= |table| / 2 ensures AddrAt(table, k) <= AddrAt(table, j) {
      AddrMonotone(table, k, j);
    }
  }

  lemma {:induction false} LineMonotone(table: seq<Byte>, first: nat, j: nat, k: nat)
    requires j <= k && 2 * k <= |table|
    ensures LineAt(table, first, j) <= LineAt(table, first, k)
  {
    if j < k {
      LineMonotone(table, first, j, k - 1);
    }
  }

  /** At each address exactly one line is in effect. */
  lemma OneLine(table: seq<Byte>, first: nat, lasti: nat, line: nat)
    requires LineInEffect(table, first, lasti, line)
    ensures forall line': nat :: LineInEffect(table, first, lasti, line') <==> line' == line
  {
    var k: nat :| InEffect(table, lasti, k) && line == LineAt(table, first, k);
    forall j: nat | InEffect(table, lasti, j) ensures j == k {
      assert AddrAt(table, j) <= lasti && AddrAt(table, k) <= lasti;
    }
  }

  /** Lines never decrease with the address. */
  lemma ScanMonotone(table: seq<Byte>, first: nat, lasti: nat, lasti': nat, line: nat, line': nat)
    requires lasti <= lasti'
    requires LineInEffect(table, first, lasti, line) && LineInEffect(table, first, lasti', line')
    ensures line <= line'
  {
    var k: nat :| InEffect(table, lasti, k) && line == LineAt(table, first, k);
    var k': nat :| InEffect(table, lasti', k') && line' == LineAt(table, first, k');
    assert AddrAt(table, k) <= lasti';
    LineMonotone(table, first, k, k');
  }

  /** Every value that the scan's int variables take fits: addr goes past lasti
      by at most one byte, and line never goes past the result. */
  lemma ScanFits(table: seq<Byte>, first: nat, lasti: nat, k: nat, j: nat)
    requires InEffect(table, lasti, k) && lasti <= INT_MAX - 255 && LineAt(table, first, k) <= INT_MAX
    requires j <= k + 1 && 2 * j <= |table|
    ensures AddrAt(table, j) <= INT_MAX
    ensures j <= k ==> LineAt(table, first, j) <= INT_MAX
  {
    if j <= k {
      AddrMonotone(table, j, k);
      LineMonotone(table, first, j, k);
    }
  }

  /** One source-level step of the table: code advances by addr, lines by line. */
  datatype Delta = Delta(addr: nat, line: nat)

  /** The pairs for one step: address deltas over 255 become (255, 0) pairs, and
      then line deltas over 255 become (_, 255) pairs. */
  function Split(d: Delta): seq<Byte>
    decreases d.addr + d.line
  {
    if d.addr > 255 then [255, 0] + Split(Delta(d.addr - 255, d.line))
    else if d.line > 255 then [d.addr, 255] + Split(Delta(0, d.line - 255))
    else [d.addr, d.line]
  }

  /** The j-th pair that Split writes: there are a full pairs for the address, the last
      address byte with the first line byte, and l more pairs for the line. */
  lemma {:induction false} SplitShape(d: Delta, a: nat, l: nat, j: nat)
    requires if d.addr == 0 then a == 0 else 255 * a < d.addr <= 255 * a + 255
    requires if d.line == 0 then l == 0 else 255 * l < d.line <= 255 * l + 255
    requires j <= a + l
    ensures |Split(d)| == 2 * (a + l + 1)
    ensures Split(d)[2 * j] == (if j < a then 255 else if j == a then d.addr - 255 * a else 0)
    ensures Split(d)[2 * j + 1] == (if j < a then 0 else if j < a + l then 255 else d.line - 255 * l)
    decreases a + l
  {
    hide Split;
    SplitOnce(d);
    var i := if j > 0 then j - 1 else 0;
    if a > 0 {
      var rest := Delta(d.addr - 255, d.line);
      SplitShape(rest, a - 1, l, i);
      AfterPair([255, 0], Split(rest), j);
    } else if l > 0 {
      var rest := Delta(0, d.line - 255);
      SplitShape(rest, 0, l - 1, i);
      AfterPair([d.addr, 255], Split(rest), j);
    }
  }

  lemma SplitOnce(d: Delta)
    ensures d.addr > 255 ==> Split(d) == [255, 0] + Split(Delta(d.addr - 255, d.line))
    ensures d.addr <= 255 && d.line > 255 ==> Split(d) == [d.addr, 255] + Split(Delta(0, d.line - 255))
    ensures d.addr <= 255 && d.line <= 255 ==> Split(d) == [d.addr, d.line]
  {
  }

  lemma AfterPair(first: seq<Byte>, rest: seq<Byte>, j: nat)
    requires |first| == 2 && 2 * j + 1 < |rest| + 2
    ensures j == 0 ==> (first + rest)[2 * j] == first[0] && (first + rest)[2 * j + 1] == first[1]
    ensures j > 0 ==> (first + rest)[2 * j] == rest[2 * (j - 1)] && (first + rest)[2 * j + 1] == rest[2 * (j - 1) + 1]
  {
  }

  function Assemble(steps: seq<Delta>): seq<Byte> {
    if steps == [] then [] else Split(steps[0]) + Assemble(steps[1..])
  }

  /** The line at lasti according to the unsplit steps. */
  function LineOf(steps: seq<Delta>, first: nat, lasti: int): nat {
    if steps == [] || lasti < steps[0].addr then first
    else LineOf(steps[1..], first + steps[0].line, lasti - steps[0].addr)
  }

  /** The steps whose pairs are single are those of a raw table. */
  function Pairs(table: seq<Byte>): seq<Delta> {
    if |table| < 2 then [] else [Delta(table[0], table[1])] + Pairs(table[2..])
  }

  /** The scan is LineOf on the pairs it sees. */
  lemma {:induction false} ScanIsLineOf(table: seq<Byte>, first: nat, lasti: nat, k: nat)
    requires InEffect(table, lasti, k)
    ensures LineAt(table, first, k) == LineOf(Pairs(table), first, lasti)
  {
    if |table| >= 2 {
      DropPair(table, first, lasti, k);
      if lasti >= table[0] {
        ScanIsLineOf(table[2..], first + table[1], lasti - table[0], k - 1);
      }
    }
  }

  lemma DropPair(table: seq<Byte>, first: nat, lasti: nat, k: nat)
    requires |table| >= 2 && InEffect(table, lasti, k)
    ensures lasti < table[0] ==> k == 0
    ensures lasti >= table[0] ==> k > 0 && InEffect(table[2..], lasti - table[0], k - 1)
    ensures k > 0 ==> LineAt(table, first, k) == LineAt(table[2..], first + table[1], k - 1)
  {
    assert AddrAt(table, 1) == table[0];
    AddrGrows(table, 1);
    if k > 0 {
      Shift(table, first, k - 1);
      forall j | k - 1 < j <= |table[2..]| / 2 ensures lasti - table[0] < AddrAt(table[2..], j) {
        Shift(table, first, j);
      }
    }
  }

  lemma {:induction false} Shift(table: seq<Byte>, first: nat, j: nat)
    requires 2 * (j + 1) <= |table|
    ensures AddrAt(table, j + 1) == table[0] + AddrAt(table[2..], j)
    ensures LineAt(table, first, j + 1) == LineAt(table[2..], first + table[1], j)
  {
    if j > 0 {
      Shift(table, first, j - 1);
    }
  }

  lemma {:induction false} SplitIsOneStep(d: Delta, rest: seq<Byte>, first: nat, lasti: int)
    ensures LineOf(Pairs(Split(d) + rest), first, lasti) == LineOf([d] + Pairs(rest), first, lasti)
    decreases d.addr + d.line
  {
    var b := Split(d) + rest;
    if d.addr > 255 {
      var d' := Delta(d.addr - 255, d.line);
      assert b[2..] == Split(d') + rest;
      SplitIsOneStep(d', rest, first, lasti - 255);
    } else if d.line > 255 {
      var d' := Delta(0, d.line - 255);
      assert b[2..] == Split(d') + rest;
      SplitIsOneStep(d', rest, first + 255, lasti - d.addr);
    } else {
      assert b[2..] == rest;
    }
  }

  /** Splitting the deltas over 255 does not change any line. */
  lemma {:induction false} AssembledLines(steps: seq<Delta>, first: nat, lasti: int)
    ensures LineOf(Pairs(Assemble(steps)), first, lasti) == LineOf(steps, first, lasti)
  {
    if steps != [] {
      var d, rest := steps[0], Assemble(steps[1..]);
      SplitIsOneStep(d, rest, first, lasti);
      assert ([d] + Pairs(rest))[1..] == Pairs(rest);
      if d.addr <= lasti {
        AssembledLines(steps[1..], first + d.line, lasti - d.addr);
      }
    }
  }

  /** The decoder undoes the encoder: scanning an assembled table gives the line
      of the unsplit steps. */
  lemma ScanAssembled(steps: seq<Delta>, first: nat, lasti: nat, line: nat)
    requires LineInEffect(Assemble(steps), first, lasti, line)
    ensures line == LineOf(steps, first, lasti)
  {
    var k: nat :| InEffect(Assemble(steps), lasti, k) && line == LineAt(Assemble(steps), first, k);
    ScanIsLineOf(Assemble(steps), first, lasti, k);
    AssembledLines(steps, first, lasti);
  }
}
