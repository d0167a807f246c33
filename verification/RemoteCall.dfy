/** Calling a function inside the stopped target: AllocPage, PtraceCallFunction
    and PtraceCleanup, run against a small machine with sibling threads.

    The siblings may act before every ptrace request. What they do is the
    schedule, an arbitrary input, so a property of all runs is a property for
    every schedule. Beside the real memory `mem` the machine keeps two ghost
    layers: `genuine`, the memory as the target's own threads have written it,
    and `page`, the memory mapped on behalf of the profiler. The machine is
    clean when mem is exactly these two layers. */
module RemoteCall {
  import opened RemoteMemory

  type Tid = nat

  const PAGE: nat := 4096
  const TWO64: nat := 0x1_0000_0000_0000_0000
  const MAP_FAILED: nat := TWO64 - 1
  /** Above every address of a process; page addresses are far below the values
      that stand for errors. */
  const USER_TOP: nat := 0x8000_0000_0000
  const SYS_MMAP: nat := 9
  const SYS_MUNMAP: nat := 11
  const EAGAIN: nat := 11
  /** PROT_READ | PROT_WRITE | PROT_EXEC and MAP_PRIVATE | MAP_ANONYMOUS. */
  const PROT_RWX: nat := 7
  const MAP_ANON: nat := 0x22

  /** The words that are poked: SYSCALL, and CALL rax followed by TRAP. */
  const SYSCALL: seq<Byte> := [0x0f, 0x05, 0, 0, 0, 0, 0, 0]
  const TRAMPOLINE: seq<Byte> := [0xff, 0xd0, 0xcc, 0, 0, 0, 0, 0]

  /** user_regs_struct; others stands for the registers not named. */
  datatype Regs = Regs(rax: nat, rdi: nat, rsi: nat, rdx: nat, r10: nat, r8: nat, r9: nat,
                       rsp: nat, rip: nat, rcx: nat, r11: nat, others: nat)

  datatype ThreadState = Running | Stopped

  /** One step of a sibling: the bytes it stores. */
  datatype Step = Step(tid: Tid, writes: Memory)

  /** What the kernel puts in rax: the address of a new page or a status word. */
  datatype Answer = Page(addr: nat) | Status(rax: nat)

  /** What a called function does: the registers at its return, and its stores. */
  datatype Effect = Effect(regs: Regs, writes: Memory)

  datatype Stop = Attached(tid: Tid) | Detached(tid: Tid)

  datatype MapEvent = MappedPage(addr: nat) | UnmappedPage(addr: nat)

  /** A point of a run. After a request: no sibling can run unless memory is
      clean. At a step of a sibling: it sees clean memory. */
  datatype Moment = Request(ok: bool) | Ran(step: Step, ok: bool)

  predicate Sound(trail: seq<Moment>) {
    forall i :: 0 <= i < |trail| ==> trail[i].ok
  }

  /** How a remote call ends: normally with rax, or by a PtraceException. */
  datatype Outcome = Returned(rax: nat) | Thrown

  // --- Memory words ---

  predicate Between(lo: nat, a: nat, hi: nat) { lo <= a < hi }

  function Range(lo: nat, hi: nat): set<nat> {
    set a: nat | a < hi && Between(lo, a, hi)
  }

  lemma RangeMeans(lo: nat, hi: nat)
    ensures forall a: nat :: a in Range(lo, hi) <==> lo <= a < hi
  {
    forall a: nat | lo <= a < hi ensures a in Range(lo, hi) {
      assert Between(lo, a, hi);
    }
  }

  function ZeroPage(addr: nat): (page: Memory)
    ensures page.Keys == Range(addr, addr + PAGE)
  {
    var range := Range(addr, addr + PAGE);
    map a | a in range :: 0
  }

  /** Stores b at addr, where memory is mapped. */
  function Write(mem: Memory, addr: nat, b: seq<Byte>): (w: Memory)
    ensures w.Keys == mem.Keys
  {
    map a | a in mem :: if addr <= a < addr + |b| then b[a - addr] else mem[a]
  }

  /** A word that is patched and then written back is as before. */
  lemma WriteBack(mem: Memory, addr: nat, patch: seq<Byte>)
    requires |patch| == WORD && Mapped(mem, addr, WORD)
    ensures Write(Write(mem, addr, patch), addr, Read(mem, addr, WORD)) == mem
  {
  }

  /** The same with a page mapped between the two writes. */
  lemma WriteBackUnder(mem: Memory, addr: nat, patch: seq<Byte>, page: Memory)
    requires |patch| == WORD && Mapped(mem, addr, WORD) && page.Keys !! mem.Keys
    ensures Write(Write(mem, addr, patch) + page, addr, Read(mem, addr, WORD)) == mem + page
  {
    assert forall a :: addr <= a < addr + WORD ==> a in mem;
  }

  /** The same with a page unmapped between the two writes. */
  lemma WriteBackWithout(mem: Memory, addr: nat, patch: seq<Byte>, page: set<nat>)
    requires |patch| == WORD && Mapped(mem, addr, WORD)
    ensures Write(Write(mem, addr, patch) - page, addr, Read(mem, addr, WORD)) == mem - page
  {
  }

  lemma ReadWrite(mem: Memory, addr: nat, b: seq<Byte>, n: nat)
    requires n <= |b| && Mapped(mem, addr, |b|)
    ensures Mapped(Write(mem, addr, b), addr, n) && Read(Write(mem, addr, b), addr, n) == b[..n]
  {
  }

  // --- The siblings' schedule ---

  function SlotWrites(slot: seq<Step>): set<nat> {
    if slot == [] then {} else slot[0].writes.Keys + SlotWrites(slot[1..])
  }

  /** The addresses that the siblings may still write. */
  function SiblingWrites(schedule: seq<seq<Step>>): set<nat> {
    if schedule == [] then {} else SlotWrites(schedule[0]) + SiblingWrites(schedule[1..])
  }

  function FirstSlot(schedule: seq<seq<Step>>): seq<Step> {
    if schedule == [] then [] else schedule[0]
  }

  function LaterSlots(schedule: seq<seq<Step>>): seq<seq<Step>> {
    if schedule == [] then [] else schedule[1..]
  }

  /** The target's own memory after a slot, in which only running siblings act. */
  function SlotEffect(genuine: Memory, slot: seq<Step>, state: map<Tid, ThreadState>): Memory
    decreases |slot|
  {
    if slot == [] then genuine
    else
      var runs := slot[0].tid in state && state[slot[0].tid] == Running;
      SlotEffect(if runs then genuine + slot[0].writes else genuine, slot[1..], state)
  }

  /** The same after the siblings have been paused one by one: there is a slot
      before each pause. */
  function PauseEffect(genuine: Memory, schedule: seq<seq<Step>>, state: map<Tid, ThreadState>,
                       threads: seq<Tid>, pid: Tid): Memory
    decreases |threads|
  {
    if threads == [] then genuine
    else if threads[0] == pid then PauseEffect(genuine, schedule, state, threads[1..], pid)
    else
      PauseEffect(SlotEffect(genuine, FirstSlot(schedule), state), LaterSlots(schedule),
                  state[threads[0] := Stopped], threads[1..], pid)
  }

  /** The steps of a slot act in order, those of running siblings only. */
  lemma SlotMeans(genuine: Memory, step: Step, rest: seq<Step>, state: map<Tid, ThreadState>)
    ensures SlotEffect(genuine, [], state) == genuine
    ensures step.tid in state && state[step.tid] == Running ==>
      SlotEffect(genuine, [step] + rest, state) == SlotEffect(genuine + step.writes, rest, state)
    ensures step.tid !in state || state[step.tid] == Stopped ==>
      SlotEffect(genuine, [step] + rest, state) == SlotEffect(genuine, rest, state)
  {
    assert ([step] + rest)[1..] == rest;
  }

  predicate SameWord(g: Memory, h: Memory, addr: nat) {
    forall a :: addr <= a < addr + WORD ==> a in g && a in h && g[a] == h[a]
  }

  /** The word at rip is the same in the slot in which it is read and once the
      siblings are paused. */
  predicate WordKept(genuine: Memory, schedule: seq<seq<Step>>, state: map<Tid, ThreadState>,
                     threads: seq<Tid>, pid: Tid, rip: nat) {
    var atRead := SlotEffect(genuine, FirstSlot(schedule), state);
    SameWord(atRead, PauseEffect(atRead, LaterSlots(schedule), state, threads, pid), rip)
  }

  /** The condition of PtraceCleanup: the first slot passes before its read. */
  predicate CodeUntouched(s: Snapshot, state: map<Tid, ThreadState>, threads: seq<Tid>, pid: Tid, rip: nat) {
    WordKept(SlotEffect(s.genuine, FirstSlot(s.schedule), state), LaterSlots(s.schedule), state, threads, pid, rip)
  }

  function Pauses(threads: seq<Tid>, pid: Tid): seq<Stop> {
    if threads == [] then []
    else (if threads[0] != pid then [Attached(threads[0])] else []) + Pauses(threads[1..], pid)
  }

  function Resumes(threads: seq<Tid>, pid: Tid): seq<Stop> {
    if threads == [] then []
    else (if threads[0] != pid then [Detached(threads[0])] else []) + Resumes(threads[1..], pid)
  }

  // --- What the siblings did ---

  /** The steps of siblings in a trail. */
  function Steps(trail: seq<Moment>): seq<Step> {
    if trail == [] then [] else StepIn(trail[0]) + Steps(trail[1..])
  }

  function StepIn(m: Moment): seq<Step> { if m.Ran? then [m.step] else [] }

  /** The steps that a longer trail has more. */
  function Since(trail: seq<Moment>, trail': seq<Moment>): seq<Step> {
    if trail <= trail' then Steps(trail'[|trail|..]) else []
  }

  /** A byte after the stores of these steps. */
  function ByteAfter(b: Byte, steps: seq<Step>, addr: nat): Byte
    decreases |steps|
  {
    if steps == [] then b
    else ByteAfter(if addr in steps[0].writes then steps[0].writes[addr] else b, steps[1..], addr)
  }

  /** Every step of a schedule, in order. */
  function Flat(schedule: seq<seq<Step>>): seq<Step> {
    if schedule == [] then [] else schedule[0] + Flat(schedule[1..])
  }

  /** a is b with some steps left out. */
  predicate Subseq(a: seq<Step>, b: seq<Step>)
    decreases |b|
  {
    a == [] || (b != [] && (Subseq(a, b[1..]) || (a[0] == b[0] && Subseq(a[1..], b[1..]))))
  }

  /** after is left of before once some of its steps, in order, have been taken and
      the others in front of it passed over. */
  predicate Passed(before: seq<Step>, after: seq<Step>, steps: seq<Step>) {
    && |after| <= |before| && before[|before| - |after|..] == after
    && Subseq(steps, before[..|before| - |after|])
  }

  /** A trail and schedule that follow others: the siblings have taken steps of the
      first schedule, in its order, and no others. */
  predicate Follows(trail: seq<Moment>, schedule: seq<seq<Step>>, trail': seq<Moment>, schedule': seq<seq<Step>>) {
    trail <= trail' && Passed(Flat(schedule), Flat(schedule'), Since(trail, trail'))
  }

  /** They have taken none. */
  predicate Silent(trail: seq<Moment>, schedule: seq<seq<Step>>, trail': seq<Moment>, schedule': seq<seq<Step>>) {
    Follows(trail, schedule, trail', schedule') && Since(trail, trail') == []
  }

  lemma {:induction false} SubseqConcat(a: seq<Step>, b: seq<Step>, c: seq<Step>, d: seq<Step>)
    requires Subseq(a, b) && Subseq(c, d)
    ensures Subseq(a + c, b + d)
    decreases |b|
  {
    if b == [] {
      assert a + c == c && b + d == d;
    } else {
      assert (b + d)[1..] == b[1..] + d && (b + d)[0] == b[0];
      if Subseq(a, b[1..]) {
        SubseqConcat(a, b[1..], c, d);
      } else {
        SubseqConcat(a[1..], b[1..], c, d);
        assert (a + c)[1..] == a[1..] + c && (a + c)[0] == a[0];
      }
    }
  }

  lemma PassedTrans(x: seq<Step>, y: seq<Step>, z: seq<Step>, a: seq<Step>, b: seq<Step>)
    requires Passed(x, y, a) && Passed(y, z, b)
    ensures Passed(x, z, a + b)
  {
    SubseqConcat(a, x[..|x| - |y|], b, y[..|y| - |z|]);
    assert x[..|x| - |z|] == x[..|x| - |y|] + y[..|y| - |z|];
    assert x[|x| - |z|..] == z;
  }

  lemma {:induction false} StepsConcat(a: seq<Moment>, b: seq<Moment>)
    ensures Steps(a + b) == Steps(a) + Steps(b)
  {
    if a == [] {
      assert a + b == b;
    } else {
      assert (a + b)[0] == a[0] && (a + b)[1..] == a[1..] + b;
      StepsConcat(a[1..], b);
    }
  }

  lemma {:induction false} ByteAfterConcat(b: Byte, x: seq<Step>, y: seq<Step>, addr: nat)
    ensures ByteAfter(b, x + y, addr) == ByteAfter(ByteAfter(b, x, addr), y, addr)
    decreases |x|
  {
    if x == [] {
      assert x + y == y;
    } else {
      assert (x + y)[1..] == x[1..] + y;
      ByteAfterConcat(if addr in x[0].writes then x[0].writes[addr] else b, x[1..], y, addr);
    }
  }

  lemma SplitRest(t1: seq<Moment>, t2: seq<Moment>, t3: seq<Moment>)
    requires t1 <= t2 <= t3
    ensures t1 <= t3 && t3[|t1|..] == t2[|t1|..] + t3[|t2|..]
  {
    assert t3 == t2 + t3[|t2|..] && t2 == t1 + t2[|t1|..];
  }

  lemma FollowsTrans(t1: seq<Moment>, c1: seq<seq<Step>>, t2: seq<Moment>, c2: seq<seq<Step>>, t3: seq<Moment>, c3: seq<seq<Step>>)
    requires Follows(t1, c1, t2, c2) && Follows(t2, c2, t3, c3)
    ensures Follows(t1, c1, t3, c3) && Since(t1, t3) == Since(t1, t2) + Since(t2, t3)
  {
    hide Passed, Flat, Steps;
    SplitRest(t1, t2, t3);
    StepsConcat(t2[|t1|..], t3[|t2|..]);
    PassedTrans(Flat(c1), Flat(c2), Flat(c3), Since(t1, t2), Since(t2, t3));
  }

  lemma SilentTrans(t1: seq<Moment>, c1: seq<seq<Step>>, t2: seq<Moment>, c2: seq<seq<Step>>, t3: seq<Moment>, c3: seq<seq<Step>>)
    requires Silent(t1, c1, t2, c2) && Silent(t2, c2, t3, c3)
    ensures Silent(t1, c1, t3, c3)
  {
    hide Follows, Since;
    FollowsTrans(t1, c1, t2, c2, t3, c3);
  }

  lemma FollowsSelf(s: Snapshot)
    ensures Follows(s.trail, s.schedule, s.trail, s.schedule) && Since(s.trail, s.trail) == []
  {
    assert s.trail[|s.trail|..] == [];
  }

  /** What a longer trail adds: the steps of siblings, but not the requests. */
  lemma SinceMeans(trail: seq<Moment>, trail': seq<Moment>, step: Step, ok: bool)
    requires trail <= trail'
    ensures Since(trail, trail) == []
    ensures Since(trail, trail' + [Ran(step, ok)]) == Since(trail, trail') + [step]
    ensures Since(trail, trail' + [Request(ok)]) == Since(trail, trail')
  {
    var more := trail'[|trail|..];
    assert trail[|trail|..] == [];
    assert (trail' + [Ran(step, ok)])[|trail|..] == more + [Ran(step, ok)];
    assert (trail' + [Request(ok)])[|trail|..] == more + [Request(ok)];
    StepsConcat(more, [Ran(step, ok)]);
    StepsConcat(more, [Request(ok)]);
    StepsOfOne(Ran(step, ok));
    StepsOfOne(Request(ok));
  }

  /** A byte is what the last step that stores it has stored. */
  lemma {:induction false} ByteAfterMeans(b: Byte, steps: seq<Step>, addr: nat, j: nat)
    requires forall i :: j <= i < |steps| ==> addr !in steps[i].writes
    ensures j == 0 ==> ByteAfter(b, steps, addr) == b
    ensures 0 < j <= |steps| && addr in steps[j - 1].writes ==> ByteAfter(b, steps, addr) == steps[j - 1].writes[addr]
    decreases |steps|
  {
    if steps != [] {
      ByteAfterMeans(if addr in steps[0].writes then steps[0].writes[addr] else b, steps[1..], addr, if j > 0 then j - 1 else 0);
    }
  }

  /** Steps that are passed are steps of the schedule. */
  lemma PassedMembers(before: seq<Step>, after: seq<Step>, steps: seq<Step>)
    requires Passed(before, after, steps)
    ensures forall step :: step in steps ==> step in before
  {
    SubseqMembers(steps, before[..|before| - |after|]);
  }

  lemma {:induction false} SubseqMembers(a: seq<Step>, b: seq<Step>)
    requires Subseq(a, b)
    ensures forall step :: step in a ==> step in b
    decreases |b|
  {
    if a != [] {
      if Subseq(a, b[1..]) {
        SubseqMembers(a, b[1..]);
      } else {
        SubseqMembers(a[1..], b[1..]);
        assert a == [a[0]] + a[1..];
      }
    }
  }

  lemma {:induction false} FlatMeans(schedule: seq<seq<Step>>, step: Step)
    ensures step in Flat(schedule) <==> exists i :: 0 <= i < |schedule| && step in schedule[i]
  {
    if schedule != [] {
      FlatMeans(schedule[1..], step);
      assert forall i :: 1 <= i < |schedule| ==> schedule[i] == schedule[1..][i - 1];
      if step in schedule[0] {
        assert exists i :: 0 <= i < |schedule| && step in schedule[i];
      } else if step in Flat(schedule[1..]) {
        var i :| 0 <= i < |schedule[1..]| && step in schedule[1..][i];
        assert step in schedule[i + 1];
      }
    }
  }

  /** The first step of a slot is taken, or passed over. */
  lemma FollowsStep(s: Snapshot, slot: seq<Step>, rest: seq<seq<Step>>, ran: bool)
    requires slot != [] && s.schedule == [slot] + rest
    ensures var t := AfterStep(s, slot, rest, ran);
      && Follows(s.trail, s.schedule, t.trail, t.schedule)
      && Since(s.trail, t.trail) == if ran then [slot[0]] else []
  {
    var t := AfterStep(s, slot, rest, ran);
    assert s.schedule[1..] == rest == t.schedule[1..];
    var before, after := Flat(s.schedule), Flat(t.schedule);
    assert before == [slot[0]] + after;
    assert before[..|before| - |after|] == [slot[0]] && before[1..] == after;
    OneStep(slot[0]);
    if ran {
      assert t.trail[|s.trail|..] == [Ran(slot[0], s.Clean())];
      StepsOfOne(Ran(slot[0], s.Clean()));
    } else {
      assert t.trail[|s.trail|..] == [];
    }
  }

  lemma OneStep(step: Step)
    ensures Subseq([step], [step]) && Subseq([], [step])
  {
    assert [step][1..] == [];
    assert Subseq([], []);
  }

  lemma ByteAfterOne(b: Byte, step: Step, addr: nat)
    ensures ByteAfter(b, [step], addr) == if addr in step.writes then step.writes[addr] else b
  {
    assert [step][1..] == [];
  }

  lemma StepsOfOne(m: Moment)
    ensures Steps([m]) == StepIn(m)
  {
    assert [m][1..] == [];
  }

  /** A request in the trail changes nothing of this. */
  lemma FollowsRequest(s: Snapshot, t: Snapshot, ok: bool)
    ensures Follows(s.trail, s.schedule, t.trail, t.schedule) ==>
      && Follows(s.trail, s.schedule, t.trail + [Request(ok)], t.schedule)
      && Since(s.trail, t.trail + [Request(ok)]) == Since(s.trail, t.trail)
  {
    hide Passed, Flat;
    if s.trail <= t.trail {
      assert (t.trail + [Request(ok)])[|s.trail|..] == t.trail[|s.trail|..] + [Request(ok)];
      StepsConcat(t.trail[|s.trail|..], [Request(ok)]);
      StepsOfOne(Request(ok));
      assert Since(s.trail, t.trail) + [] == Since(s.trail, t.trail);
    }
  }

  // --- What requests that patch nothing do ---

  datatype Snapshot = Snapshot(mem: Memory, genuine: Memory, page: Memory, schedule: seq<seq<Step>>, trail: seq<Moment>)
  {
    predicate Clean() { mem == genuine + page }
  }

  /** t follows s through requests that patch nothing, with what the siblings do
      meanwhile: they take steps of the schedule, and the target's own memory is
      exactly what the stores of these steps make of it, except in own, where the
      main thread may have written. */
  ghost predicate Evolves(s: Snapshot, t: Snapshot, own: set<nat> := {}) {
    && t.mem.Keys == s.mem.Keys && t.genuine.Keys == s.genuine.Keys && t.page == s.page
    && (s.Clean() ==> t.Clean())
    && SiblingWrites(t.schedule) <= SiblingWrites(s.schedule)
    && (forall a :: a in s.genuine && a !in SiblingWrites(s.schedule) && a !in own ==> t.genuine[a] == s.genuine[a])
    && Replayed(s, t, own)
    && (Sound(t.trail) ==> Sound(s.trail))
    && (s.Clean() && Sound(s.trail) ==> Sound(t.trail))
  }

  /** The part of this about what siblings did. */
  ghost predicate Replayed(s: Snapshot, t: Snapshot, own: set<nat>)
    requires s.genuine.Keys <= t.genuine.Keys
  {
    && Follows(s.trail, s.schedule, t.trail, t.schedule)
    && forall a :: a in s.genuine && a !in own ==> t.genuine[a] == ByteAfter(s.genuine[a], Since(s.trail, t.trail), a)
  }

  /** The same while every sibling is stopped: then nothing happens at all. */
  ghost predicate Frozen(s: Snapshot, t: Snapshot) {
    && t.mem == s.mem && t.genuine == s.genuine && t.page == s.page
    && Silent(s.trail, s.schedule, t.trail, t.schedule)
    && SiblingWrites(t.schedule) <= SiblingWrites(s.schedule)
    && (Sound(s.trail) <==> Sound(t.trail))
  }

  /** One slot of the schedule separates s from t. */
  predicate Acted(s: Snapshot, t: Snapshot, state: map<Tid, ThreadState>) {
    t.genuine == SlotEffect(s.genuine, FirstSlot(s.schedule), state) && t.schedule == LaterSlots(s.schedule)
  }

  predicate Layered(s: Snapshot) {
    && s.mem.Keys == s.genuine.Keys + s.page.Keys
    && s.genuine.Keys !! s.page.Keys
    && SiblingWrites(s.schedule) <= s.genuine.Keys
    && (forall a :: a in s.mem ==> a < USER_TOP)
  }

  lemma EvolvesTrans(s: Snapshot, t: Snapshot, u: Snapshot, own: set<nat> := {})
    requires Evolves(s, t, own) && Evolves(t, u, own)
    ensures Evolves(s, u, own)
  {
    hide Follows, Since, Sound, SiblingWrites;
    FollowsTrans(s.trail, s.schedule, t.trail, t.schedule, u.trail, u.schedule);
    var x, y := Since(s.trail, t.trail), Since(t.trail, u.trail);
    forall a | a in s.genuine && a !in own ensures u.genuine[a] == ByteAfter(s.genuine[a], x + y, a) {
      ByteAfterConcat(s.genuine[a], x, y, a);
    }
  }

  lemma OwnWeaker(s: Snapshot, t: Snapshot, own: set<nat>)
    requires Evolves(s, t)
    ensures Evolves(s, t, own)
  {
    hide Follows, Since, Sound, SiblingWrites;
  }

  /** What following means: nothing but the siblings and own. */
  lemma EvolvesMeans(s: Snapshot, t: Snapshot, own: set<nat>, a: nat, step: Step)
    requires Evolves(s, t, own)
    ensures t.mem.Keys == s.mem.Keys && t.genuine.Keys == s.genuine.Keys && t.page == s.page
    ensures s.mem == s.genuine + s.page ==> t.mem == t.genuine + t.page
    ensures a in s.genuine && a !in own ==> t.genuine[a] == ByteAfter(s.genuine[a], Since(s.trail, t.trail), a)
    ensures step in Since(s.trail, t.trail) ==> exists i :: 0 <= i < |s.schedule| && step in s.schedule[i]
    ensures s.mem == s.genuine + s.page && (forall i :: 0 <= i < |s.trail| ==> s.trail[i].ok) ==>
      forall i :: 0 <= i < |t.trail| ==> t.trail[i].ok
  {
    hide Flat, Passed;
    PassedMembers(Flat(s.schedule), Flat(t.schedule), Since(s.trail, t.trail));
    FlatMeans(s.schedule, step);
  }

  lemma ScheduleShrinks(s: Snapshot, t: Snapshot, own: set<nat> := {})
    requires Evolves(s, t, own)
    ensures SiblingWrites(t.schedule) <= SiblingWrites(s.schedule)
  {
    hide Replayed;
  }

  lemma StaysUnsound(s: Snapshot, t: Snapshot)
    requires Evolves(s, t)
    ensures !Sound(s.trail) ==> !Sound(t.trail)
  {
    hide Replayed;
  }

  lemma SoundSnoc(trail: seq<Moment>, m: Moment)
    ensures Sound(trail + [m]) <==> Sound(trail) && m.ok
  {
    assert (trail + [m])[|trail|] == m;
    assert forall i :: 0 <= i < |trail| ==> (trail + [m])[i] == trail[i];
  }

  lemma FrozenFacts(s: Snapshot, t: Snapshot)
    ensures Frozen(s, t) ==>
      && t.mem == s.mem && t.genuine == s.genuine && t.page == s.page
      && (Sound(t.trail) <==> Sound(s.trail)) && SiblingWrites(t.schedule) <= SiblingWrites(s.schedule)
  {
    hide Silent, Sound, SiblingWrites;
  }

  lemma FrozenTrans(s: Snapshot, t: Snapshot, u: Snapshot)
    requires Frozen(s, t) && Frozen(t, u)
    ensures Frozen(s, u)
  {
    hide Silent, Sound, SiblingWrites;
    SilentTrans(s.trail, s.schedule, t.trail, t.schedule, u.trail, u.schedule);
  }

  /** The snapshot after the first step of a slot, taken by a running sibling or
      passed over. */
  function AfterStep(s: Snapshot, slot: seq<Step>, rest: seq<seq<Step>>, ran: bool): Snapshot
    requires slot != []
  {
    if ran then
      Snapshot(s.mem + slot[0].writes, s.genuine + slot[0].writes, s.page, [slot[1..]] + rest,
               s.trail + [Ran(slot[0], s.Clean())])
    else s.(schedule := [slot[1..]] + rest)
  }

  /** A sibling that runs stores into both, and the trail says whether it has seen
      clean memory. */
  lemma StepMeans(s: Snapshot, step: Step, slot: seq<Step>, rest: seq<seq<Step>>)
    ensures var t := AfterStep(s, [step] + slot, rest, true);
      && t.mem == s.mem + step.writes && t.genuine == s.genuine + step.writes && t.page == s.page
      && t.trail == s.trail + [Ran(step, s.mem == s.genuine + s.page)] && t.schedule == [slot] + rest
    ensures AfterStep(s, [step] + slot, rest, false) == s.(schedule := [slot] + rest)
  {
    assert ([step] + slot)[1..] == slot;
  }

  lemma StepEvolves(s: Snapshot, slot: seq<Step>, rest: seq<seq<Step>>, ran: bool)
    requires Layered(s) && slot != [] && s.schedule == [slot] + rest
    ensures Layered(AfterStep(s, slot, rest, ran)) && Evolves(s, AfterStep(s, slot, rest, ran))
    ensures !ran ==> Frozen(s, AfterStep(s, slot, rest, ran))
  {
    hide Sound, Follows, Since;
    FollowsStep(s, slot, rest, ran);
    forall a | a in s.genuine ensures ByteAfter(s.genuine[a], [slot[0]], a) == (s.genuine + slot[0].writes)[a] {
      ByteAfterOne(s.genuine[a], slot[0], a);
    }
    var t := AfterStep(s, slot, rest, ran);
    SoundSnoc(s.trail, Ran(slot[0], s.Clean()));
    assert s.schedule[1..] == rest == t.schedule[1..];
    assert SlotWrites(slot) == slot[0].writes.Keys + SlotWrites(slot[1..]);
    if ran && s.Clean() {
      assert t.mem == t.genuine + t.page;
    }
  }

  lemma Stutter(s: Snapshot)
    ensures Evolves(s, s) && Frozen(s, s)
  {
    hide Follows, Since;
    FollowsSelf(s);
  }

  lemma DropEmptySlot(s: Snapshot, t: Snapshot)
    requires Layered(t.(schedule := [[]] + t.schedule)) && Evolves(s, t.(schedule := [[]] + t.schedule))
    ensures Layered(t) && Evolves(s, t)
    ensures Frozen(s, t.(schedule := [[]] + t.schedule)) ==> Frozen(s, t)
  {
    assert ([[]] + t.schedule)[1..] == t.schedule;
  }

  /** The snapshot once a request has been recorded. */
  function Recorded(s: Snapshot, frozen: bool): Snapshot {
    s.(trail := s.trail + [Request(s.Clean() || frozen)])
  }

  lemma RecordEvolves(s: Snapshot, t: Snapshot, frozen: bool, own: set<nat> := {})
    ensures Evolves(s, t, own) ==> Evolves(s, Recorded(t, frozen), own)
    ensures Frozen(s, t) && frozen ==> Frozen(s, Recorded(t, frozen))
    ensures Layered(t) ==> Layered(Recorded(t, frozen))
  {
    hide Follows, Since, Sound;
    SoundSnoc(t.trail, Request(t.Clean() || frozen));
    FollowsRequest(s, t, t.Clean() || frozen);
  }

  /** The snapshot with another content of the profiler's page. */
  function Repaged(s: Snapshot, page: Memory): Snapshot {
    s.(mem := s.genuine + page, page := page)
  }

  lemma RepagedEvolves(s: Snapshot, t: Snapshot, page: Memory, own: set<nat> := {})
    requires Evolves(s, t, own) && Layered(t) && s.Clean()
    ensures Evolves(Repaged(s, page), Repaged(t, page), own)
    ensures page.Keys == s.page.Keys ==> Layered(Repaged(t, page))
  {
    hide Follows, Since;
  }

  /** The page is filled after it was mapped: as if it had always been so. */
  lemma ArmedEvolves(s: Snapshot, t: Snapshot, page: Memory, u: Snapshot)
    requires Evolves(Repaged(s, t.page), t) && Layered(t) && Evolves(Repaged(t, page), u)
    ensures Evolves(Repaged(s, page), u)
  {
    hide Evolves, Layered;
    RepagedEvolves(Repaged(s, t.page), t, page);
    EvolvesTrans(Repaged(s, page), Repaged(t, page), u);
  }

  lemma FrozenEvolves(s: Snapshot, t: Snapshot)
    requires Frozen(s, t) && s.Clean()
    ensures Evolves(s, t) && t.Clean()
  {
    hide Follows, Since;
  }

  lemma WriteLayer(s: Snapshot, addr: nat, word: seq<Byte>)
    requires s.Clean() && Mapped(s.page, addr, |word|)
    ensures s.(mem := Write(s.mem, addr, word), page := Write(s.page, addr, word)) == Repaged(s, Write(s.page, addr, word))
  {
    assert forall a :: addr <= a < addr + |word| ==> a in s.page;
  }

  /** Stores of the main thread into its own memory keep the machine clean. */
  lemma StackWrites(s: Snapshot, addr: nat, word: seq<Byte>, writes: Memory, own: set<nat>)
    requires Layered(s) && s.Clean() && writes.Keys <= own <= s.genuine.Keys
    requires forall a :: addr <= a < addr + |word| ==> a in own
    ensures var t := s.(mem := Write(s.mem, addr, word) + writes, genuine := Write(s.genuine, addr, word) + writes);
      Layered(t) && Evolves(s, t, own)
  {
    hide Follows, Since, Sound, SiblingWrites;
    FollowsSelf(s);
    WriteGenuine(s, addr, word);
    var m := Write(s.genuine, addr, word);
    assert (m + s.page) + writes == (m + writes) + s.page;
  }

  lemma WriteGenuine(s: Snapshot, addr: nat, word: seq<Byte>)
    requires Layered(s) && s.Clean()
    requires forall a :: addr <= a < addr + |word| ==> a in s.genuine
    ensures Write(s.mem, addr, word) == Write(s.genuine, addr, word) + s.page
  {
  }

  lemma KeysKept(s: Snapshot, t: Snapshot, own: set<nat> := {})
    requires Evolves(s, t, own)
    ensures t.mem.Keys == s.mem.Keys && t.genuine.Keys == s.genuine.Keys && t.page == s.page && (s.Clean() ==> t.Clean())
  {
    hide Replayed;
  }

  lemma OneLayer(s: Snapshot, addr: nat)
    requires Layered(s)
    ensures !(Mapped(s.page, addr, WORD) && Mapped(s.genuine, addr, WORD))
  {
    assert Mapped(s.page, addr, WORD) ==> addr in s.page;
  }

  lemma PatchFrozen(s: Snapshot, t: Snapshot, addr: nat, word: seq<Byte>)
    requires Frozen(s, t) && Layered(t)
    ensures Frozen(s.(mem := Write(s.mem, addr, word)), t.(mem := Write(t.mem, addr, word)))
    ensures Layered(t.(mem := Write(t.mem, addr, word)))
  {
    hide Silent, Sound;
  }

  /** What the kernel does to memory for a SYSCALL with the given number. */
  function AfterSyscall(s: Snapshot, number: nat, answer: Answer): Snapshot {
    if answer.Page? then s.(mem := s.mem + ZeroPage(answer.addr), page := s.page + ZeroPage(answer.addr))
    else if number == SYS_MUNMAP && answer.rax == 0 then s.(mem := s.mem - s.page.Keys, page := map[])
    else s
  }

  function Returning(regs: Regs, answer: Answer): Regs {
    regs.(rax := if answer.Page? then answer.addr else answer.rax,
          rip := regs.rip + 2, rcx := regs.rip + 2, r11 := regs.others)
  }

  function MapEvents(regs: Regs, answer: Answer): seq<MapEvent> {
    if answer.Page? then [MappedPage(answer.addr)]
    else if regs.rax == SYS_MUNMAP && answer.rax == 0 then [UnmappedPage(regs.rdi)]
    else []
  }

  /** What a system call does to memory, byte by byte. */
  lemma SyscallMeans(s: Snapshot, page: nat, status: nat, a: nat)
    requires Layered(s)
    ensures var t := AfterSyscall(s, 9, Page(page));
      && (page <= a < page + 4096 ==> a in t.mem && t.mem[a] == 0 && a in t.page && t.page[a] == 0)
      && (!(page <= a < page + 4096) ==> (a in t.mem <==> a in s.mem) && (a in s.mem ==> t.mem[a] == s.mem[a]))
      && t.genuine == s.genuine
    ensures AfterSyscall(s, 9, Status(status)) == s && (status != 0 ==> AfterSyscall(s, 11, Status(status)) == s)
    ensures var t := AfterSyscall(s, 11, Status(0));
      t.page == map[] && t.genuine == s.genuine && (a in t.mem <==> a in s.mem && a !in s.page) && (a in t.mem ==> t.mem[a] == s.mem[a])
  {
    assert Between(page, a, page + PAGE) <==> page <= a < page + 4096;
    assert a in ZeroPage(page) <==> page <= a < page + 4096;
  }

  lemma AfterMmap(regs: Regs, answer: Answer)
    requires regs.rax == SYS_MMAP
    ensures Returning(regs, answer).rax == if answer.Page? then answer.addr else answer.rax
    ensures MapEvents(regs, answer) == if answer.Page? then [MappedPage(answer.addr)] else []
  {
  }

  lemma NoPage(s: Snapshot)
    requires Layered(s) && s.page == map[]
    ensures s.mem.Keys == s.genuine.Keys
  {
  }

  lemma SyscallFrozen(s: Snapshot, t: Snapshot, number: nat, answer: Answer)
    requires Frozen(s, t) && Layered(t)
    requires answer.Page? ==> Range(answer.addr, answer.addr + PAGE) !! s.mem.Keys && answer.addr + PAGE <= USER_TOP
    ensures Frozen(AfterSyscall(s, number, answer), AfterSyscall(t, number, answer))
    ensures Layered(AfterSyscall(t, number, answer)) && t.page == s.page && t.mem == s.mem
  {
    hide Silent, Sound;
  }

  lemma Silent3(s0: Snapshot, s1: Snapshot, s2: Snapshot, s3: Snapshot)
    requires Silent(s0.trail, s0.schedule, s1.trail, s1.schedule) && Silent(s1.trail, s1.schedule, s2.trail, s2.schedule)
    requires Silent(s2.trail, s2.schedule, s3.trail, s3.schedule)
    ensures Silent(s0.trail, s0.schedule, s3.trail, s3.schedule)
  {
    hide Silent;
    SilentTrans(s0.trail, s0.schedule, s1.trail, s1.schedule, s2.trail, s2.schedule);
    SilentTrans(s0.trail, s0.schedule, s2.trail, s2.schedule, s3.trail, s3.schedule);
  }

  lemma Silent5(s0: Snapshot, s1: Snapshot, s2: Snapshot, s3: Snapshot, s4: Snapshot, s5: Snapshot)
    requires Silent(s0.trail, s0.schedule, s1.trail, s1.schedule) && Silent(s1.trail, s1.schedule, s2.trail, s2.schedule)
    requires Silent(s2.trail, s2.schedule, s3.trail, s3.schedule) && Silent(s3.trail, s3.schedule, s4.trail, s4.schedule)
    requires Silent(s4.trail, s4.schedule, s5.trail, s5.schedule)
    ensures Silent(s0.trail, s0.schedule, s5.trail, s5.schedule)
  {
    hide Silent;
    Silent3(s0, s1, s2, s3);
    Silent3(s0, s3, s4, s5);
  }

  /** Patching SYSCALL at rip, running it and writing the code back changes only
      what the kernel changes. */
  lemma CodeRestored(s0: Snapshot, s1: Snapshot, s2: Snapshot, s3: Snapshot, s4: Snapshot, s5: Snapshot,
                     rip: nat, number: nat, answer: Answer)
    requires Layered(s0) && Mapped(s0.genuine, rip, WORD)
    requires answer.Page? ==> Range(answer.addr, answer.addr + PAGE) !! s0.mem.Keys
    requires Frozen(s0, s1) && Frozen(s1.(mem := Write(s1.mem, rip, SYSCALL)), s2)
    requires Frozen(s2, s3) && Frozen(AfterSyscall(s3, number, answer), s4)
    requires Mapped(s0.mem, rip, WORD) && Frozen(s4.(mem := Write(s4.mem, rip, Read(s0.mem, rip, WORD))), s5)
    ensures Frozen(AfterSyscall(s0, number, answer), s5)
  {
    hide Write, Read, ZeroPage, Silent, SiblingWrites, Sound;
    Silent5(s0, s1, s2, s3, s4, s5);
    if answer.Page? {
      WriteBackUnder(s0.mem, rip, SYSCALL, ZeroPage(answer.addr));
    } else {
      WriteBackWithout(s0.mem, rip, SYSCALL, s0.page.Keys);
      WriteBack(s0.mem, rip, SYSCALL);
    }
  }

  /** The code that is patched in is what the single step then finds at rip. */
  lemma Patched(s0: Snapshot, s1: Snapshot, s2: Snapshot, s3: Snapshot, rip: nat)
    requires Mapped(s0.mem, rip, WORD)
    requires Frozen(s0, s1) && Frozen(s1.(mem := Write(s1.mem, rip, SYSCALL)), s2) && Frozen(s2, s3)
    ensures s3.mem.Keys == s0.mem.Keys && s3.genuine == s0.genuine && s3.page == s0.page
    ensures Mapped(s3.mem, rip, 2) && Read(s3.mem, rip, 2) == [0x0f, 0x05]
  {
    hide Silent, Sound, SiblingWrites;
    ReadWrite(s0.mem, rip, SYSCALL, 2);
    assert SYSCALL[..2] == [0x0f, 0x05];
  }

  lemma AllocEvolves(s: Snapshot, t: Snapshot, answer: Answer)
    requires s.Clean() && s.page == map[] && Layered(s) && Frozen(AfterSyscall(s, SYS_MMAP, answer), t)
    requires answer.Page? ==> Range(answer.addr, answer.addr + PAGE) !! s.mem.Keys
    ensures t.page == if answer.Page? then ZeroPage(answer.addr) else map[]
    ensures Evolves(Repaged(s, t.page), t)
  {
    hide Follows, Since;
    assert answer.Page? ==> s.page + ZeroPage(answer.addr) == ZeroPage(answer.addr);
  }

  /** Where probe points after the answer to mmap. */
  lemma ProbePage(s: Snapshot, probe: nat, answer: Answer)
    requires Layered(s) && probe == if answer.Page? then answer.addr else answer.rax
    requires s.page == if answer.Page? then ZeroPage(probe) else map[]
    ensures answer.Page? ==> Mapped(s.page, probe, WORD) && Mapped(s.mem, probe, WORD)
    ensures answer.Status? && USER_TOP <= probe ==> !Mapped(s.mem, probe, WORD)
  {
    assert answer.Page? ==> forall a :: probe <= a < probe + WORD ==> a in s.page;
    assert probe in s.mem ==> probe < USER_TOP;
    assert Mapped(s.mem, probe, WORD) ==> probe in s.mem;
  }

  lemma TrampolineWritten(page: Memory, probe: nat)
    requires Mapped(page, probe, WORD)
    ensures Mapped(Write(page, probe, TRAMPOLINE), probe, WORD)
    ensures Read(Write(page, probe, TRAMPOLINE), probe, WORD) == TRAMPOLINE
  {
    ReadWrite(page, probe, TRAMPOLINE, WORD);
  }

  /** Where the main thread goes when it continues at probe. */
  lemma ProbeTarget(s: Snapshot, probe: nat)
    requires Layered(s)
    ensures USER_TOP <= probe ==> !Mapped(s.mem, probe, 1)
    ensures Mapped(s.page, probe, WORD) ==> Mapped(s.mem, probe, 1) && Mapped(s.page, probe, 3)
    ensures Mapped(s.page, probe, WORD) && Read(s.page, probe, WORD) == TRAMPOLINE ==> Read(s.page, probe, 3) == [0xff, 0xd0, 0xcc]
  {
    assert Mapped(s.mem, probe, 1) ==> probe in s.mem;
    if Mapped(s.page, probe, WORD) {
      assert Read(s.page, probe, 3) == Read(s.page, probe, WORD)[..3];
      assert TRAMPOLINE[..3] == [0xff, 0xd0, 0xcc];
    }
  }

  lemma StillMapped(s0: Snapshot, s: Snapshot, t: Snapshot, rip: nat, number: nat, answer: Answer)
    requires Frozen(AfterSyscall(s, number, answer), t)
    requires s.genuine == s0.genuine && s.page == s0.page && s.mem.Keys == s0.mem.Keys
    requires Mapped(s0.genuine, rip, WORD) && Layered(s0)
    ensures Mapped(t.mem, rip, WORD) && Mapped(t.genuine, rip, WORD)
  {
    hide Silent, Sound;
    assert forall a :: rip <= a < rip + WORD ==> a in s0.genuine && a !in s0.page;
  }

  lemma Refused(s: Snapshot, status: nat)
    requires status != 0
    ensures AfterSyscall(s, SYS_MUNMAP, Status(status)) == s
  {
  }

  lemma WordLayer(s: Snapshot, rip: nat)
    requires Layered(s) && Mapped(s.genuine, rip, WORD)
    ensures Mapped(s.mem, rip, WORD) && !Mapped(s.page, rip, WORD)
    ensures s.Clean() ==> Read(s.mem, rip, WORD) == Read(s.genuine, rip, WORD)
  {
    assert rip in s.genuine;
    assert forall a :: rip <= a < rip + WORD ==> a in s.genuine;
  }

  /** The snapshot after munmap and a write of code at rip. */
  function Unmapped(s: Snapshot, status: nat, rip: nat, code: seq<Byte>): Snapshot {
    var t := AfterSyscall(s, SYS_MUNMAP, Status(status));
    t.(mem := Write(t.mem, rip, code))
  }

  lemma CodeReplaced(s0: Snapshot, s1: Snapshot, s2: Snapshot, s3: Snapshot, rip: nat, status: nat, code: seq<Byte>)
    requires Layered(s0) && Mapped(s0.genuine, rip, WORD) && |code| == WORD
    requires Frozen(s0.(mem := Write(s0.mem, rip, SYSCALL)), s1)
    requires Frozen(AfterSyscall(s1, SYS_MUNMAP, Status(status)), s2)
    requires Frozen(s2.(mem := Write(s2.mem, rip, code)), s3)
    ensures Frozen(Unmapped(s0, status, rip, code), s3)
  {
    hide Layered, Silent, SiblingWrites, Sound;
    Silent3(s0, s1, s2, s3);
    var m := s0.mem;
    assert Write(Write(m, rip, SYSCALL), rip, code) == Write(m, rip, code);
    assert Write(Write(m, rip, SYSCALL) - s0.page.Keys, rip, code) == Write(m - s0.page.Keys, rip, code);
  }

  /** When the written code is the word that was there, munmap is all that happened. */
  lemma CodeKept(s: Snapshot, t: Snapshot, rip: nat, status: nat)
    requires s.Clean() && Layered(s) && Mapped(s.genuine, rip, WORD)
    requires Frozen(Unmapped(s, status, rip, Read(s.genuine, rip, WORD)), t)
    ensures t.page == (if status == 0 then map[] else s.page) && t.genuine == s.genuine
    ensures t.Clean() && Evolves(Repaged(s, t.page), t)
  {
    hide Evolves, Write, Read, Layered;
    var u := AfterSyscall(s, SYS_MUNMAP, Status(status));
    UnmappedClean(s, status);
    WordLayer(u, rip);
    WriteSame(u.mem, rip);
    FrozenEvolves(u, t);
  }

  lemma UnmappedClean(s: Snapshot, status: nat)
    requires s.Clean() && Layered(s)
    ensures var u := AfterSyscall(s, SYS_MUNMAP, Status(status));
      u == Repaged(s, u.page) && Layered(u) && u.Clean() && u.page == if status == 0 then map[] else s.page
  {
    assert s.mem - s.page.Keys == s.genuine == s.genuine + map[];
  }

  lemma WriteSame(mem: Memory, addr: nat)
    requires Mapped(mem, addr, WORD)
    ensures Write(mem, addr, Read(mem, addr, WORD)) == mem
  {
  }

  /** When it is not, memory is no longer what the target wrote. */
  lemma CodeLost(s: Snapshot, t: Snapshot, rip: nat, status: nat, code: seq<Byte>)
    requires Layered(s) && Mapped(s.genuine, rip, WORD) && |code| == WORD && code != Read(s.genuine, rip, WORD)
    requires Frozen(Unmapped(s, status, rip, code), t)
    ensures t.page == (if status == 0 then map[] else s.page) && t.genuine == s.genuine
    ensures !t.Clean()
  {
    hide Silent, Sound;
    var u := AfterSyscall(s, SYS_MUNMAP, Status(status));
    var i :| 0 <= i < WORD && code[i] != Read(s.genuine, rip, WORD)[i];
    assert forall a :: rip <= a < rip + WORD ==> a in s.genuine && a !in s.page && a in u.mem;
    assert t.mem[rip + i] == code[i] && t.genuine[rip + i] != code[i] && rip + i !in t.page;
  }

  /** A word that no sibling writes is the same when it is read and when all of
      them are paused. */
  lemma QuietWord(s0: Snapshot, s: Snapshot, t: Snapshot, rip: nat)
    requires Evolves(s0, s) && Evolves(s, t) && Layered(s) && Mapped(s.genuine, rip, WORD) && s.Clean()
    ensures Mapped(t.genuine, rip, WORD)
    ensures Range(rip, rip + WORD) !! SiblingWrites(s0.schedule) ==> Read(t.genuine, rip, WORD) == Read(s.mem, rip, WORD)
    ensures t.genuine == s.genuine ==> Read(t.genuine, rip, WORD) == Read(s.mem, rip, WORD)
  {
    hide Replayed, Sound;
    WordLayer(s, rip);
    assert forall a :: rip <= a < rip + WORD ==> a in s.genuine && a in Range(rip, rip + WORD);
  }

  lemma PageNotEmpty(s: Snapshot, probe: nat)
    requires s.page.Keys == Range(probe, probe + PAGE)
    ensures s.page != map[]
  {
    assert Between(probe, probe, probe + PAGE);
    assert probe in s.page;
  }

  lemma ReadsSame(g: Memory, h: Memory, addr: nat)
    requires Mapped(g, addr, WORD) && Mapped(h, addr, WORD)
    ensures SameWord(g, h, addr) <==> Read(g, addr, WORD) == Read(h, addr, WORD)
  {
    if Read(g, addr, WORD) == Read(h, addr, WORD) {
      forall a | addr <= a < addr + WORD ensures g[a] == h[a] {
        assert Read(g, addr, WORD)[a - addr] == Read(h, addr, WORD)[a - addr];
      }
    }
  }

  /** A target with one sibling and with an armed trampoline page at 4096. The
      sibling stores to the code at 0 once, between its read and the pause. */
  function LostStore(): Snapshot {
    var code, page := ZeroPage(0), Write(ZeroPage(PAGE), PAGE, TRAMPOLINE);
    Snapshot(code + page, code, page, [[], [], [Step(2, map[0 := 1])]], [])
  }

  lemma LostStoreStart()
    ensures var s := LostStore();
      && Layered(s) && s.Clean() && Mapped(s.genuine, 0, WORD)
      && s.page.Keys == Range(PAGE, PAGE + PAGE)
      && Mapped(s.page, PAGE, WORD) && Read(s.page, PAGE, WORD) == TRAMPOLINE
  {
    hide Write;
    var s := LostStore();
    assert forall a :: 0 <= a < WORD ==> Between(0, a, PAGE) && Between(PAGE, PAGE + a, PAGE + PAGE);
    assert forall a :: PAGE <= a < PAGE + WORD ==> Between(PAGE, a, PAGE + PAGE) && a in ZeroPage(PAGE);
    ReadWrite(ZeroPage(PAGE), PAGE, TRAMPOLINE, WORD);
    assert SiblingWrites(s.schedule) == {0} by {
      assert SlotWrites([Step(2, map[0 := 1])]) == {0};
      assert SiblingWrites([[Step(2, map[0 := 1])]]) == {0};
    }
  }

  /** In this run of PtraceCleanup the store is lost. */
  lemma LostStoreExample()
    ensures !CodeUntouched(LostStore(), map[2 := Running], [1, 2], 1, 0)
  {
    var s, g, store := LostStore(), ZeroPage(0), Step(2, map[0 := 1]);
    var state := map[2 := Running];
    assert Between(0, 0, PAGE) && 0 in g;
    assert s.schedule[1..] == [[], [store]] && s.schedule[1..][1..] == [[store]];
    var h := SlotEffect(g, [store], state);
    assert [store][1..] == [] && SlotEffect(g + store.writes, [], state) == g + store.writes;
    assert h == g + store.writes && h[0] == 1 && g[0] == 0;
    assert [1, 2][1..] == [2];
    assert PauseEffect(g, [[store]], state, [1, 2], 1) == PauseEffect(g, [[store]], state, [2], 1) == h;
    assert !SameWord(g, h, 0);
  }

  lemma AtOnce()
    ensures Settles([0]) && Settled([0]) == 0
  {
  }

  /** The run itself: the page is gone, but a sibling has been released onto memory
      that is not its own. */
  method LostStoreRun() returns (t: Tracee)
    ensures fresh(t) && t.page == map[] && t.probe == 0 && !Sound(t.trail)
  {
    hide *;
    t := LostStoreTarget();
    ghost var kept := t.PtraceCleanup([0]);
  }

  method LostStoreTarget() returns (t: Tracee)
    ensures fresh(t) && t.Resting() && !t.Idle() && t.HonestMunmap([0]) && Settled([0]) == 0 && Sound(t.trail)
    ensures !CodeUntouched(t.Now(), t.state, t.threads, t.pid, t.regs.rip)
  {
    hide Evolves, SiblingWrites, Write, CodeUntouched, ZeroPage, Range, Read, Settles, Settled;
    LostStoreStart();
    LostStoreExample();
    var s := LostStore();
    t := new Tracee(1, [1, 2], 0, Regs(0, 0, 0, 0, 0, 0, 0, 0, 0, 0, 0, 0), s.genuine, s.schedule);
    t.mem, t.page, t.probe := s.mem, s.page, PAGE;
    assert t.Now() == s;
    assert t.state == map[2 := Running];
    PageNotEmpty(s, PAGE);
    AtOnce();
  }

  lemma SoundKept(s: Snapshot, t: Snapshot, own: set<nat> := {})
    requires Evolves(s, t, own) && s.Clean()
    ensures Sound(t.trail) <==> Sound(s.trail)
  {
    hide Replayed;
  }

  lemma PassStep(threads: seq<Tid>, pid: Tid)
    requires threads != []
    ensures Pauses(threads, pid) == (if threads[0] != pid then [Attached(threads[0])] else []) + Pauses(threads[1..], pid)
    ensures Resumes(threads, pid) == (if threads[0] != pid then [Detached(threads[0])] else []) + Resumes(threads[1..], pid)
  {
  }

  lemma PauseStep(s: Snapshot, state: map<Tid, ThreadState>, threads: seq<Tid>, pid: Tid)
    ensures forall g, schedule, state' :: PauseEffect(g, schedule, state', [], pid) == g
    ensures threads != [] && threads[0] == pid ==>
      PauseEffect(s.genuine, s.schedule, state, threads, pid) == PauseEffect(s.genuine, s.schedule, state, threads[1..], pid)
    ensures threads != [] && threads[0] != pid ==> forall t: Snapshot :: Acted(s, t, state) ==>
      PauseEffect(s.genuine, s.schedule, state, threads, pid)
        == PauseEffect(t.genuine, t.schedule, state[threads[0] := Stopped], threads[1..], pid)
  {
  }

  lemma PassEnd(pid: Tid)
    ensures Pauses([], pid) == [] && Resumes([], pid) == []
  {
  }

  /** With distinct thread ids, a pass over the list stops and later releases
      every sibling exactly once and the main thread never. */
  lemma {:induction false} OncePerSibling(threads: seq<Tid>, pid: Tid, tid: Tid)
    requires forall i, j :: 0 <= i < j < |threads| ==> threads[i] != threads[j]
    ensures multiset(Pauses(threads, pid))[Attached(tid)] == if tid in threads && tid != pid then 1 else 0
    ensures multiset(Resumes(threads, pid))[Detached(tid)] == if tid in threads && tid != pid then 1 else 0
  {
    if threads != [] {
      hide *;
      var p := if threads[0] != pid then [Attached(threads[0])] else [];
      var r := if threads[0] != pid then [Detached(threads[0])] else [];
      PassStep(threads, pid);
      OncePerSibling(threads[1..], pid, tid);
      assert multiset(p + Pauses(threads[1..], pid)) == multiset(p) + multiset(Pauses(threads[1..], pid));
      assert multiset(r + Resumes(threads[1..], pid)) == multiset(r) + multiset(Resumes(threads[1..], pid));
      assert tid in threads <==> tid == threads[0] || tid in threads[1..];
    }
  }

  // --- The answers to munmap ---

  /** There is an answer that is not EAGAIN. */
  predicate Settles(answers: seq<nat>) {
    answers != [] && (answers[0] == EAGAIN ==> Settles(answers[1..]))
  }

  /** The first of them. */
  function Settled(answers: seq<nat>): nat
    requires Settles(answers)
  {
    if answers[0] == EAGAIN then Settled(answers[1..]) else answers[0]
  }

  /** Any number of times 11, and then what the retries end with. */
  lemma {:induction false} SettledMeans(n: nat, last: nat, rest: seq<nat>)
    requires last != 11
    ensures Settles(seq(n, _ => 11) + [last] + rest) && Settled(seq(n, _ => 11) + [last] + rest) == last
    ensures !Settles(seq(n, _ => 11))
  {
    var tries := seq(n, _ => 11);
    var answers := tries + [last] + rest;
    if n > 0 {
      SettledMeans(n - 1, last, rest);
      assert tries[1..] == seq(n - 1, _ => 11);
      assert answers[0] == 11 && answers[1..] == tries[1..] + [last] + rest;
    } else {
      assert answers[0] == last;
    }
  }

  /** A target: one traced main thread, pid, and its siblings. */
  class Tracee {
    const pid: Tid
    const threads: seq<Tid>    // what /proc/PID/task lists
    const stackLow: nat        // the lowest address of the main thread's stack
    var regs: Regs
    var mem: Memory
    var state: map<Tid, ThreadState>
    var traced: bool
    var schedule: seq<seq<Step>>
    /** The static probe_ of the profiler. */
    var probe: nat
    ghost var genuine: Memory
    ghost var page: Memory
    ghost var stops: seq<Stop>
    ghost var maps: seq<MapEvent>
    ghost var trail: seq<Moment>

    /** A target at rest, with nothing mapped on behalf of the profiler. */
    constructor (pid: Tid, threads: seq<Tid>, stackLow: nat, regs: Regs, mem: Memory, schedule: seq<seq<Step>>)
      requires pid in threads && Mapped(mem, regs.rip, WORD)
      requires SiblingWrites(schedule) <= mem.Keys && forall a :: a in mem ==> a < USER_TOP
      ensures Resting() && Idle() && traced
      ensures this.pid == pid && this.threads == threads && this.regs == regs && this.mem == genuine == mem
      ensures this.schedule == schedule && trail == [] && stops == [] && maps == []
    {
      this.pid, this.threads, this.stackLow := pid, threads, stackLow;
      this.regs, this.mem, this.schedule := regs, mem, schedule;
      state := map t | t in threads && t != pid :: Running;
      traced, probe := true, 0;
      genuine, page, stops, maps, trail := mem, map[], [], [], [];
      new;
      assert genuine + page == mem;
    }

    ghost predicate Valid()
      reads this`mem, this`state, this`schedule, this`genuine, this`page, this`trail
    {
      && Layered(Now())
      && pid in threads
      && forall t :: t in state <==> t in threads && t != pid
    }

    ghost function Now(): Snapshot
      reads this`mem, this`schedule, this`genuine, this`page, this`trail
    {
      Snapshot(mem, genuine, page, schedule, trail)
    }

    predicate AllStopped()
      reads this`state
    {
      forall t :: t in state ==> state[t] == Stopped
    }

    predicate AllRunning()
      reads this`state
    {
      forall t :: t in state ==> state[t] == Running
    }

    /** The running siblings act. */
    method Tick()
      requires Valid()
      modifies this`mem, this`genuine, this`schedule, this`trail
      ensures Valid() && Evolves(old(Now()), Now())
      ensures AllStopped() ==> Frozen(old(Now()), Now())
      ensures Acted(old(Now()), Now(), state)
    {
      hide Evolves, Frozen, Layered;
      ghost var start := Now();
      if schedule == [] {
        Stutter(start);
        return;
      }
      var slot := schedule[0];
      Stutter(start);
      schedule := schedule[1..];
      assert [slot] + schedule == start.schedule;
      while slot != []
        invariant schedule == start.schedule[1..]
        invariant SlotEffect(genuine, slot, state) == SlotEffect(start.genuine, start.schedule[0], state)
        invariant Layered(Now().(schedule := [slot] + schedule))
        invariant Evolves(start, Now().(schedule := [slot] + schedule))
        invariant AllStopped() ==> Frozen(start, Now().(schedule := [slot] + schedule))
      {
        ghost var s := Now().(schedule := [slot] + schedule);
        var step := slot[0];
        var ran := step.tid in state && state[step.tid] == Running;
        StepEvolves(s, slot, schedule, ran);
        if ran {
          trail := trail + [Ran(step, mem == genuine + page)];
          mem := mem + step.writes;
          genuine := genuine + step.writes;
        }
        slot := slot[1..];
        ghost var t := Now().(schedule := [slot] + schedule);
        assert t == AfterStep(s, [step] + slot, schedule, ran);
        EvolvesTrans(start, s, t);
        if AllStopped() {
          FrozenTrans(start, s, t);
        }
      }
      DropEmptySlot(start, Now());
    }

    ghost method Record()
      requires Valid()
      modifies this`trail
      ensures trail == old(trail) + [Request(Now().Clean() || AllStopped())]
    {
      trail := trail + [Request(Now().Clean() || AllStopped())];
    }

    /** A request that only looks at the main thread or sets its registers. */
    method Plain()
      requires Valid()
      modifies this`mem, this`genuine, this`schedule, this`trail
      ensures Valid() && Evolves(old(Now()), Now()) && (AllStopped() ==> Frozen(old(Now()), Now()))
      ensures Acted(old(Now()), Now(), state)
    {
      hide Evolves, Frozen, Layered, SlotEffect;
      ghost var start := Now();
      Tick();
      RecordEvolves(start, Now(), AllStopped());
      Record();
    }

    // --- The ptrace requests ---

    method GetRegs() returns (r: Regs)
      requires Valid()
      modifies this`mem, this`genuine, this`schedule, this`trail
      ensures Valid() && Evolves(old(Now()), Now()) && (AllStopped() ==> Frozen(old(Now()), Now()))
      ensures r == regs && Acted(old(Now()), Now(), state)
    {
      hide Evolves, Frozen, Layered, Acted;
      Plain();
      r := regs;
    }

    method SetRegs(r: Regs)
      requires Valid()
      modifies this`mem, this`genuine, this`schedule, this`trail, this`regs
      ensures Valid() && Evolves(old(Now()), Now()) && (AllStopped() ==> Frozen(old(Now()), Now()))
      ensures regs == r
    {
      hide Evolves, Frozen, Layered;
      Plain();
      regs := r;
    }

    method PeekWord(addr: nat) returns (word: seq<Byte>)
      requires Valid() && Mapped(mem, addr, WORD)
      modifies this`mem, this`genuine, this`schedule, this`trail
      ensures Valid() && Evolves(old(Now()), Now()) && (AllStopped() ==> Frozen(old(Now()), Now()))
      ensures Mapped(mem, addr, WORD) && word == Read(mem, addr, WORD)
      ensures Acted(old(Now()), Now(), state)
    {
      hide Evolves, Frozen, Layered, Acted;
      ghost var start := Now();
      Plain();
      KeysKept(start, Now());
      word := Read(mem, addr, WORD);
    }

    /** A word is poked into the profiler's own page, or into the target's
        memory while all its siblings are stopped; elsewhere the request fails. */
    method Poke(addr: nat, word: seq<Byte>) returns (ok: bool)
      requires Valid() && |word| == WORD
      requires Mapped(mem, addr, WORD) ==>
        || (Mapped(page, addr, WORD) && Now().Clean())
        || (Mapped(genuine, addr, WORD) && AllStopped())
      modifies this`mem, this`genuine, this`schedule, this`trail, this`page
      ensures Valid() && ok == old(Mapped(mem, addr, WORD))
      ensures !ok ==> Evolves(old(Now()), Now())
      ensures ok && old(Mapped(page, addr, WORD)) ==>
        Evolves(Repaged(old(Now()), Write(old(page), addr, word)), Now())
      ensures ok && old(Mapped(genuine, addr, WORD)) ==>
        Frozen(old(Now()).(mem := Write(old(mem), addr, word)), Now())
    {
      hide Evolves, Frozen, Layered, Write, Acted;
      ghost var start := Now();
      OneLayer(start, addr);
      Tick();
      ghost var mid := Now();
      KeysKept(start, mid);
      ok := Mapped(mem, addr, WORD);
      if ok {
        if Mapped(page, addr, WORD) {
          WriteLayer(mid, addr, word);
          page := Write(page, addr, word);
          RepagedEvolves(start, mid, page);
        } else {
          PatchFrozen(start, mid, addr, word);
        }
        mem := Write(mem, addr, word);
        assert Now() == if Mapped(mid.page, addr, WORD) then Repaged(mid, page) else mid.(mem := mem);
      }
      ghost var t := Now();
      Record();
      RecordEvolves(start, t, AllStopped());
      RecordEvolves(Repaged(start, page), t, AllStopped());
      RecordEvolves(start.(mem := Write(start.mem, addr, word)), t, AllStopped());
    }

    method Attach(tid: Tid)
      requires Valid() && tid in state
      modifies this`mem, this`genuine, this`schedule, this`trail, this`state, this`stops
      ensures Valid() && Evolves(old(Now()), Now()) && (old(AllStopped()) ==> Frozen(old(Now()), Now()))
      ensures state == old(state)[tid := Stopped] && stops == old(stops) + [Attached(tid)]
      ensures Acted(old(Now()), Now(), old(state))
    {
      hide Evolves, Frozen, Layered, SlotEffect;
      ghost var start := Now();
      Tick();
      state := state[tid := Stopped];
      stops := stops + [Attached(tid)];
      RecordEvolves(start, Now(), AllStopped());
      Record();
    }

    method Detach(tid: Tid)
      requires Valid() && tid in state
      modifies this`mem, this`genuine, this`schedule, this`trail, this`state, this`stops
      ensures Valid() && Evolves(old(Now()), Now())
      ensures state == old(state)[tid := Running] && stops == old(stops) + [Detached(tid)]
      ensures old(AllStopped()) && !old(Now().Clean()) ==> !Sound(trail)
    {
      hide Evolves, Frozen, Layered, Acted, Sound;
      ghost var start := Now();
      Tick();
      FrozenFacts(start, Now());
      state := state[tid := Running];
      stops := stops + [Detached(tid)];
      assert state[tid] == Running;
      RecordEvolves(start, Now(), AllStopped());
      SoundSnoc(trail, Request(Now().Clean() || AllStopped()));
      Record();
    }

    /** A fresh page: aligned, in user space, and not mapped. */
    ghost predicate Fresh(addr: nat)
      reads this`mem
    {
      0 < addr && addr % PAGE == 0 && addr + PAGE <= USER_TOP && Range(addr, addr + PAGE) !! mem.Keys
    }

    /** PTRACE_SINGLESTEP over a SYSCALL instruction that asks for mmap or munmap. */
    method SingleStep(answer: Answer)
      requires Valid() && AllStopped()
      requires Mapped(mem, regs.rip, 2) && Read(mem, regs.rip, 2) == [0x0f, 0x05]
      requires regs.rax == 9 || regs.rax == 11
      requires regs.rax == 9 && answer.Page? ==>
        && Fresh(answer.addr) && regs.rdi == 0 && regs.rsi == 4096 && regs.rdx == 7
        && regs.r10 == 0x22 && regs.r8 == 0xffff_ffff_ffff_ffff && regs.r9 == 0
      requires regs.rax == 11 ==>
        && answer.Status?
        && (answer.rax == 0 ==> regs.rsi == 4096 && Range(regs.rdi, regs.rdi + 4096) == page.Keys)
      modifies this`mem, this`genuine, this`schedule, this`trail, this`page, this`regs, this`maps
      ensures Valid()
      ensures regs == Returning(old(regs), answer) && maps == old(maps) + MapEvents(old(regs), answer)
      ensures Frozen(AfterSyscall(old(Now()), old(regs.rax), answer), Now())
    {
      hide Evolves, Frozen, Layered, ZeroPage, Range, SiblingWrites, Sound, SlotEffect, Read, Acted, MapEvents, Returning, Write;
      ghost var start := Now();
      Tick();
      ghost var mid := Now();
      SyscallFrozen(start, mid, regs.rax, answer);
      if answer.Page? {
        mem := mem + ZeroPage(answer.addr);
        page := page + ZeroPage(answer.addr);
      } else if regs.rax == SYS_MUNMAP && answer.rax == 0 {
        mem := mem - Range(regs.rdi, regs.rdi + regs.rsi);
        page := map[];
      }
      assert Now() == AfterSyscall(mid, regs.rax, answer);
      maps := maps + MapEvents(regs, answer);
      regs := Returning(regs, answer);
      RecordEvolves(AfterSyscall(start, old(regs.rax), answer), Now(), true);
      Record();
    }

    /** The stack below sp. */
    function Stack(sp: nat): set<nat> { Range(stackLow, sp) }

    /** A function that stores only below the stack pointer of its caller. */
    ghost predicate Confined(e: Effect, sp: nat)
      reads this`genuine
    {
      stackLow + WORD <= sp && Stack(sp) <= genuine.Keys && e.writes.Keys <= Stack(sp)
    }

    lemma ConfinedMeans(e: Effect, sp: nat)
      ensures Confined(e, sp) <==>
        && stackLow + 8 <= sp && (forall a :: stackLow <= a < sp ==> a in genuine)
        && forall a :: a in e.writes ==> stackLow <= a < sp
    {
      RangeMeans(stackLow, sp);
    }

    ghost predicate AtTrampoline()
      reads this`page, this`regs
    {
      Mapped(page, regs.rip, 3) && Read(page, regs.rip, 3) == [0xff, 0xd0, 0xcc]
    }

    /** PTRACE_CONT and the wait for the next SIGTRAP. On the trampoline the main
        thread pushes the return address, runs the function in rax and traps;
        where nothing is mapped it faults instead, which ends the wait with a
        PtraceException. */
    method ContToTrap(callee: nat -> Effect) returns (ok: bool)
      requires Valid() && Now().Clean()
      requires if Mapped(mem, regs.rip, 1) then AtTrampoline() && Confined(callee(regs.rax), regs.rsp) else true
      modifies this`mem, this`genuine, this`schedule, this`trail, this`regs
      ensures Valid() && ok == old(Mapped(mem, regs.rip, 1))
      ensures Evolves(old(Now()), Now(), if ok then Stack(old(regs.rsp)) else {})
      ensures regs == if ok then callee(old(regs.rax)).regs.(rip := old(regs.rip) + 3) else old(regs)
    {
      hide Evolves, Frozen, Layered;
      ghost var start, own := Now(), Stack(regs.rsp);
      Plain();
      KeysKept(start, Now());
      ok := Mapped(mem, regs.rip, 1);
      if ok {
        ghost var mid := Now();
        OwnWeaker(start, mid, own);
        RunCallee(callee(regs.rax));
        EvolvesTrans(start, mid, Now(), own);
        mid := Now();
        Plain();
        OwnWeaker(mid, Now(), own);
        EvolvesTrans(start, mid, Now(), own);
      }
    }

    /** CALL rax, the function, and TRAP. */
    method RunCallee(e: Effect)
      requires Valid() && Now().Clean() && Confined(e, regs.rsp)
      modifies this`mem, this`genuine, this`regs
      ensures Valid() && Evolves(old(Now()), Now(), Stack(old(regs.rsp)))
      ensures regs == e.regs.(rip := old(regs.rip) + 3)
      ensures genuine == Write(old(genuine), old(regs.rsp) - WORD, ToLe(old(regs.rip) + 2, WORD)) + e.writes
    {
      hide Evolves, Write, ToLe, Frozen, Layered, Range;
      var pushed := ToLe(regs.rip + 2, WORD);
      RangeMeans(stackLow, regs.rsp);
      ghost var s := Now();
      StackWrites(s, regs.rsp - WORD, pushed, e.writes, Stack(regs.rsp));
      mem := Write(mem, regs.rsp - WORD, pushed) + e.writes;
      genuine := Write(genuine, regs.rsp - WORD, pushed) + e.writes;
      assert Now() == s.(mem := mem, genuine := genuine);
      regs := e.regs.(rip := regs.rip + 3);
    }

    // --- The protocol ---

    method PauseChildThreads()
      requires Valid()
      modifies this`mem, this`genuine, this`schedule, this`trail, this`state, this`stops
      ensures Valid() && Evolves(old(Now()), Now()) && AllStopped()
      ensures old(AllStopped()) ==> Frozen(old(Now()), Now())
      ensures stops == old(stops) + Pauses(threads, pid)
      ensures genuine == PauseEffect(old(genuine), old(schedule), old(state), threads, pid)
    {
      hide Evolves, Frozen, Layered, PauseEffect, Pauses, Acted, SlotEffect;
      ghost var start := Now();
      Stutter(start);
      PassEnd(pid);
      PauseStep(start, state, threads, pid);
      for i := 0 to |threads|
        invariant Valid() && Evolves(start, Now()) && (old(AllStopped()) ==> AllStopped() && Frozen(start, Now()))
        invariant PauseEffect(genuine, schedule, state, threads[i..], pid)
               == PauseEffect(old(genuine), old(schedule), old(state), threads, pid)
        invariant forall j :: 0 <= j < i && threads[j] != pid ==> state[threads[j]] == Stopped
        invariant stops + Pauses(threads[i..], pid) == old(stops) + Pauses(threads, pid)
      {
        assert threads[i..][1..] == threads[i + 1..];
        PassStep(threads[i..], pid);
        PauseStep(Now(), state, threads[i..], pid);
        if threads[i] != pid {
          ghost var mid := Now();
          Attach(threads[i]);
          EvolvesTrans(start, mid, Now());
          if old(AllStopped()) {
            FrozenTrans(start, mid, Now());
          }
        }
      }
    }

    method ResumeChildThreads()
      requires Valid() && AllStopped()
      modifies this`mem, this`genuine, this`schedule, this`trail, this`state, this`stops
      ensures Valid() && Evolves(old(Now()), Now()) && AllRunning()
      ensures stops == old(stops) + Resumes(threads, pid)
      ensures !old(Now().Clean()) && state != map[] ==> !Sound(trail)
    {
      hide Evolves, Frozen, Layered, Resumes;
      ghost var start := Now();
      Stutter(start);
      PassEnd(pid);
      for i := 0 to |threads|
        invariant Valid() && Evolves(start, Now())
        invariant forall j :: 0 <= j < i && threads[j] != pid ==> state[threads[j]] == Running
        invariant stops + Resumes(threads[i..], pid) == old(stops) + Resumes(threads, pid)
        invariant !start.Clean() ==> !Sound(trail) || (Now() == start && AllStopped() && forall j :: 0 <= j < i ==> threads[j] == pid)
      {
        assert threads[i..][1..] == threads[i + 1..];
        PassStep(threads[i..], pid);
        if threads[i] != pid {
          ghost var mid := Now();
          Detach(threads[i]);
          EvolvesTrans(start, mid, Now());
          StaysUnsound(mid, Now());
        }
      }
    }

    /** What the kernel may answer to mmap: a fresh page or an error. */
    ghost predicate HonestMmap(answer: Answer)
      reads this`mem
    {
      match answer
      case Page(addr) => Fresh(addr)
      case Status(rax) => TWO64 - 4095 <= rax < TWO64
    }

    /** These are an aligned page of user space in which nothing is mapped, and the
        values from -4095 to -1. */
    lemma HonestMmapMeans(addr: nat)
      ensures HonestMmap(Page(addr)) <==>
        0 < addr && addr % 4096 == 0 && addr + 4096 <= USER_TOP && forall a :: addr <= a < addr + 4096 ==> a !in mem
      ensures HonestMmap(Status(addr)) <==> 0x1_0000_0000_0000_0000 - 4095 <= addr <= 0x1_0000_0000_0000_0000 - 1
    {
      RangeMeans(addr, addr + PAGE);
    }

    /** The requests that run one system call: registers set, one step, and the
        registers read for the answer. */
    method RunSyscall(newregs: Regs, answer: Answer) returns (rax: nat)
      requires Valid() && AllStopped()
      requires Mapped(mem, newregs.rip, 2) && Read(mem, newregs.rip, 2) == [0x0f, 0x05]
      requires newregs.rax == SYS_MMAP || newregs.rax == SYS_MUNMAP
      requires newregs.rax == SYS_MMAP && answer.Page? ==>
        && Fresh(answer.addr) && newregs.rdi == 0 && newregs.rsi == PAGE && newregs.rdx == PROT_RWX
        && newregs.r10 == MAP_ANON && newregs.r8 == TWO64 - 1 && newregs.r9 == 0
      requires newregs.rax == SYS_MUNMAP ==>
        && answer.Status?
        && (answer.rax == 0 ==> newregs.rsi == PAGE && Range(newregs.rdi, newregs.rdi + PAGE) == page.Keys)
      modifies this`mem, this`genuine, this`schedule, this`trail, this`page, this`regs, this`maps
      ensures Valid() && regs == Returning(newregs, answer) && rax == regs.rax
      ensures maps == old(maps) + MapEvents(newregs, answer)
      ensures Frozen(AfterSyscall(old(Now()), newregs.rax, answer), Now())
    {
      hide Evolves, Frozen, Layered, ZeroPage, Range, SiblingWrites, Sound, Read, Acted, AfterSyscall, Returning, MapEvents;
      ghost var s0 := Now();
      SetRegs(newregs);
      ghost var s1 := Now();
      FrozenFacts(s0, s1);
      SyscallFrozen(s0, s1, newregs.rax, answer);
      SingleStep(answer);
      ghost var s2, start := Now(), AfterSyscall(s0, newregs.rax, answer);
      FrozenTrans(start, AfterSyscall(s1, newregs.rax, answer), s2);
      var after := GetRegs();
      FrozenTrans(start, s2, Now());
      rax := after.rax;
    }

    /** AllocPage changes nothing but the fresh page. */
    method AllocPage(answer: Answer) returns (result: nat)
      requires Valid() && Now().Clean() && page == map[] && AllStopped()
      requires Mapped(genuine, regs.rip, WORD) && HonestMmap(answer)
      modifies this`mem, this`genuine, this`schedule, this`trail, this`page, this`regs, this`maps
      ensures Valid() && regs == old(regs)
      ensures result == (if answer.Page? then answer.addr else answer.rax)
      ensures maps == old(maps) + if answer.Page? then [MappedPage(answer.addr)] else []
      ensures Frozen(AfterSyscall(old(Now()), SYS_MMAP, answer), Now())
    {
      hide SiblingWrites, ZeroPage, Sound, Write, Layered, Evolves, Frozen, Read, AfterSyscall, Acted, Returning, MapEvents;
      ghost var s0, rip := Now(), regs.rip;
      var oldregs := GetRegs();
      ghost var s1 := Now();
      FrozenFacts(s0, s1);
      var origCode := PeekWord(oldregs.rip);
      ghost var s2 := Now();
      FrozenFacts(s1, s2);
      FrozenTrans(s0, s1, s2);
      var _ := Poke(oldregs.rip, SYSCALL);
      ghost var s3 := Now();
      var newregs := oldregs.(rax := SYS_MMAP, rdi := 0, rsi := PAGE, rdx := PROT_RWX,
                              r10 := MAP_ANON, r8 := TWO64 - 1, r9 := 0);
      Stutter(s3);
      Patched(s0, s2, s3, s3, rip);
      result := RunSyscall(newregs, answer);
      AfterMmap(newregs, answer);
      ghost var s4 := Now();
      SetRegs(oldregs);
      ghost var s5 := Now();
      FrozenTrans(AfterSyscall(s3, SYS_MMAP, answer), s4, s5);
      StillMapped(s0, s3, s5, rip, SYS_MMAP, answer);
      var _ := Poke(oldregs.rip, origCode);
      CodeRestored(s0, s2, s3, s3, s5, Now(), rip, SYS_MMAP, answer);
    }

    /** No trampoline, a trampoline at probe, or an error from mmap in probe. */
    ghost predicate Idle()
      reads this`probe, this`page
    {
      probe == 0 && page == map[]
    }

    ghost predicate Armed()
      reads this`probe, this`page
    {
      && 0 < probe && page.Keys == Range(probe, probe + PAGE)
      && Mapped(page, probe, WORD) && Read(page, probe, WORD) == TRAMPOLINE
    }

    ghost predicate Failed()
      reads this`probe, this`page
    {
      TWO64 - 4095 <= probe < TWO64 && page == map[]
    }

    /** Between calls: clean memory, siblings running, code mapped at rip. */
    ghost predicate Resting()
      reads this
    {
      && Valid() && Now().Clean() && AllRunning() && Mapped(genuine, regs.rip, WORD)
      && (Idle() || Armed() || Failed())
    }

    /** PtraceCallFunction. Once there is a trampoline, the call returns the rax
        of the function and restores every register. The first call makes the
        trampoline, pausing and resuming each sibling once. In between, the
        target's memory changes only by its siblings and, below the saved stack
        pointer, by the function: it is as if the trampoline page had always
        been there, and no sibling ever sees patched code.

        After a failed mmap there is no trampoline but probe stays set. MAP_FAILED
        returns -1, and the next call faults and leaves the registers changed;
        any other error makes the poke of the trampoline fail. */
    method PtraceCallFunction(fn: nat, answer: Answer, callee: nat -> Effect) returns (r: Outcome)
      requires Resting() && Confined(callee(fn), regs.rsp)
      requires Idle() ==> HonestMmap(answer)
      modifies this`mem, this`genuine, this`schedule, this`trail, this`page, this`regs, this`maps, this`state, this`stops, this`probe
      ensures Valid() && Now().Clean() && AllRunning()
      ensures Evolves(Repaged(old(Now()), page), Now(), Stack(old(regs.rsp)))
      ensures old(Armed()) || (old(Idle()) && answer.Page?) ==>
        Armed() && r == Returned(callee(fn).regs.rax) && regs == old(regs)
      ensures old(Armed()) ==> probe == old(probe) && page == old(page) && maps == old(maps) && stops == old(stops)
      ensures old(Idle()) ==> stops == old(stops) + Pauses(threads, pid) + Resumes(threads, pid)
      ensures old(Idle()) && answer.Page? ==> probe == answer.addr && maps == old(maps) + [MappedPage(probe)]
      ensures old(Idle()) && answer.Status? ==>
        && Failed() && probe == answer.rax && regs == old(regs) && maps == old(maps)
        && r == if answer.rax == 0xffff_ffff_ffff_ffff then Returned(0xffff_ffff_ffff_ffff) else Thrown
      ensures old(Failed()) ==>
        r == Thrown && Failed() && probe == old(probe) && regs == old(regs).(rax := fn, rip := old(probe))
    {
      hide Evolves, Frozen, SiblingWrites, Read, Write, Layered;
      ghost var s0, own := Now(), Stack(regs.rsp);
      if probe == 0 {
        var armed := Arm(answer);
        KeysKept(Repaged(s0, page), Now());
        OwnWeaker(Repaged(s0, page), Now(), own);
        if armed == Thrown {
          return Thrown;
        } else if probe == MAP_FAILED {
          return Returned(MAP_FAILED);
        }
      } else {
        Stutter(s0);
        OwnWeaker(s0, s0, own);
      }
      ghost var s1 := Now();
      r := CallThrough(fn, callee);
      EvolvesTrans(Repaged(s0, page), s1, Now(), own);
    }

    /** The second part of PtraceCallFunction: the call through probe. */
    method CallThrough(fn: nat, callee: nat -> Effect) returns (r: Outcome)
      requires Valid() && Now().Clean() && (Armed() || Failed()) && Confined(callee(fn), regs.rsp)
      modifies this`mem, this`genuine, this`schedule, this`trail, this`regs
      ensures Valid() && Now().Clean() && Evolves(old(Now()), Now(), Stack(old(regs.rsp)))
      ensures Armed() ==> r == Returned(callee(fn).regs.rax) && regs == old(regs)
      ensures Failed() ==> r == Thrown && regs == old(regs).(rax := fn, rip := probe)
    {
      hide Evolves, Frozen, SiblingWrites, Read, Write, Layered;
      ghost var s0, own := Now(), Stack(regs.rsp);
      var oldregs := GetRegs();
      ghost var s1 := Now();
      var newregs := oldregs.(rax := fn, rip := probe);
      SetRegs(newregs);
      ghost var s2 := Now();
      EvolvesTrans(s0, s1, s2);
      OwnWeaker(s0, s2, own);
      KeysKept(s0, s2);
      ProbeTarget(s2, probe);
      var ok := ContToTrap(callee);
      ghost var s3 := Now();
      if !ok {
        OwnWeaker(s2, s3, own);
        EvolvesTrans(s0, s2, s3, own);
        KeysKept(s2, s3);
        return Thrown;
      }
      EvolvesTrans(s0, s2, s3, own);
      var after := GetRegs();
      ghost var s4 := Now();
      SetRegs(oldregs);
      EvolvesTrans(s3, s4, Now());
      OwnWeaker(s3, Now(), own);
      EvolvesTrans(s0, s3, Now(), own);
      KeysKept(s0, Now(), own);
      r := Returned(after.rax);
    }

    /** The first part of PtraceCallFunction, when there is no trampoline yet. */
    method Arm(answer: Answer) returns (r: Outcome)
      requires Valid() && Now().Clean() && AllRunning() && Mapped(genuine, regs.rip, WORD) && Idle()
      requires HonestMmap(answer)
      modifies this`mem, this`genuine, this`schedule, this`trail, this`page, this`regs, this`maps, this`state, this`stops, this`probe
      ensures Valid() && AllRunning() && regs == old(regs)
      ensures Evolves(Repaged(old(Now()), page), Now())
      ensures stops == old(stops) + Pauses(threads, pid) + Resumes(threads, pid)
      ensures answer.Page? ==> Armed() && probe == answer.addr && maps == old(maps) + [MappedPage(probe)] && r == Returned(0)
      ensures answer.Status? ==>
        && Failed() && probe == answer.rax && maps == old(maps)
        && r == if answer.rax == MAP_FAILED then Returned(MAP_FAILED) else Thrown
    {
      hide Evolves, Frozen, SiblingWrites, Write, Sound, ZeroPage, Layered, Read, Range, Pauses, Resumes, Acted;
      ghost var s0 := Now();
      probe := MapTrampoline(answer);
      ghost var s1 := Now();
      if probe == MAP_FAILED {
        return Returned(MAP_FAILED);
      }
      KeysKept(Repaged(s0, page), s1);
      ProbePage(s1, probe, answer);
      var ok := PokeTrampoline(probe);
      if !ok {
        EvolvesTrans(Repaged(s0, s1.page), s1, Now());
        return Thrown;
      }
      ArmedEvolves(s0, s1, page, Now());
      r := Returned(0);
    }

    /** The poke of the trampoline. */
    method PokeTrampoline(addr: nat) returns (ok: bool)
      requires Valid() && Now().Clean() && (Mapped(mem, addr, WORD) ==> Mapped(page, addr, WORD))
      modifies this`mem, this`genuine, this`schedule, this`trail, this`page
      ensures Valid() && ok == old(Mapped(mem, addr, WORD)) && page.Keys == old(page.Keys)
      ensures !ok ==> page == old(page) && Evolves(old(Now()), Now())
      ensures ok ==> Mapped(page, addr, WORD) && Read(page, addr, WORD) == TRAMPOLINE
      ensures ok ==> Evolves(Repaged(old(Now()), page), Now())
    {
      hide Evolves, Frozen, SiblingWrites, Write, Sound, Layered, Read, Acted;
      ghost var s := Now();
      ok := Poke(addr, TRAMPOLINE);
      if ok {
        KeysKept(Repaged(s, Write(s.page, addr, TRAMPOLINE)), Now());
        TrampolineWritten(s.page, addr);
      } else {
        KeysKept(s, Now());
      }
    }

    /** AllocPage with every sibling paused around it. */
    method MapTrampoline(answer: Answer) returns (result: nat)
      requires Valid() && Now().Clean() && AllRunning() && Mapped(genuine, regs.rip, WORD) && Idle()
      requires HonestMmap(answer)
      modifies this`mem, this`genuine, this`schedule, this`trail, this`page, this`regs, this`maps, this`state, this`stops
      ensures Valid() && AllRunning() && regs == old(regs)
      ensures result == (if answer.Page? then answer.addr else answer.rax)
      ensures page == if answer.Page? then ZeroPage(result) else map[]
      ensures Evolves(Repaged(old(Now()), page), Now())
      ensures stops == old(stops) + Pauses(threads, pid) + Resumes(threads, pid)
      ensures maps == old(maps) + if answer.Page? then [MappedPage(answer.addr)] else []
    {
      hide Evolves, Frozen, SiblingWrites, Write, Sound, ZeroPage, Layered;
      ghost var s0 := Now();
      PauseChildThreads();
      ghost var s1 := Now();
      KeysKept(s0, s1);
      result := AllocPage(answer);
      ghost var s2 := Now();
      AllocEvolves(s1, s2, answer);
      RepagedEvolves(s0, s1, s2.page);
      EvolvesTrans(Repaged(s0, s2.page), Repaged(s1, s2.page), s2);
      ResumeChildThreads();
      KeysKept(s2, Now());
      EvolvesTrans(Repaged(s0, s2.page), s2, Now());
    }

    // --- Cleaning up ---

    /** The kernel answers 0 only when it unmaps a page, which must be mapped. */
    ghost predicate HonestMunmap(answers: seq<nat>)
      reads this`page
    {
      Settles(answers) && (Settled(answers) == 0 ==> page != map[])
    }

    /** PtraceCleanup. Any finite run of EAGAIN is retried. The page is unmapped
        and probe cleared exactly when the answer that ends the run is 0; the
        registers are restored and each sibling is paused and resumed once.

        The code at rip is read before the siblings are paused. If one of them
        changes that word in between, its store is lost (kept is false) and some
        sibling is released onto memory that is not its own; in every other run
        memory and siblings are as if nothing had been done. */
    method PtraceCleanup(answers: seq<nat>) returns (ghost kept: bool)
      requires Resting() && HonestMunmap(answers)
      modifies this`mem, this`genuine, this`schedule, this`trail, this`page, this`regs, this`maps, this`state, this`stops, this`probe, this`traced
      ensures Valid() && AllRunning() && regs == old(regs) && !traced && genuine.Keys == old(genuine.Keys)
      ensures old(Idle()) ==> kept && stops == old(stops) && probe == 0 && page == map[] && maps == old(maps) && Now() == old(Now())
      ensures !old(Idle()) ==> stops == old(stops) + Pauses(threads, pid) + Resumes(threads, pid)
      ensures !old(Idle()) && Settled(answers) == 0 ==>
        probe == 0 && page == map[] && mem.Keys == genuine.Keys && maps == old(maps) + [UnmappedPage(old(probe))]
      ensures !old(Idle()) && Settled(answers) != 0 ==> probe == old(probe) && page == old(page) && maps == old(maps)
      ensures kept ==> Now().Clean() && Evolves(Repaged(old(Now()), page), Now())
      ensures old(Sound(trail)) ==> (Sound(trail) <==> kept)
      ensures Range(regs.rip, regs.rip + WORD) !! SiblingWrites(old(schedule)) ==> kept
      ensures !old(Idle()) ==> (kept <==> CodeUntouched(old(Now()), old(state), threads, pid, regs.rip))
    {
      hide Evolves, Sound, SiblingWrites, Layered, Read, SlotEffect, CodeUntouched;
      kept := true;
      if probe != 0 {
        kept := Unmap(answers);
        if page == map[] {
          NoPage(Now());
        }
      } else {
        Stutter(Now());
      }
      traced := false;
    }

    method Unmap(answers: seq<nat>) returns (ghost kept: bool)
      requires Resting() && HonestMunmap(answers) && !Idle()
      modifies this`mem, this`genuine, this`schedule, this`trail, this`page, this`regs, this`maps, this`state, this`stops, this`probe
      ensures Valid() && AllRunning() && regs == old(regs) && genuine.Keys == old(genuine.Keys)
      ensures stops == old(stops) + Pauses(threads, pid) + Resumes(threads, pid)
      ensures Settled(answers) == 0 ==>
        probe == 0 && page == map[] && maps == old(maps) + [UnmappedPage(old(probe))]
      ensures Settled(answers) != 0 ==> probe == old(probe) && page == old(page) && maps == old(maps)
      ensures kept ==> Now().Clean() && Evolves(Repaged(old(Now()), page), Now())
      ensures old(Sound(trail)) ==> (Sound(trail) <==> kept)
      ensures Range(regs.rip, regs.rip + WORD) !! SiblingWrites(old(schedule)) ==> kept
      ensures kept <==> CodeUntouched(old(Now()), old(state), threads, pid, regs.rip)
    {
      hide Evolves, Frozen, SiblingWrites, Read, Write, Layered, AfterSyscall, Unmapped, Sound, WordKept, SlotEffect, Pauses, Resumes;
      ghost var s0, rip := Now(), regs.rip;
      var oldregs := GetRegs();
      ghost var s1 := Now();
      var newregs := oldregs.(rax := SYS_MUNMAP, rdi := probe, rsi := PAGE);
      KeysKept(s0, s1);
      var origCode := PeekThenPause(oldregs.rip);
      ghost var s2 := Now();
      KeysKept(s1, s2);
      EvolvesTrans(s0, s1, s2);
      ScheduleShrinks(s0, s1);
      kept := UnmapAndResume(oldregs, newregs, origCode, answers);
      if kept {
        RepagedEvolves(s0, s2, page);
        EvolvesTrans(Repaged(s0, page), Repaged(s2, page), Now());
      }
      SoundKept(s0, s2);
    }

    /** The rest of PtraceCleanup once the siblings are paused. */
    method UnmapAndResume(oldregs: Regs, newregs: Regs, origCode: seq<Byte>, answers: seq<nat>) returns (ghost kept: bool)
      requires Valid() && Now().Clean() && AllStopped() && HonestMunmap(answers)
      requires Mapped(genuine, oldregs.rip, WORD) && |origCode| == WORD
      requires state == map[] ==> Read(genuine, oldregs.rip, WORD) == origCode
      requires newregs == oldregs.(rax := SYS_MUNMAP, rdi := probe, rsi := PAGE)
      requires page == map[] || Range(probe, probe + PAGE) == page.Keys
      modifies this`mem, this`genuine, this`schedule, this`trail, this`page, this`regs, this`maps, this`probe, this`state, this`stops
      ensures Valid() && AllRunning() && regs == oldregs && genuine.Keys == old(genuine.Keys)
      ensures stops == old(stops) + Resumes(threads, pid)
      ensures probe == (if Settled(answers) == 0 then 0 else old(probe))
      ensures page == (if Settled(answers) == 0 then map[] else old(page))
      ensures maps == old(maps) + if Settled(answers) == 0 then [UnmappedPage(old(probe))] else []
      ensures kept == (old(Read(genuine, oldregs.rip, WORD)) == origCode)
      ensures kept ==> Now().Clean() && Evolves(Repaged(old(Now()), page), Now())
      ensures old(Sound(trail)) ==> (Sound(trail) <==> kept)
    {
      hide Evolves, Frozen, SiblingWrites, Read, Write, Layered, AfterSyscall, Unmapped, Sound, Resumes;
      ghost var s0, rip := Now(), oldregs.rip;
      kept := Read(genuine, rip, WORD) == origCode;
      UnmapPatched(oldregs, newregs, origCode, answers);
      ghost var s1 := Now();
      if kept {
        CodeKept(s0, s1, rip, Settled(answers));
      } else {
        CodeLost(s0, s1, rip, Settled(answers), origCode);
      }
      ResumeChildThreads();
      KeysKept(s1, Now());
      if kept {
        EvolvesTrans(Repaged(s0, s1.page), s1, Now());
        SoundKept(Repaged(s0, s1.page), Now());
      }
    }

    /** The code is read, and then the siblings are paused: they can still change
        it in between. */
    method PeekThenPause(rip: nat) returns (origCode: seq<Byte>)
      requires Valid() && Now().Clean() && Mapped(genuine, rip, WORD)
      modifies this`mem, this`genuine, this`schedule, this`trail, this`state, this`stops
      ensures Valid() && Evolves(old(Now()), Now()) && AllStopped() && Now().Clean()
      ensures stops == old(stops) + Pauses(threads, pid)
      ensures |origCode| == WORD && Mapped(genuine, rip, WORD)
      ensures state == map[] || Range(rip, rip + WORD) !! SiblingWrites(old(schedule)) ==> Read(genuine, rip, WORD) == origCode
      ensures Read(genuine, rip, WORD) == origCode <==>
        WordKept(old(genuine), old(schedule), old(state), threads, pid, rip)
    {
      hide Evolves, Frozen, SiblingWrites, Layered, Sound, PauseEffect, SlotEffect;
      ghost var s0 := Now();
      WordLayer(s0, rip);
      origCode := PeekWord(rip);
      ghost var s1 := Now();
      KeysKept(s0, s1);
      PauseChildThreads();
      EvolvesTrans(s0, s1, Now());
      KeysKept(s0, Now());
      QuietWord(s0, s1, Now(), rip);
      FrozenFacts(s1, Now());
      WordLayer(s1, rip);
      ReadsSame(s1.genuine, genuine, rip);
    }

    /** The code at rip replaced, munmap called, and origCode written there. */
    method UnmapPatched(oldregs: Regs, newregs: Regs, origCode: seq<Byte>, answers: seq<nat>)
      requires Valid() && AllStopped() && HonestMunmap(answers)
      requires Mapped(genuine, oldregs.rip, WORD) && |origCode| == WORD
      requires newregs == oldregs.(rax := SYS_MUNMAP, rdi := probe, rsi := PAGE)
      requires page == map[] || Range(probe, probe + PAGE) == page.Keys
      modifies this`mem, this`genuine, this`schedule, this`trail, this`page, this`regs, this`maps, this`probe
      ensures Valid() && regs == oldregs
      ensures probe == (if Settled(answers) == 0 then 0 else old(probe))
      ensures maps == old(maps) + if Settled(answers) == 0 then [UnmappedPage(old(probe))] else []
      ensures Frozen(Unmapped(old(Now()), Settled(answers), oldregs.rip, origCode), Now())
    {
      hide Evolves, Frozen, SiblingWrites, Read, Write, Layered, AfterSyscall, Sound;
      ghost var s0, rip := Now(), oldregs.rip;
      Stutter(s0);
      WordLayer(s0, rip);
      var _ := Poke(oldregs.rip, SYSCALL);
      ghost var s1 := Now();
      Stutter(s1);
      Patched(s0, s0, s1, s1, rip);
      TryUnmap(newregs, answers);
      ghost var s2 := Now();
      StillMapped(s0, s1, s2, rip, SYS_MUNMAP, Status(Settled(answers)));
      var _ := Poke(oldregs.rip, origCode);
      ghost var s3 := Now();
      SetRegs(oldregs);
      FrozenTrans(s2.(mem := Write(s2.mem, rip, origCode)), s3, Now());
      CodeReplaced(s0, s1, s2, Now(), rip, Settled(answers), origCode);
    }

    /** The loop at do_munmap. */
    method TryUnmap(newregs: Regs, answers: seq<nat>)
      requires Valid() && AllStopped() && HonestMunmap(answers)
      requires Mapped(mem, newregs.rip, 2) && Read(mem, newregs.rip, 2) == [0x0f, 0x05]
      requires newregs.rax == SYS_MUNMAP && newregs.rdi == probe && newregs.rsi == PAGE
      requires page == map[] || Range(probe, probe + PAGE) == page.Keys
      modifies this`mem, this`genuine, this`schedule, this`trail, this`page, this`regs, this`maps, this`probe
      ensures Valid()
      ensures probe == (if Settled(answers) == 0 then 0 else old(probe))
      ensures maps == old(maps) + if Settled(answers) == 0 then [UnmappedPage(old(probe))] else []
      ensures Frozen(AfterSyscall(old(Now()), SYS_MUNMAP, Status(Settled(answers))), Now())
    {
      hide Evolves, Frozen, SiblingWrites, Read, Layered, AfterSyscall, Sound;
      ghost var s0 := Now();
      Stutter(s0);
      var rest := answers;
      while true
        invariant Valid() && Settles(rest) && Settled(rest) == Settled(answers)
        invariant Frozen(s0, Now()) && probe == old(probe) && maps == old(maps)
        decreases |rest|
      {
        FrozenFacts(s0, Now());
        ghost var s1 := Now();
        SyscallFrozen(s0, s1, SYS_MUNMAP, Status(rest[0]));
        var rax := RunSyscall(newregs, Status(rest[0]));
        FrozenTrans(AfterSyscall(s0, SYS_MUNMAP, Status(rest[0])), AfterSyscall(s1, SYS_MUNMAP, Status(rest[0])), Now());
        if rax == 0 {
          probe := 0;
          break;
        } else if rax == EAGAIN {
          Refused(s0, rest[0]);
          rest := rest[1..];
        } else {
          break;
        }
      }
    }

    // --- Whole runs ---

    /** Any number of calls followed by the cleanup. One page is mapped, however
        many calls there are; it is unmapped exactly when munmap ends with 0 and
        else stays armed. Each call returns what its function returns, and in the
        end the registers are as at the start. If the page is gone and no store
        was lost, the target is as if it had run alone, but for what the called
        functions left below the stack pointer. */
    method CallsThenCleanup(fns: seq<nat>, answer: Answer, callees: seq<nat -> Effect>, answers: seq<nat>)
      returns (results: seq<Outcome>, ghost kept: bool)
      requires Resting() && Idle() && answer.Page? && HonestMmap(answer) && fns != [] && Settles(answers)
      requires |callees| == |fns| && forall i :: 0 <= i < |fns| ==> Confined(callees[i](fns[i]), regs.rsp)
      modifies this
      ensures Valid() && AllRunning() && !traced && regs == old(regs)
      ensures |results| == |fns| && forall i :: 0 <= i < |fns| ==> results[i] == Returned(callees[i](fns[i]).regs.rax)
      ensures maps == old(maps) + [MappedPage(answer.addr)] + if Settled(answers) == 0 then [UnmappedPage(answer.addr)] else []
      ensures stops == old(stops) + Pauses(threads, pid) + Resumes(threads, pid) + Pauses(threads, pid) + Resumes(threads, pid)
      ensures if Settled(answers) == 0 then Idle() && mem.Keys == old(mem.Keys) else Armed() && probe == answer.addr
      ensures old(Sound(trail)) ==> (Sound(trail) <==> kept)
      ensures Range(regs.rip, regs.rip + WORD) !! SiblingWrites(old(schedule)) ==> kept
      ensures kept ==> Evolves(Repaged(old(Now()), page), Now(), Stack(regs.rsp))
      ensures kept && Settled(answers) == 0 ==> Evolves(old(Now()), Now(), Stack(regs.rsp))
    {
      hide Evolves, SiblingWrites, Sound, Layered, Read;
      ghost var s0, own := Now(), Stack(regs.rsp);
      results := Calls(fns, answer, callees);
      ghost var s1 := Now();
      PageNotEmpty(s1, probe);
      ScheduleShrinks(Repaged(s0, page), s1, own);
      SoundKept(Repaged(s0, page), s1, own);
      kept := PtraceCleanup(answers);
      if kept {
        RepagedEvolves(Repaged(s0, s1.page), s1, page, own);
        OwnWeaker(Repaged(s1, page), Now(), own);
        EvolvesTrans(Repaged(s0, page), Repaged(s1, page), Now(), own);
      }
      if Settled(answers) == 0 {
        assert Repaged(s0, map[]) == s0;
      }
    }

    /** Any number of calls, the first of which makes the trampoline. */
    method Calls(fns: seq<nat>, answer: Answer, callees: seq<nat -> Effect>) returns (results: seq<Outcome>)
      requires Resting() && Idle() && answer.Page? && HonestMmap(answer) && fns != []
      requires |callees| == |fns| && forall i :: 0 <= i < |fns| ==> Confined(callees[i](fns[i]), regs.rsp)
      modifies this`mem, this`genuine, this`schedule, this`trail, this`page, this`regs, this`maps, this`state, this`stops, this`probe
      ensures Resting() && Armed() && regs == old(regs) && genuine.Keys == old(genuine.Keys)
      ensures |results| == |fns| && forall i :: 0 <= i < |fns| ==> results[i] == Returned(callees[i](fns[i]).regs.rax)
      ensures probe == answer.addr && maps == old(maps) + [MappedPage(probe)]
      ensures stops == old(stops) + Pauses(threads, pid) + Resumes(threads, pid)
      ensures Evolves(Repaged(old(Now()), page), Now(), Stack(regs.rsp))
    {
      hide Evolves, SiblingWrites, Sound, Layered, Read, Range, Pauses, Resumes, Frozen;
      ghost var s0, own := Now(), Stack(regs.rsp);
      var r := PtraceCallFunction(fns[0], answer, callees[0]);
      KeysKept(Repaged(s0, page), Now(), own);
      results := [r];
      for i := 1 to |fns|
        invariant Resting() && Armed() && regs == old(regs) && genuine.Keys == s0.genuine.Keys
        invariant probe == answer.addr && maps == old(maps) + [MappedPage(probe)]
        invariant stops == old(stops) + Pauses(threads, pid) + Resumes(threads, pid)
        invariant Evolves(Repaged(s0, page), Now(), own)
        invariant |results| == i && forall j :: 0 <= j < i ==> results[j] == Returned(callees[j](fns[j]).regs.rax)
      {
        ghost var s := Now();
        r := PtraceCallFunction(fns[i], answer, callees[i]);
        KeysKept(Repaged(s, page), Now(), own);
        EvolvesTrans(Repaged(s0, page), s, Now(), own);
        results := results + [r];
      }
    }
  }
}
