/** The life of a tracee under ptrace: waiting for its stops, attaching, and the
    loop that looks for symbols. Every request is logged with the state of the
    tracee, so that stop discipline is a property of the log. */
module Session {

  const SIGTRAP: nat := 5
  const SIGCHLD: nat := 17
  const EVENT_EXEC: nat := 4

  /** What waitpid reports: a stop by a signal, with the event in the higher bits
      of the status, an exit, or a status of neither kind. */
  datatype WaitStatus = StoppedBy(signal: nat, event: nat) | ExitedWith(code: nat) | Odd

  datatype RunState = Running | Stopped | Gone

  /** How a request ends; the failures are the exceptions of the original. */
  datatype Outcome = Fine | PtraceError | TerminateError

  datatype Request = Peek | Cont

  /** A request that is only allowed on a stopped tracee, and whether it was. */
  datatype Use = Use(request: Request, stopped: bool)

  /** What one call of DetectABI comes to. */
  datatype Detection = Found | Missing | FatalError

  predicate Disciplined(log: seq<Use>) {
    forall i :: 0 <= i < |log| ==> log[i].stopped
  }

  /** The number of SIGCHLD stops in front. */
  function ChildStops(events: seq<WaitStatus>): (k: nat)
    ensures k <= |events|
    ensures forall i :: 0 <= i < k ==> events[i].StoppedBy? && events[i].signal == SIGCHLD
    ensures k < |events| ==> !(events[k].StoppedBy? && events[k].signal == SIGCHLD)
  {
    if events != [] && events[0].StoppedBy? && events[0].signal == SIGCHLD then 1 + ChildStops(events[1..]) else 0
  }

  /** The verdict of DoWait on the first other event; a failing waitpid if there is none. */
  function Verdict(events: seq<WaitStatus>): Outcome {
    var k := ChildStops(events);
    if k == |events| then PtraceError
    else
      match events[k]
      case StoppedBy(signal, _) => if signal == SIGTRAP then Fine else PtraceError
      case ExitedWith(_) => TerminateError
      case Odd => PtraceError
  }

  /** What DoWait leaves to be reported later. */
  function Pending(events: seq<WaitStatus>): seq<WaitStatus> {
    var k := ChildStops(events);
    if k == |events| then [] else events[k + 1..]
  }

  /** The same after n waits. */
  function PendingAfter(events: seq<WaitStatus>, n: nat): seq<WaitStatus> {
    if n == 0 then events else Pending(PendingAfter(events, n - 1))
  }

  /** The state in which DoWait leaves a target: each SIGCHLD stop is continued, and
      then the last event decides. */
  function AfterWait(state: RunState, events: seq<WaitStatus>): RunState {
    var k := ChildStops(events);
    if k < |events| && events[k].StoppedBy? then Stopped
    else if k < |events| && events[k].ExitedWith? then Gone
    else if k == 0 then state
    else Running
  }

  /** SawEventExec: the stop in which an exec is reported. */
  predicate SawEventExec(status: WaitStatus) {
    status.StoppedBy? && status.signal == SIGTRAP && status.event == EVENT_EXEC
  }

  /** The number of events in front of the first exec or exit. */
  function UntilExec(events: seq<WaitStatus>): (k: nat)
    ensures k <= |events|
    ensures forall i :: 0 <= i < k ==> !SawEventExec(events[i]) && !events[i].ExitedWith?
    ensures k < |events| ==> SawEventExec(events[k]) || events[k].ExitedWith?
  {
    if events == [] || SawEventExec(events[0]) || events[0].ExitedWith? then 0 else 1 + UntilExec(events[1..])
  }

  function Conts(n: nat): (log: seq<Use>)
    ensures |log| == n && Disciplined(log)
  {
    seq(n, _ => Use(Cont, true))
  }

  // --- What a session has to be ---

  /** The requests of a Cont and the wait that follows it. */
  function RunLog(events: seq<WaitStatus>): (log: seq<Use>)
    ensures Disciplined(log)
  {
    [Use(Cont, true)] + Conts(ChildStops(events))
  }

  /** The same for n times in a row. */
  function Resumed(events: seq<WaitStatus>, n: nat): (log: seq<Use>)
    ensures Disciplined(log)
  {
    if n == 0 then [] else Resumed(events, n - 1) + RunLog(PendingAfter(events, n - 1))
  }

  /** InitiatePtrace gets as far as its PtraceInterrupt: the child stops and gets to
      its exec, or the running process can be seized. */
  predicate Attaches(trace: bool, seized: bool, events: seq<WaitStatus>) {
    if trace then
      && events != [] && events[0].StoppedBy?
      && UntilExec(events[1..]) < |events[1..]| && SawEventExec(events[1..][UntilExec(events[1..])])
    else seized
  }

  /** The events that are then still to come. */
  function Handover(trace: bool, events: seq<WaitStatus>): seq<WaitStatus> {
    if trace && events != [] && UntilExec(events[1..]) < |events[1..]| then events[1..][UntilExec(events[1..]) + 1..]
    else events
  }

  /** The requests up to then: one Cont for a child. */
  function AttachLog(trace: bool, events: seq<WaitStatus>): seq<Use> {
    if trace then [Use(Cont, events != [] && events[0].StoppedBy?)] else []
  }

  /** FindSymbols makes this many tries and comes to this: it goes on as long as
      the ABI is missing, tries are left and the target stops again. */
  ghost predicate Searched(answers: seq<Detection>, maxRetries: nat, events: seq<WaitStatus>, tries: nat, code: nat, r: Outcome)
    requires maxRetries <= |answers|
  {
    && 1 <= tries <= maxRetries
    && (forall j :: 0 <= j < tries - 1 ==> answers[j] == Missing && Verdict(PendingAfter(events, j)) == Fine)
    && (r != Fine <==> tries < maxRetries && answers[tries - 1] == Missing)
    && (r != Fine ==> r == Verdict(PendingAfter(events, tries - 1)))
    && (r == Fine ==> (code == 0 <==> answers[tries - 1] == Found))
    && (r == Fine && code != 0 ==> answers[tries - 1] == FatalError || (answers[tries - 1] == Missing && tries == maxRetries))
  }

  /** The requests of that search. */
  function SearchLog(answers: seq<Detection>, events: seq<WaitStatus>, tries: nat, r: Outcome): (log: seq<Use>)
    requires 1 <= tries <= |answers|
    ensures Disciplined(log)
  {
    Resumed(events, if r == Fine then tries - 1 else tries) + if answers[tries - 1] == Found then [Use(Peek, true)] else []
  }

  /** A child attaches with its first exec, which no exit is in front of. */
  lemma AttachesMeans(seized: bool, events: seq<WaitStatus>, k: nat)
    ensures Attaches(false, seized, events) <==> seized
    ensures Handover(false, events) == events && AttachLog(false, events) == []
    ensures 1 <= k < |events| && events[0].StoppedBy?
      && events[k].StoppedBy? && events[k].signal == 5 && events[k].event == 4
      && (forall i :: 1 <= i < k ==> !events[i].ExitedWith? && !(events[i].StoppedBy? && events[i].signal == 5 && events[i].event == 4))
      ==> Attaches(true, seized, events) && Handover(true, events) == events[k + 1..]
    ensures events == [] || !events[0].StoppedBy? ==> !Attaches(true, seized, events) && AttachLog(true, events) == [Use(Cont, false)]
    ensures events != [] && events[0].StoppedBy? ==> AttachLog(true, events) == [Use(Cont, true)]
    ensures 1 <= k < |events| && events[k].ExitedWith?
      && (forall i :: 1 <= i < k ==> !(events[i].StoppedBy? && events[i].signal == 5 && events[i].event == 4))
      ==> !Attaches(true, seized, events)
    ensures (forall i :: 1 <= i < |events| ==> !(events[i].StoppedBy? && events[i].signal == 5 && events[i].event == 4))
      ==> !Attaches(true, seized, events)
  {
    if events != [] {
      var rest, n := events[1..], UntilExec(events[1..]);
      assert forall i :: 0 <= i < |rest| ==> rest[i] == events[i + 1];
      assert forall i :: 1 <= i < |events| ==> events[i] == rest[i - 1];
      if n < |rest| {
        assert rest[n] == events[n + 1] && rest[n + 1..] == events[n + 2..];
      }
    }
  }

  /** What the search comes to, try by try, and its requests. */
  lemma SearchedMeans(answers: seq<Detection>, maxRetries: nat, events: seq<WaitStatus>, tries: nat, code: nat, r: Outcome)
    requires maxRetries <= |answers| && Searched(answers, maxRetries, events, tries, code, r)
    ensures 1 <= tries <= maxRetries
    ensures forall j :: 0 <= j < tries - 1 ==> answers[j] == Missing && Verdict(PendingAfter(events, j)) == Fine
    ensures answers[tries - 1] == Found ==> code == 0 && r == Fine
    ensures answers[tries - 1] == FatalError ==> code != 0 && r == Fine
    ensures answers[tries - 1] == Missing && tries == maxRetries ==> code != 0 && r == Fine
    ensures answers[tries - 1] == Missing && tries < maxRetries ==>
      r == Verdict(PendingAfter(events, tries - 1)) && Verdict(PendingAfter(events, tries - 1)) != Fine
    ensures SearchLog(answers, events, tries, r)
      == Resumed(events, if r == Fine then tries - 1 else tries) + if answers[tries - 1] == Found then [Use(Peek, true)] else []
  {
  }

  /** A Cont for letting the target run, and one more for each SIGCHLD of the wait. */
  lemma ResumedMeans(events: seq<WaitStatus>, n: nat, k: nat)
    requires var e := PendingAfter(events, n);
      && k <= |e| && (forall i :: 0 <= i < k ==> e[i].StoppedBy? && e[i].signal == 17)
      && (k < |e| ==> !(e[k].StoppedBy? && e[k].signal == 17))
    ensures Resumed(events, 0) == [] && PendingAfter(events, 0) == events
    ensures Resumed(events, n + 1) == Resumed(events, n) + seq(k + 1, _ => Use(Cont, true))
    ensures PendingAfter(events, n + 1) == PendingAfter(events, n)[if k < |PendingAfter(events, n)| then k + 1 else k..]
  {
    var e := PendingAfter(events, n);
    assert ChildStops(e) == k;
    assert RunLog(e) == seq(k + 1, _ => Use(Cont, true));
  }

  lemma DisciplinedMore(log: seq<Use>, more: seq<Use>)
    requires Disciplined(more)
    ensures Disciplined(log + more) <==> Disciplined(log)
  {
    assert log <= log + more;
  }

  class Target {
    var state: RunState
    /** The future answers of waitpid; when they run out it fails. */
    var events: seq<WaitStatus>
    ghost var log: seq<Use>

    constructor (state: RunState, events: seq<WaitStatus>)
      ensures this.state == state && this.events == events && log == []
    {
      this.state, this.events := state, events;
      log := [];
    }

    /** PTRACE_PEEKDATA, as far as the state of the tracee goes. */
    method PtracePeek() returns (r: Outcome)
      modifies this`log
      ensures log == old(log) + [Use(Peek, state == Stopped)]
      ensures r == if state == Stopped then Fine else PtraceError
      ensures Disciplined(log) <==> old(Disciplined(log)) && state == Stopped
    {
      log := log + [Use(Peek, state == Stopped)];
      assert log[|log| - 1] == Use(Peek, state == Stopped) && old(log) <= log;
      r := if state == Stopped then Fine else PtraceError;
    }

    /** PTRACE_CONT, which fails on a tracee that is not stopped. */
    method PtraceCont() returns (r: Outcome)
      modifies this`state, this`log
      ensures log == old(log) + [Use(Cont, old(state) == Stopped)]
      ensures r == if old(state) == Stopped then Fine else PtraceError
      ensures state == if old(state) == Stopped then Running else old(state)
    {
      log := log + [Use(Cont, state == Stopped)];
      r := if state == Stopped then Fine else PtraceError;
      state := if state == Stopped then Running else state;
    }

    /** waitpid: the next event, which says what has become of the tracee. */
    method Waitpid() returns (ok: bool, status: WaitStatus)
      modifies this`state, this`events
      ensures ok == (old(events) != [])
      ensures !ok ==> events == old(events) && state == old(state)
      ensures ok ==> status == old(events)[0] && events == old(events)[1..]
      ensures ok ==> state == match status
        case StoppedBy(_, _) => Stopped
        case ExitedWith(_) => Gone
        case Odd => old(state)
    {
      ok, status := events != [], Odd;
      if ok {
        status, events := events[0], events[1..];
        match status {
          case StoppedBy(_, _) => state := Stopped;
          case ExitedWith(_) => state := Gone;
          case Odd =>
        }
      }
    }

    /** DoWait ends with the first event that is not a SIGCHLD stop, after one Cont
        for each that is. Every Cont finds the tracee stopped, and without an
        exception so does the caller. */
    method DoWait() returns (r: Outcome)
      modifies this
      ensures r == Verdict(old(events)) && (r == Fine ==> state == Stopped)
      ensures log == old(log) + Conts(ChildStops(old(events)))
      ensures events == Pending(old(events)) && state == AfterWait(old(state), old(events))
      ensures forall k :: 0 <= k < |old(events)| && (forall i :: 0 <= i < k ==> old(events)[i].StoppedBy? && old(events)[i].signal == 17) ==>
        var event := old(events)[k];
        !(event.StoppedBy? && event.signal == 17) ==>
          && (r == Fine <==> event.StoppedBy? && event.signal == 5) && (r == TerminateError <==> event.ExitedWith?)
          && events == old(events)[k + 1..] && |log| == |old(log)| + k
          && state == (match event
                       case StoppedBy(_, _) => Stopped
                       case ExitedWith(_) => Gone
                       case Odd => if k == 0 then old(state) else Running)
      ensures (forall i :: 0 <= i < |old(events)| ==> old(events)[i].StoppedBy? && old(events)[i].signal == 17) ==>
        && r == PtraceError && events == [] && |log| == |old(log)| + |old(events)|
        && state == if old(events) == [] then old(state) else Running
    {
      ghost var start, k: nat := events, 0;
      while true
        invariant k <= |start| && events == start[k..]
        invariant k + ChildStops(events) == ChildStops(start) && Verdict(events) == Verdict(start)
        invariant log == old(log) + Conts(k)
        invariant state == if k == 0 then old(state) else Running
        decreases |events|
      {
        ghost var before := events;
        var ok, status := Waitpid();
        if !ok {
          return PtraceError;
        }
        match status {
          case StoppedBy(signal, _) =>
            if signal == SIGTRAP {
              return Fine;
            } else if signal == SIGCHLD {
              var cont := PtraceCont();
              assert ChildStops(before) == 1 + ChildStops(events);
              assert Conts(k + 1) == Conts(k) + [Use(Cont, true)];
              k := k + 1;
            } else {
              return PtraceError;
            }
          case ExitedWith(_) => return TerminateError;
          case Odd => return PtraceError;
        }
      }
    }

    /** PtraceInterrupt: only a tracee that is gone refuses the request itself. */
    method PtraceInterrupt() returns (r: Outcome)
      modifies this
      ensures r == Fine ==> state == Stopped
      ensures old(state) == Gone ==> r == PtraceError && log == old(log) && events == old(events) && state == Gone
      ensures old(state) != Gone ==>
        && r == Verdict(old(events)) && log == old(log) + Conts(ChildStops(old(events)))
        && events == Pending(old(events)) && state == AfterWait(old(state), old(events))
    {
      if state == Gone {
        return PtraceError;
      }
      r := DoWait();
    }

    /** Cont and then Interrupt: the target runs for a while. */
    method LetRun() returns (r: Outcome)
      requires state == Stopped
      modifies this
      ensures r == Verdict(old(events)) && (r == Fine ==> state == Stopped)
      ensures events == Pending(old(events)) && state == AfterWait(Running, old(events))
      ensures log == old(log) + RunLog(old(events))
    {
      hide Verdict, Pending, AfterWait;
      r := PtraceCont();
      r := PtraceInterrupt();
    }

    /** InitiatePtrace: in trace mode (the parent side) let the forked child run from
        its first stop to its exec, then detach and seize it; otherwise seize a
        running process, which can fail. Then stop it. Code 0 hands over a stopped
        tracee, in trace mode one that has got to its exec without exiting.

        Up to the exec the child is continued once only. After a stop that is not
        its exec it would stay stopped, and only an exit could follow in fact. */
    method InitiatePtrace(trace: bool, seized: bool) returns (code: nat, r: Outcome)
      requires state == Running
      modifies this
      ensures Attaches(trace, seized, old(events)) ==>
        var last := Handover(trace, old(events));
        && code == 0 && r == Verdict(last) && events == Pending(last) && (r == Fine ==> state == Stopped)
        && log == old(log) + AttachLog(trace, old(events)) + Conts(ChildStops(last))
      ensures !Attaches(trace, seized, old(events)) ==>
        && code == 1 && log == old(log) + AttachLog(trace, old(events))
        && r == if trace && (old(events) == [] || !old(events)[0].StoppedBy?) then PtraceError else Fine
    {
      hide Verdict, Pending, AfterWait, Disciplined;
      if trace {
        var ok, status := Waitpid();
        r := PtraceCont();
        if r != Fine {
          return 1, r;
        }
        ghost var rest, k: nat := events, 0;
        status := ExitedWith(0);
        while !SawEventExec(status)
          invariant log == old(log) + [Use(Cont, true)]
          invariant k <= |rest| && events == rest[k..]
          invariant if SawEventExec(status) then k > 0 && UntilExec(rest) == k - 1 && status == rest[k - 1]
                    else UntilExec(rest) == k + UntilExec(events)
          decreases |events|, if SawEventExec(status) then 0 else 1
        {
          ok, status := Waitpid();
          if !ok {
            return 1, Fine;
          }
          if status.ExitedWith? {
            return 1, Fine;
          }
          k := k + 1;
        }
        state := Running;
      } else if !seized {
        return 1, Fine;
      }
      r := PtraceInterrupt();
      code := 0;
    }

    /** DetectABI: a found ABI may have needed a remote call, which looks at the
        tracee. */
    method DetectABI(answer: Detection) returns (r: Outcome)
      modifies this`log
      ensures answer != Found ==> r == Fine && log == old(log)
      ensures answer == Found ==> log == old(log) + [Use(Peek, state == Stopped)]
      ensures answer == Found ==> r == if state == Stopped then Fine else PtraceError
    {
      r := Fine;
      if answer == Found {
        r := PtracePeek();
      }
    }

    /** FindSymbols tries at most maxRetries times, and between two tries lets the
        tracee run and stops it again. An exception is that of the first such wait
        that does not end well. Without one the code is 0 exactly when a try finds
        the ABI, and the tracee is stopped. */
    method FindSymbols(answers: seq<Detection>, maxRetries: nat) returns (code: nat, r: Outcome, tries: nat)
      requires state == Stopped && 1 <= maxRetries <= |answers|
      modifies this
      ensures Searched(answers, maxRetries, old(events), tries, code, r)
      ensures log == old(log) + SearchLog(answers, old(events), tries, r)
      ensures events == PendingAfter(old(events), if r == Fine then tries - 1 else tries)
      ensures r == Fine ==> state == Stopped
    {
      hide Verdict, Pending, AfterWait, RunLog;
      var i := 0;
      tries := 0;
      while true
        invariant tries == i < maxRetries && state == Stopped
        invariant forall j :: 0 <= j < tries ==> answers[j] == Missing && Verdict(PendingAfter(old(events), j)) == Fine
        invariant events == PendingAfter(old(events), tries)
        invariant log == old(log) + Resumed(old(events), tries)
        decreases maxRetries - i
      {
        tries := tries + 1;
        r := DetectABI(answers[i]);
        if answers[i] == FatalError {
          return 1, Fine, tries;
        } else if answers[i] == Missing {
          i := i + 1;
          if i >= maxRetries {
            return 1, Fine, tries;
          }
          r := LetRun();
          if r != Fine {
            return 1, r, tries;
          }
        } else {
          return 0, r, tries;
        }
      }
    }
  }
}
