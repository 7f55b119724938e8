/**
 * The record of a persistent process. Two reader threads, the exit and lifetime watcher, and polls and terminations all
 * take its lock. Each locked section, each removal from the table and each disposal is one step; a run is any sequence
 * of steps.
 */
module PersistentProcess {
  import opened Results
  import opened Streams

  const BUFFER_LIMIT := 1048576

  datatype Reason = Running | NaturalExit | Expired | OutputLimitExceeded | UserTerminated | HostWaitFailed | Cleanup

  datatype Side = StdOut | StdErr

  /**
   * The fields under the lock, and whether the watcher is still waiting, the record is in the table, and it was
   * disposed.
   */
  datatype State = State(stdout: seq<Byte>, stderr: seq<Byte>, running: bool, exitCode: nat, reason: Reason,
                         stdinClosed: bool, stdoutClosed: bool, stderrClosed: bool, watched: bool, registered: bool,
                         disposed: bool)

  const START := State([], [], true, 0, Running, false, false, false, true, true, false)

  /** What the watcher's wait reports: the lifetime is over, the process is gone, or the wait failed. */
  datatype Wait = Timeout | Gone | Failed

  /** exit is the exit code the system reports, when it does. */
  datatype Step =
    | Append(side: Side, chunk: seq<Byte>, exit: Option<nat>)
    | EndOfStream(side: Side)
    | Watch(wait: Wait, exit: Option<nat>)
    | Poll
    | Terminate(exit: Option<nat>)
    | Remove
    | Dispose(exit: Option<nat>)

  function Buffered(s: State, side: Side): seq<Byte> {
    if side == StdOut then s.stdout else s.stderr
  }

  function Closed(s: State, side: Side): bool {
    if side == StdOut then s.stdoutClosed else s.stderrClosed
  }

  /**
   * A reader appends only until it has seen the end; the watcher acts once; a poll or termination may have looked the
   * record up before it was removed; removal follows a termination or a last poll, and disposal follows removal, once.
   */
  predicate Enabled(s: State, step: Step) {
    match step
    case Append(side, _, _) => !Closed(s, side)
    case EndOfStream(side) => !Closed(s, side)
    case Watch(_, _) => s.watched
    case Poll => !s.disposed
    case Terminate(_) => !s.disposed
    case Remove => s.registered && !s.running
    case Dispose(_) => !s.registered && !s.disposed
  }

  /** The first closing decides the reason; later ones do nothing. */
  function Close(s: State, reason: Reason, exit: Option<nat>): State {
    if !s.running then s
    else s.(reason := reason, exitCode := if exit.Some? then exit.value else s.exitCode,
            running := false, stdinClosed := true)
  }

  /** A chunk is taken whole or not at all; a disposed buffer takes none. */
  predicate Accepts(s: State, side: Side, chunk: seq<Byte>) {
    !s.disposed && |Buffered(s, side)| + |chunk| <= BUFFER_LIMIT
  }

  function Store(s: State, side: Side, bytes: seq<Byte>): State {
    if side == StdOut then s.(stdout := bytes) else s.(stderr := bytes)
  }

  /** Still running as far as a poll can tell: the process, or output not yet read to its end. */
  predicate Live(s: State) {
    s.running || !s.stdoutClosed || !s.stderrClosed
  }

  function Next(s: State, step: Step): State {
    if !Enabled(s, step) then s
    else match step
      case Append(side, chunk, exit) =>
        if s.disposed then s
        else if Accepts(s, side, chunk) then Store(s, side, Buffered(s, side) + chunk)
        else Close(s, OutputLimitExceeded, exit)
      case EndOfStream(side) => if side == StdOut then s.(stdoutClosed := true) else s.(stderrClosed := true)
      case Watch(wait, exit) =>
        var t := s.(watched := false);
        (match wait
         case Timeout => Close(t, Expired, exit)
         case Failed => Close(t, HostWaitFailed, exit)
         case Gone =>
           if !t.running then t
           else t.(reason := NaturalExit, exitCode := if exit.Some? then exit.value else t.exitCode, running := false))
      case Poll => s.(stdout := [], stderr := [])
      case Terminate(exit) => Close(s, UserTerminated, exit)
      case Remove => s.(registered := false)
      case Dispose(exit) => Close(s, if s.reason == Running then Cleanup else s.reason, exit).(disposed := true)
  }

  function Run(steps: seq<Step>): State {
    if steps == [] then START else Next(Run(steps[..|steps| - 1]), steps[|steps| - 1])
  }

  /** The bytes of the chunks taken, in order. */
  function Accepted(steps: seq<Step>, side: Side): seq<Byte> {
    if steps == [] then []
    else
      var before, step := steps[..|steps| - 1], steps[|steps| - 1];
      Accepted(before, side)
      + if step.Append? && step.side == side && Enabled(Run(before), step) && Accepts(Run(before), side, step.chunk)
      then step.chunk else []
  }

  /** The bytes the polls of a run return, in order. */
  function Polled(steps: seq<Step>, side: Side): seq<Byte> {
    if steps == [] then []
    else
      var before, step := steps[..|steps| - 1], steps[|steps| - 1];
      Polled(before, side) + if step.Poll? && Enabled(Run(before), step) then Buffered(Run(before), side) else []
  }

  // ----- what every run keeps

  ghost predicate Sound(s: State) {
    && |s.stdout| <= BUFFER_LIMIT && |s.stderr| <= BUFFER_LIMIT
    && (s.running <==> s.reason == Running)
    && (!s.registered ==> !s.running)
    && (s.disposed ==> !s.registered)
    && (!s.running && s.reason != NaturalExit ==> s.stdinClosed)
  }

  lemma {:induction false} RunsAreSound(steps: seq<Step>)
    ensures Sound(Run(steps))
  {
    if steps != [] {
      RunsAreSound(steps[..|steps| - 1]);
      StepKeepsSound(Run(steps[..|steps| - 1]), steps[|steps| - 1]);
    }
  }

  lemma StepKeepsSound(s: State, step: Step)
    requires Sound(s)
    ensures Sound(Next(s, step))
  {
  }

  /** Exactly once: what polls returned, then what is still buffered, is what was accepted, in order. */
  lemma {:induction false} OutputIsExactlyOnce(steps: seq<Step>, side: Side)
    ensures Polled(steps, side) + Buffered(Run(steps), side) == Accepted(steps, side)
  {
    if steps != [] {
      var before, step := steps[..|steps| - 1], steps[|steps| - 1];
      OutputIsExactlyOnce(before, side);
      RunsAreSound(before);
      var s := Run(before);
      hide Run;
      hide Polled;
      hide Accepted;
      StepIsExactlyOnce(s, step, side, Polled(before, side), Accepted(before, side));
    }
  }

  lemma StepIsExactlyOnce(s: State, step: Step, side: Side, polled: seq<Byte>, accepted: seq<Byte>)
    requires polled + Buffered(s, side) == accepted
    ensures var polled' := polled + if step.Poll? && Enabled(s, step) then Buffered(s, side) else [];
            var accepted' := accepted
              + if step.Append? && step.side == side && Enabled(s, step) && Accepts(s, side, step.chunk) then step.chunk
              else [];
            polled' + Buffered(Next(s, step), side) == accepted'
  {
    var buffered := Buffered(s, side);
    assert polled + [] == polled && accepted + [] == accepted && polled + buffered + [] == accepted;
    if step.Append? {
      assert polled + (buffered + step.chunk) == accepted + step.chunk;
    } else if !step.Poll? {
      assert Buffered(Next(s, step), side) == buffered;
    }
  }

  lemma RunAppend(steps: seq<Step>, step: Step, side: Side)
    ensures Run(steps + [step]) == Next(Run(steps), step)
    ensures Polled(steps + [step], side) == Polled(steps, side)
            + if step.Poll? && Enabled(Run(steps), step) then Buffered(Run(steps), side) else []
    ensures Accepted(steps + [step], side) == Accepted(steps, side)
            + if step.Append? && step.side == side && Enabled(Run(steps), step) && Accepts(Run(steps), side, step.chunk)
            then step.chunk else []
  {
    assert (steps + [step])[..|steps|] == steps;
  }

  /**
   * The reason leaves Running at most once: once the process is not running, reason and exit code never change again.
   */
  lemma {:induction false} ReasonIsFinal(steps: seq<Step>, more: seq<Step>)
    requires !Run(steps).running
    ensures Run(steps + more).reason == Run(steps).reason != Running
    ensures Run(steps + more).exitCode == Run(steps).exitCode
    ensures !Run(steps + more).running
    decreases |more|
  {
    hide Run;
    hide Next;
    hide Polled;
    hide Accepted;
    RunsAreSound(steps);
    if more == [] {
      assert steps + more == steps;
    } else {
      var front, last := more[..|more| - 1], more[|more| - 1];
      ReasonIsFinal(steps, front);
      RunsAreSound(steps + front);
      assert steps + more == (steps + front) + [last];
      RunAppend(steps + front, last, StdOut);
      FinalStep(Run(steps + front), last);
    }
  }

  // ----- how a process ended, read off the steps

  /** Why a process ended, and the exit code the system reported then, if it did. */
  datatype End = End(reason: Reason, exit: Option<nat>)

  /** Bytes read from one side since the last poll, as long as all of them were taken. */
  function Unread(steps: seq<Step>, side: Side): nat {
    if steps == [] then 0
    else
      var before, step := steps[..|steps| - 1], steps[|steps| - 1];
      match step
      case Poll => 0
      case Append(at, chunk, _) =>
        if at == side && EndOfStream(side) !in before then Unread(before, side) + |chunk| else Unread(before, side)
      case _ => Unread(before, side)
  }

  predicate Waited(steps: seq<Step>) {
    exists k :: 0 <= k < |steps| && steps[k].Watch?
  }

  /** How the next step ends a process that has run until then. */
  function Ends(before: seq<Step>, step: Step): Option<End> {
    match step
    case Watch(wait, exit) =>
      if Waited(before) then None
      else Some(End(match wait case Timeout => Expired case Gone => NaturalExit case Failed => HostWaitFailed, exit))
    case Terminate(exit) => Some(End(UserTerminated, exit))
    case Append(side, chunk, exit) =>
      if EndOfStream(side) in before || Unread(before, side) + |chunk| <= 1048576 then None
      else Some(End(OutputLimitExceeded, exit))
    case _ => None
  }

  /** The first step that ended the process. */
  function FirstEnd(steps: seq<Step>): Option<End> {
    if steps == [] then None
    else
      var before := steps[..|steps| - 1];
      if FirstEnd(before).Some? then FirstEnd(before) else Ends(before, steps[|steps| - 1])
  }

  /** As long as no step has ended it the process runs and its record is untouched. */
  ghost predicate StillRuns(steps: seq<Step>) {
    var s := Run(steps);
    && s.running && s.reason == Running && s.exitCode == 0 && s.registered && !s.disposed
    && (s.watched <==> !Waited(steps))
    && (forall side :: (Closed(s, side) <==> EndOfStream(side) in steps) && |Buffered(s, side)| == Unread(steps, side))
  }

  /** Reason and exit code are those of the first step that ended the process. */
  lemma {:induction false} FirstEndDecides(steps: seq<Step>)
    ensures FirstEnd(steps).None? ==> StillRuns(steps)
    ensures FirstEnd(steps).Some? ==>
              var (s, e) := (Run(steps), FirstEnd(steps).value);
              && !s.running && s.reason == e.reason != Running
              && s.exitCode == if e.exit.Some? then e.exit.value else 0
  {
    if steps != [] {
      var before, step := steps[..|steps| - 1], steps[|steps| - 1];
      FirstEndDecides(before);
      if FirstEnd(before).Some? {
        FinalStep(Run(before), step);
      } else {
        assert before + [step] == steps;
        RunAppend(before, step, StdOut);
        if Ends(before, step).Some? { StepEnds(before, step); } else { StepGoesOn(before, step); }
      }
    }
  }

  lemma StepEnds(before: seq<Step>, step: Step)
    requires StillRuns(before) && Ends(before, step).Some?
    ensures var (s, e) := (Next(Run(before), step), Ends(before, step).value);
            && !s.running && s.reason == e.reason != Running
            && s.exitCode == if e.exit.Some? then e.exit.value else 0
  {
    hide Run, Polled, Accepted, Unread, Waited;
    if step.Append? { assert Closed(Run(before), step.side) <==> EndOfStream(step.side) in before; }
  }

  lemma StepGoesOn(before: seq<Step>, step: Step)
    requires StillRuns(before) && Ends(before, step).None?
    ensures StillRuns(before + [step])
  {
    RunAppend(before, step, StdOut);
    StepStillRuns(before, step);
    forall side: Side
      ensures Closed(Run(before + [step]), side) <==> EndOfStream(side) in before + [step]
      ensures |Buffered(Run(before + [step]), side)| == Unread(before + [step], side)
    {
      SideGoesOn(before, step, side);
    }
    hide Run, Next, Closed, Buffered, Unread, Waited, Ends, Polled, Accepted;
  }

  lemma StepStillRuns(before: seq<Step>, step: Step)
    requires StillRuns(before) && Ends(before, step).None?
    ensures var s := Next(Run(before), step);
            && s.running && s.reason == Running && s.exitCode == 0 && s.registered && !s.disposed
            && (s.watched <==> !Waited(before + [step]))
  {
    var steps := before + [step];
    assert Waited(steps) <==> Waited(before) || step.Watch? by {
      assert forall k :: 0 <= k < |before| ==> steps[k] == before[k];
      assert steps[|before|] == step;
    }
    hide Run, Unread, Waited;
    if step.Append? { assert Closed(Run(before), step.side) <==> EndOfStream(step.side) in before; }
  }

  lemma UnreadNext(before: seq<Step>, step: Step, side: Side)
    ensures Unread(before + [step], side)
            == match step
               case Poll => 0
               case Append(at, chunk, _) =>
                 if at == side && EndOfStream(side) !in before then Unread(before, side) + |chunk|
                 else Unread(before, side)
               case _ => Unread(before, side)
    ensures EndOfStream(side) in before + [step] <==> EndOfStream(side) in before || step == EndOfStream(side)
  {
    assert (before + [step])[..|before|] == before;
  }

  lemma SideGoesOn(before: seq<Step>, step: Step, side: Side)
    requires StillRuns(before) && Ends(before, step).None?
    ensures var t := Next(Run(before), step);
            && (Closed(t, side) <==> EndOfStream(side) in before + [step])
            && |Buffered(t, side)| == Unread(before + [step], side)
  {
    UnreadNext(before, step, side);
    hide Run, Waited, Unread, Polled, Accepted;
    if step.Append? { assert Closed(Run(before), step.side) <==> EndOfStream(step.side) in before; }
  }

  /** A poll that reports the process gone tells how it was ended first. */
  lemma LastPollTellsTheEnd(steps: seq<Step>)
    requires !Live(Run(steps))
    ensures FirstEnd(steps).Some?
    ensures Run(steps).reason == FirstEnd(steps).value.reason
    ensures Run(steps).exitCode == match FirstEnd(steps).value.exit case Some(code) => code case None => 0
  {
    FirstEndDecides(steps);
    hide Run, FirstEnd;
  }

  lemma FinalStep(s: State, step: Step)
    requires !s.running
    ensures var t := Next(s, step); !t.running && t.reason == s.reason && t.exitCode == s.exitCode
  {
  }

  lemma SilentStep(s: State, step: Step, side: Side)
    requires Closed(s, side) && Buffered(s, side) == []
    ensures var t := Next(s, step); Closed(t, side) && Buffered(t, side) == []
    ensures step.Append? && step.side == side ==> !Enabled(s, step)
  {
  }

  /** A poll that reports the process gone has delivered everything that is ever accepted. */
  lemma {:induction false} LastPollDeliversAll(steps: seq<Step>, more: seq<Step>, side: Side)
    requires !Run(steps).disposed && !Live(Run(steps))
    ensures Polled(steps + [Poll] + more, side) == Accepted(steps, side)
    ensures Accepted(steps + [Poll] + more, side) == Accepted(steps, side)
    decreases |more|
  {
    hide Run;
    hide Polled;
    hide Accepted;
    var polled := steps + [Poll];
    RunAppend(steps, Poll, side);
    StaysSilent(polled, more, side);
    OutputIsExactlyOnce(polled + more, side);
    assert Polled(polled + more, side) + [] == Polled(polled + more, side);
  }

  /** After both streams have ended nothing is accepted. */
  lemma {:induction false} StaysSilent(steps: seq<Step>, more: seq<Step>, side: Side)
    requires Closed(Run(steps), side) && Buffered(Run(steps), side) == []
    ensures Accepted(steps + more, side) == Accepted(steps, side)
    ensures Closed(Run(steps + more), side) && Buffered(Run(steps + more), side) == []
    decreases |more|
  {
    hide Run;
    hide Next;
    hide Polled;
    hide Accepted;
    hide Closed;
    hide Buffered;
    hide Enabled;
    if more == [] {
      assert steps + more == steps;
    } else {
      var front, last := more[..|more| - 1], more[|more| - 1];
      StaysSilent(steps, front, side);
      assert steps + more == (steps + front) + [last];
      RunAppend(steps + front, last, side);
      SilentStep(Run(steps + front), last, side);
    }
  }

  // ----- the record itself

  datatype PollResult = PollResult(running: bool, exitCode: Option<nat>, reason: Reason, stdout: seq<Byte>,
                                   stderr: seq<Byte>)

  class Record {
    var stdout: seq<Byte>
    var stderr: seq<Byte>
    var running: bool
    var exitCode: nat
    var reason: Reason
    var stdinClosed: bool
    var stdoutClosed: bool
    var stderrClosed: bool
    var watched: bool
    var registered: bool
    var disposed: bool

    ghost function View(): State
      reads this
    {
      State(stdout, stderr, running, exitCode, reason, stdinClosed, stdoutClosed, stderrClosed, watched, registered,
            disposed)
    }

    constructor ()
      ensures View() == START
    {
      stdout, stderr, running, exitCode, reason := [], [], true, 0, Running;
      stdinClosed, stdoutClosed, stderrClosed, watched, registered, disposed := false, false, false, true, true, false;
    }

    method ClosePersistentState(why: Reason, exit: Option<nat>)
      modifies this
      ensures View() == Close(old(View()), why, exit)
    {
      if !running { return; }
      reason := why;
      if exit.Some? { exitCode := exit.value; }
      running := false;
      stdinClosed := true;
    }

    /** The first count bytes of a reader's buffer, or the end of the process when they do not fit. */
    method AppendPersistent(side: Side, buffer: array<Byte>, count: nat, exit: Option<nat>)
      requires count <= buffer.Length && Enabled(View(), Append(side, buffer[..count], exit)) && !disposed
      modifies this
      ensures View() == Next(old(View()), Append(side, buffer[..count], exit))
    {
      var length := if side == StdErr then |stderr| else |stdout|;
      if length + count > BUFFER_LIMIT {
        ClosePersistentState(OutputLimitExceeded, exit);
        return;
      }
      if side == StdErr { stderr := stderr + buffer[..count]; } else { stdout := stdout + buffer[..count]; }
    }

    /** The end of a reader thread. */
    method EndRead(side: Side)
      requires Enabled(View(), EndOfStream(side))
      modifies this
      ensures View() == Next(old(View()), EndOfStream(side))
    {
      if side == StdErr { stderrClosed := true; } else { stdoutClosed := true; }
    }

    /** What the watcher does once its wait is over. */
    method WatchProcess(wait: Wait, exit: Option<nat>)
      requires Enabled(View(), Watch(wait, exit))
      modifies this
      ensures View() == Next(old(View()), Watch(wait, exit))
    {
      watched := false;
      match wait {
        case Timeout => ClosePersistentState(Expired, exit);
        case Gone =>
          if running {
            if exit.Some? { exitCode := exit.value; }
            reason := NaturalExit;
            running := false;
          }
        case Failed => ClosePersistentState(HostWaitFailed, exit);
      }
    }

    method RemoveRecord()
      requires Enabled(View(), Remove)
      modifies this
      ensures View() == Next(old(View()), Remove)
    {
      registered := false;
    }

    method DisposePersistentState(exit: Option<nat>)
      requires Enabled(View(), Dispose(exit))
      modifies this
      ensures View() == Next(old(View()), Dispose(exit))
    {
      ClosePersistentState(if reason == Running then Cleanup else reason, exit);
      disposed := true;
    }

    /** The locked section of a poll: both buffers are taken out and emptied. */
    method TakeOutput() returns (r: PollResult)
      requires Enabled(View(), Poll)
      modifies this
      ensures View() == Next(old(View()), Poll)
      ensures r.stdout == old(stdout) && r.stderr == old(stderr) && r.reason == old(reason)
      ensures r.running == Live(old(View())) && r.exitCode == if r.running then None else Some(old(exitCode))
    {
      var out, err := stdout, stderr;
      stdout, stderr := [], [];
      var live := running || !stdoutClosed || !stderrClosed;
      r := PollResult(live, if live then None else Some(exitCode), reason, out, err);
    }

    /** A poll by itself: the last one also removes and disposes the record. */
    method PollPersistent(exit: Option<nat>) returns (r: PollResult)
      requires registered && Enabled(View(), Poll)
      modifies this
      ensures r.stdout == old(stdout) && r.stderr == old(stderr)
      ensures r.running == (old(running) || !old(stdoutClosed) || !old(stderrClosed))
      ensures r.reason == old(reason) && r.exitCode == if r.running then None else Some(old(exitCode))
      ensures !r.running ==>
                forall steps :: old(View()) == Run(steps) ==>
                  && FirstEnd(steps).Some? && r.reason == FirstEnd(steps).value.reason
                  && r.exitCode == Some(match FirstEnd(steps).value.exit case Some(code) => code case None => 0)
      ensures View()
              == if r.running then Next(old(View()), Poll)
              else Next(Next(Next(old(View()), Poll), Remove), Dispose(exit))
    {
      hide Run, FirstEnd;
      forall steps | View() == Run(steps) && !Live(View())
        ensures FirstEnd(steps).Some? && reason == FirstEnd(steps).value.reason
        ensures exitCode == match FirstEnd(steps).value.exit case Some(code) => code case None => 0
      {
        LastPollTellsTheEnd(steps);
      }
      r := TakeOutput();
      if !r.running {
        RemoveRecord();
        DisposePersistentState(exit);
      }
    }

    method TerminatePersistent(exit: Option<nat>)
      requires registered && Enabled(View(), Terminate(exit))
      modifies this
      ensures View() == Next(Next(Next(old(View()), Terminate(exit)), Remove), Dispose(exit))
    {
      ClosePersistentState(UserTerminated, exit);
      RemoveRecord();
      DisposePersistentState(exit);
    }
  }
}
