/** The wake-up protocol between senders, Close and the writer of a connection
    (main/messagequeue.go, main/network.go), as a transition system: any number
    of threads in Put and in Close, one writer that is neither sleeping nor
    throttled, the queue mutex, and the one-slot channel DataAvailable. */
module Wakeup {
  import opened MessageQueue

  // Put checks Closed before it takes the lock, and notifies while it holds it.
  datatype PutPc = PutIdle | PutChecked | PutHolding

  // Close sets the flag and notifies in two steps, without the lock.
  datatype ClosePc = CloseIdle | CloseChecked | CloseFlagged

  // Collecting has taken this many bytes from the queue so far.
  datatype WriterPc = Parked | Checking | Collecting(bytes: nat) | Writing | Exited

  datatype Lock = Free | HeldBy(i: nat)

  datatype State = State(
    maxSize: nat,
    entries: seq<Entry>,
    closed: bool,
    token: bool,
    lock: Lock,
    putters: seq<PutPc>,
    closers: seq<ClosePc>,
    writer: WriterPc,
    sent: seq<Entry>, // everything the writer has taken so far
    clock: int)

  datatype Step =
    | PutCheck(i: nat)
    | PutStore(i: nat, e: Entry, stored: seq<Entry>)
    | PutNotify(i: nat)
    | CloseCheck(j: nat)
    | CloseFlag(j: nat)
    | CloseNotify(j: nat)
    | WriterReceive
    | WriterCheck
    | WriterPop(full: bool)
    | WriterWritten
    | Dump(pruned: seq<Entry>)
    | Tick(time: int)

  ghost predicate Init(s: State) {
    && s.entries == [] && !s.closed && !s.token && s.lock == Free && s.writer == Parked
    && (forall i :: 0 <= i < |s.putters| ==> s.putters[i] == PutIdle)
    && (forall j :: 0 <= j < |s.closers| ==> s.closers[j] == CloseIdle)
  }

  ghost predicate Enabled(s: State, step: Step) {
    match step
    case PutCheck(i) => i < |s.putters| && s.putters[i] == PutIdle
    case PutStore(i, e, stored) =>
      && i < |s.putters| && s.putters[i] == PutChecked && s.lock == Free
      && AfterPut(s.entries, s.maxSize, e, s.clock, stored)
    case PutNotify(i) => i < |s.putters| && s.putters[i] == PutHolding
    case CloseCheck(j) => j < |s.closers| && s.closers[j] == CloseIdle
    case CloseFlag(j) => j < |s.closers| && s.closers[j] == CloseChecked
    case CloseNotify(j) => j < |s.closers| && s.closers[j] == CloseFlagged
    case WriterReceive => s.writer == Parked && s.token
    case WriterCheck => s.writer == Checking
    // a packet is only full once it holds something
    case WriterPop(full) =>
      s.writer.Collecting? && s.lock == Free && (full ==> Taken(s) > 0)
    case WriterWritten => s.writer == Writing
    case Dump(pruned) => s.lock == Free && PruneSpec(Usable(s.entries, s.clock), s.maxSize, pruned)
    case Tick(time) => time >= s.clock
  }

  // Bytes collected once the next usable message is taken.
  ghost function Taken(s: State): nat
    requires s.writer.Collecting?
  {
    var f := FirstUsable(s.entries, s.clock);
    if f < |s.entries| then s.writer.bytes + |s.entries[f].data| else 0
  }

  ghost function Apply(s: State, step: Step): State
    requires Enabled(s, step)
  {
    match step
    case PutCheck(i) =>
      s.(putters := s.putters[i := if s.closed then PutIdle else PutChecked])
    case PutStore(i, e, stored) =>
      s.(putters := s.putters[i := PutHolding], entries := stored, lock := HeldBy(i))
    case PutNotify(i) =>
      s.(putters := s.putters[i := PutIdle], token := s.token || s.entries != [], lock := Free)
    case CloseCheck(j) =>
      s.(closers := s.closers[j := if s.closed then CloseIdle else CloseChecked])
    case CloseFlag(j) =>
      s.(closers := s.closers[j := CloseFlagged], closed := true)
    case CloseNotify(j) =>
      s.(closers := s.closers[j := CloseIdle], token := true)
    case WriterReceive =>
      s.(token := false, writer := Checking)
    case WriterCheck =>
      s.(writer := if s.closed then Exited else Collecting(0))
    case WriterPop(full) =>
      var f := FirstUsable(s.entries, s.clock);
      if f < |s.entries| then
        s.(entries := s.entries[f + 1..], sent := s.sent + [s.entries[f]],
           writer := if full then Writing else Collecting(Taken(s)))
      else
        s.(entries := [], writer := if s.writer.bytes == 0 then Parked else Writing)
    case WriterWritten =>
      s.(writer := Checking)
    case Dump(pruned) =>
      s.(entries := pruned)
    case Tick(time) =>
      s.(clock := time)
  }

  ghost predicate Next(s: State, s': State) {
    exists step :: Enabled(s, step) && s' == Apply(s, step)
  }

  // A run from an initial state.
  ghost predicate Run(t: seq<State>) {
    t != [] && Init(t[0]) && forall k :: 0 <= k < |t| - 1 ==> Next(t[k], t[k + 1])
  }

  // ----- Safety -----

  ghost predicate BetweenSteps(s: State) {
    exists j :: 0 <= j < |s.closers| && s.closers[j] == CloseFlagged
  }

  // The writer waits on DataAvailable and nothing is there to wake it.
  ghost predicate Asleep(s: State) {
    s.writer == Parked && !s.token
  }

  // Nobody is in the middle of a Put, so what is queued is there to be sent.
  ghost predicate NothingMissed(s: State) {
    Asleep(s) && s.lock == Free ==> s.entries == []
  }

  // A close the writer has not seen yet still has its token on the way.
  ghost predicate CloseAnnounced(s: State) {
    s.closed && !s.token && s.writer != Checking && s.writer != Exited ==> BetweenSteps(s)
  }

  ghost predicate MutualExclusion(s: State) {
    && (s.lock.HeldBy? ==> s.lock.i < |s.putters|)
    && forall i :: 0 <= i < |s.putters| ==> (s.putters[i] == PutHolding <==> s.lock == HeldBy(i))
  }

  ghost predicate Invariant(s: State) {
    NothingMissed(s) && CloseAnnounced(s) && MutualExclusion(s) && (s.writer == Exited ==> s.closed)
  }

  lemma EmptyStaysEmpty(now: int, maxSize: nat, r: seq<Entry>)
    requires PruneSpec(Usable([], now), maxSize, r)
    ensures r == []
  {
  }

  lemma CloserRemains(s: State, s': State)
    requires BetweenSteps(s) && s'.closers == s.closers
    ensures BetweenSteps(s')
  {
  }

  lemma PutStepKeeps(s: State, step: Step)
    requires Invariant(s) && Enabled(s, step) && (step.PutCheck? || step.PutStore? || step.PutNotify?)
    ensures Invariant(Apply(s, step))
  {
    if BetweenSteps(s) {
      CloserRemains(s, Apply(s, step));
    }
  }

  lemma CloseStepKeeps(s: State, step: Step)
    requires Invariant(s) && Enabled(s, step) && (step.CloseCheck? || step.CloseFlag? || step.CloseNotify?)
    ensures Invariant(Apply(s, step))
  {
    var s' := Apply(s, step);
    if step.CloseFlag? {
      assert s'.closers[step.j] == CloseFlagged;
    } else if step.CloseCheck? && BetweenSteps(s) {
      var j :| 0 <= j < |s.closers| && s.closers[j] == CloseFlagged;
      assert s'.closers[j] == CloseFlagged;
    }
  }

  lemma WriterStepKeeps(s: State, step: Step)
    requires Invariant(s) && Enabled(s, step)
    requires step.WriterReceive? || step.WriterCheck? || step.WriterPop? || step.WriterWritten?
    ensures Invariant(Apply(s, step))
  {
    if BetweenSteps(s) {
      CloserRemains(s, Apply(s, step));
    }
  }

  lemma OtherStepKeeps(s: State, step: Step)
    requires Invariant(s) && Enabled(s, step) && (step.Dump? || step.Tick?)
    ensures Invariant(Apply(s, step))
  {
    if BetweenSteps(s) {
      CloserRemains(s, Apply(s, step));
    }
    if step.Dump? && s.entries == [] {
      EmptyStaysEmpty(s.clock, s.maxSize, step.pruned);
    }
  }

  lemma StepKeeps(s: State, s': State)
    requires Invariant(s) && Next(s, s')
    ensures Invariant(s')
  {
    hide Invariant, Enabled, Apply;
    var step :| Enabled(s, step) && s' == Apply(s, step);
    match step
    case PutCheck(_) => PutStepKeeps(s, step);
    case PutStore(_, _, _) => PutStepKeeps(s, step);
    case PutNotify(_) => PutStepKeeps(s, step);
    case CloseCheck(_) => CloseStepKeeps(s, step);
    case CloseFlag(_) => CloseStepKeeps(s, step);
    case CloseNotify(_) => CloseStepKeeps(s, step);
    case WriterReceive => WriterStepKeeps(s, step);
    case WriterCheck => WriterStepKeeps(s, step);
    case WriterPop(_) => WriterStepKeeps(s, step);
    case WriterWritten => WriterStepKeeps(s, step);
    case Dump(_) => OtherStepKeeps(s, step);
    case Tick(_) => OtherStepKeeps(s, step);
  }

  lemma {:induction false} EveryStateInvariant(t: seq<State>, k: nat)
    requires Run(t) && k < |t|
    ensures Invariant(t[k])
  {
    hide Next;
    if k > 0 {
      EveryStateInvariant(t, k - 1);
      assert Next(t[k - 1], t[k]);
      StepKeeps(t[k - 1], t[k]);
    }
  }

  // In every interleaving: a writer asleep on DataAvailable means that nothing is
  // queued unless a Put is still to notify, and that a close is still to be
  // announced if the queue is closed. The writer leaves only a closed queue.
  lemma NoLostWakeup(t: seq<State>, k: nat)
    requires Run(t) && k < |t|
    ensures Asleep(t[k]) && t[k].entries != [] ==>
      exists i :: 0 <= i < |t[k].putters| && t[k].lock == HeldBy(i) && t[k].putters[i] == PutHolding
    ensures Asleep(t[k]) && t[k].closed ==> BetweenSteps(t[k])
    ensures t[k].writer == Exited ==> t[k].closed
  {
    hide Run;
    EveryStateInvariant(t, k);
  }

  // And the Put that is still to notify does wake the writer.
  lemma PendingPutWakes(s: State, i: nat)
    requires Invariant(s) && i < |s.putters| && s.putters[i] == PutHolding && s.entries != []
    ensures Enabled(s, PutNotify(i)) && !Asleep(Apply(s, PutNotify(i)))
  {
  }

  // ----- Progress -----

  predicate IsWriterStep(step: Step) {
    step.WriterReceive? || step.WriterCheck? || step.WriterPop? || step.WriterWritten?
  }

  // Nobody waits for ever: the writer can go on unless it is asleep, has left or
  // waits for the lock, and a Put that holds the lock can always go on.
  lemma NoDeadlock(s: State)
    requires Invariant(s)
    ensures (exists step :: IsWriterStep(step) && Enabled(s, step)) <==>
      !Asleep(s) && s.writer != Exited && (s.writer.Collecting? ==> s.lock == Free)
    ensures s.lock.HeldBy? ==> Enabled(s, PutNotify(s.lock.i)) && Apply(s, PutNotify(s.lock.i)).lock == Free
  {
    match s.writer
    case Parked =>
      assert s.token ==> Enabled(s, WriterReceive);
    case Checking =>
      assert Enabled(s, WriterCheck);
    case Collecting(_) =>
      assert s.lock == Free ==> Enabled(s, WriterPop(false));
    case Writing =>
      assert Enabled(s, WriterWritten);
    case Exited =>
  }

  // How many steps the writer has left on its own.
  function StepsLeft(s: State): nat {
    8 * |s.entries| + (if s.token then 8 else 0) +
    match s.writer
    case Parked => 0
    case Checking => 3
    case Collecting(bytes) => if bytes == 0 then 2 else 5
    case Writing => 4
    case Exited => 0
  }

  // A step of the writer leaves alone what is not its own, comes nearer to the
  // end, and neither loses nor repeats a message that has not expired.
  lemma WriterStepProgress(s: State, step: Step)
    requires Enabled(s, step) && IsWriterStep(step)
    ensures var s' := Apply(s, step);
            && s'.closed == s.closed && s'.lock == s.lock && s'.putters == s.putters
            && s'.closers == s.closers && s'.clock == s.clock
            && StepsLeft(s') < StepsLeft(s)
            && s'.sent + Usable(s'.entries, s'.clock) == s.sent + Usable(s.entries, s.clock)
  {
    hide Usable, FirstUsable;
    if step.WriterPop? {
      UsableFromFirst(s.entries, s.clock);
      var f := FirstUsable(s.entries, s.clock);
      if f < |s.entries| {
        assert s.sent + ([s.entries[f]] + Usable(s.entries[f + 1..], s.clock))
            == s.sent + [s.entries[f]] + Usable(s.entries[f + 1..], s.clock);
      } else {
        UsableNone([], s.clock);
      }
    }
  }

  // The writer by itself, from any state.
  ghost predicate WriterAlone(t: seq<State>) {
    t != [] && forall k :: 0 <= k < |t| - 1 ==> WriterMoves(t[k], t[k + 1])
  }

  ghost predicate WriterMoves(s: State, s': State) {
    exists step :: IsWriterStep(step) && Enabled(s, step) && s' == Apply(s, step)
  }

  lemma {:induction false} WriterAloneProgress(t: seq<State>, k: nat)
    requires WriterAlone(t) && Invariant(t[0]) && k < |t|
    ensures Invariant(t[k]) && k + StepsLeft(t[k]) <= StepsLeft(t[0])
    ensures t[k].closed == t[0].closed && t[k].lock == t[0].lock && t[k].clock == t[0].clock
    ensures t[k].sent + Usable(t[k].entries, t[k].clock) == t[0].sent + Usable(t[0].entries, t[0].clock)
  {
    hide Invariant, Enabled, Apply, Usable, StepsLeft;
    if k > 0 {
      WriterAloneProgress(t, k - 1);
      assert WriterMoves(t[k - 1], t[k]);
      var step :| IsWriterStep(step) && Enabled(t[k - 1], step) && t[k] == Apply(t[k - 1], step);
      WriterStepProgress(t[k - 1], step);
      WriterStepKeeps(t[k - 1], step);
    }
  }

  // Left to itself, the writer stops after a bounded number of steps. If the queue
  // is open, nobody is inside a Put and the writer has not left, it stops asleep,
  // with everything sent that was queued and had not expired, in order.
  lemma WriterDrains(t: seq<State>)
    requires WriterAlone(t) && Invariant(t[0])
    ensures |t| - 1 <= StepsLeft(t[0])
    ensures var end := t[|t| - 1];
            !(exists step :: IsWriterStep(step) && Enabled(end, step)) && !t[0].closed && t[0].lock == Free ==>
              Asleep(end) && end.entries == [] && end.sent == t[0].sent + Usable(t[0].entries, t[0].clock)
  {
    hide Enabled, Apply, Usable, StepsLeft;
    var end := t[|t| - 1];
    WriterAloneProgress(t, |t| - 1);
    NoDeadlock(end);
    UsableNone([], end.clock);
    if Asleep(end) && end.entries == [] {
      assert end.sent + [] == end.sent;
    }
  }
}
