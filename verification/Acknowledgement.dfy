/** Acknowledgement handles shared between threads: every interleaving of the atomic steps of
    cloning, acknowledging, dropping and polling. */
module Acknowledgement {

  /** Where a handle is in its life.  `Coming` has been counted, while the clone call that makes it still borrows its
      parent; `Subtracted` has been counted down and `Stored` has set the cancellation flag, with the wake to come. */
  datatype Stage =
    | Coming(parent: nat)
    | Held
    | Subtracted(last: bool)
    | Acknowledged
    | Released
    | Stored
    | Dropped

  datatype Outcome = Completed | Canceled

  datatype Waiter =
    | Idle
    | Registered
    | Checked
    | Waiting
    | Ready(outcome: Outcome)
    | Gone

  datatype State = State(
    remaining: int,
    canceled: bool,
    slot: bool,
    woken: bool,
    handles: map<nat, Stage>,
    waiter: Waiter,
    observed: set<Outcome>)

  datatype Step =
    | CloneStart(h: nat, child: nat)
    | CloneEnd(h: nat)
    | Subtract(h: nat)
    | AcknowledgeEnd(h: nat)
    | DropHandle(h: nat)
    | CancelEnd(h: nat)
    | PollStart
    | PollCanceled
    | PollRemaining
    | DropWaiter

  /** One handle and its waiter. */
  function Start(): State {
    State(1, false, false, false, map[0 := Held], Idle, {})
  }

  /** Held, and not borrowed by a clone call. */
  predicate Free(s: State, h: nat) {
    h in s.handles && s.handles[h] == Held && forall c | c in s.handles :: s.handles[c] != Coming(h)
  }

  predicate MidPoll(s: State) { s.waiter == Registered || s.waiter == Checked }

  predicate Enabled(s: State, step: Step) {
    match step
    case CloneStart(h, child) => h in s.handles && s.handles[h] == Held && child !in s.handles
    case CloneEnd(h) => h in s.handles && s.handles[h].Coming?
    case Subtract(h) => Free(s, h)
    case AcknowledgeEnd(h) => h in s.handles && s.handles[h].Subtracted?
    case DropHandle(h) => Free(s, h) || (h in s.handles && s.handles[h] == Acknowledged)
    case CancelEnd(h) => h in s.handles && s.handles[h] == Stored
    case PollStart => !MidPoll(s) && s.waiter != Gone
    case PollCanceled => s.waiter == Registered
    case PollRemaining => s.waiter == Checked
    case DropWaiter => !MidPoll(s) && s.waiter != Gone
  }

  /** Taking the registered waker, if any, and waking it. */
  function Wake(s: State): State {
    if s.slot then s.(slot := false, woken := true) else s
  }

  function Apply(s: State, step: Step): State
    requires Enabled(s, step)
  {
    match step
    case CloneStart(h, child) => s.(remaining := s.remaining + 1, handles := s.handles[child := Coming(h)])
    case CloneEnd(h) => s.(handles := s.handles[h := Held])
    case Subtract(h) => s.(remaining := s.remaining - 1, handles := s.handles[h := Subtracted(s.remaining == 1)])
    case AcknowledgeEnd(h) =>
      var t := if s.handles[h].last then Wake(s) else s;
      t.(handles := t.handles[h := Acknowledged])
    case DropHandle(h) =>
      if s.handles[h] == Acknowledged then s.(handles := s.handles[h := Released])
      else s.(canceled := true, handles := s.handles[h := Stored])
    case CancelEnd(h) =>
      var t := Wake(s);
      t.(handles := t.handles[h := Dropped])
    case PollStart => s.(slot := true, woken := false, waiter := Registered)
    case PollCanceled =>
      if s.canceled then s.(waiter := Ready(Canceled), observed := s.observed + {Canceled}) else s.(waiter := Checked)
    case PollRemaining =>
      if s.remaining == 0 then s.(waiter := Ready(Completed), observed := s.observed + {Completed})
      else s.(waiter := Waiting)
    case DropWaiter => s.(waiter := Gone)
  }

  ghost predicate Next(s: State, t: State) {
    exists step :: Enabled(s, step) && t == Apply(s, step)
  }

  /** Any interleaving. */
  ghost predicate Run(run: seq<State>) {
    run != [] && run[0] == Start() && forall i :: 0 < i < |run| ==> Next(run[i - 1], run[i])
  }

  // ---------- What every step keeps ----------

  predicate HasAcknowledged(stage: Stage) { stage.Subtracted? || stage == Acknowledged || stage == Released }

  predicate WasDropped(stage: Stage) { stage == Stored || stage == Dropped }

  /** Live handles, and those dropped without being acknowledged. */
  function Outstanding(handles: map<nat, Stage>): set<nat> {
    set h | h in handles && !HasAcknowledged(handles[h])
  }

  predicate WakeComing(stage: Stage) { stage == Subtracted(true) || stage == Stored }

  ghost predicate SomeWake(s: State) {
    exists h :: h in s.handles && WakeComing(s.handles[h])
  }

  predicate Resolved(s: State) { s.canceled || s.remaining == 0 }

  /** The count is exact and the flag records a drop. */
  ghost predicate Counts(s: State) {
    s.remaining == |Outstanding(s.handles)| &&
    (s.canceled <==> exists h :: h in s.handles && WasDropped(s.handles[h]))
  }

  /** What was seen stays true. */
  ghost predicate Sound(s: State) {
    (Completed in s.observed ==> s.remaining == 0) && (Canceled in s.observed ==> s.canceled)
  }

  /** A waiter that saw nothing has a waker in place, or has been woken, and any resolution will reach it. */
  ghost predicate Reaches(s: State) {
    ((MidPoll(s) || s.waiter == Waiting) ==> s.slot || s.woken) &&
    (s.waiter == Checked && s.canceled ==> s.woken || SomeWake(s)) &&
    (s.waiter == Waiting && Resolved(s) ==> s.woken || SomeWake(s))
  }

  ghost predicate Invariant(s: State) {
    Counts(s) && Sound(s) && Reaches(s)
  }

  lemma StartHolds()
    ensures Invariant(Start())
  {
    assert Outstanding(Start().handles) == {0};
  }

  lemma CountsKept(s: State, step: Step)
    requires Counts(s) && Enabled(s, step)
    ensures Counts(Apply(s, step))
  {
    match step
    case CloneStart(h, child) => CloneCounts(s, h, child);
    case CloneEnd(h) => HandleCounts(s, step);
    case Subtract(h) => SubtractCounts(s, h);
    case AcknowledgeEnd(h) => HandleCounts(s, step);
    case DropHandle(h) => DropCounts(s, h);
    case CancelEnd(h) => CancelCounts(s, h);
    case _ => assert Apply(s, step).handles == s.handles;
  }

  lemma CloneCounts(s: State, h: nat, child: nat)
    requires Counts(s) && Enabled(s, CloneStart(h, child))
    ensures Counts(Apply(s, CloneStart(h, child)))
  {
    var t := Apply(s, CloneStart(h, child));
    assert t == s.(remaining := s.remaining + 1, handles := s.handles[child := Coming(h)]);
    hide Apply, Enabled;
    assert Outstanding(t.handles) == Outstanding(s.handles) + {child};
    DropsKept(s, t, child);
  }

  lemma SubtractCounts(s: State, h: nat)
    requires Counts(s) && Enabled(s, Subtract(h))
    ensures Counts(Apply(s, Subtract(h)))
  {
    var t := Apply(s, Subtract(h));
    OneFewer(s.handles, h, t.handles[h]);
    DropsKept(s, t, h);
  }

  lemma OneFewer(handles: map<nat, Stage>, h: nat, stage: Stage)
    requires h in handles && !HasAcknowledged(handles[h]) && HasAcknowledged(stage)
    ensures |Outstanding(handles[h := stage])| == |Outstanding(handles)| - 1
  {
    assert Outstanding(handles[h := stage]) == Outstanding(handles) - {h};
  }

  lemma HandleCounts(s: State, step: Step)
    requires Counts(s) && Enabled(s, step) && (step.CloneEnd? || step.AcknowledgeEnd?)
    ensures Counts(Apply(s, step))
  {
    var t := Apply(s, step);
    assert Outstanding(t.handles) == Outstanding(s.handles);
    DropsKept(s, t, step.h);
  }

  lemma DropCounts(s: State, h: nat)
    requires Counts(s) && Enabled(s, DropHandle(h))
    ensures Counts(Apply(s, DropHandle(h)))
  {
    var t := Apply(s, DropHandle(h));
    assert Outstanding(t.handles) == Outstanding(s.handles);
    if s.handles[h] == Acknowledged {
      DropsKept(s, t, h);
    } else {
      assert WasDropped(t.handles[h]);
    }
  }

  lemma CancelCounts(s: State, h: nat)
    requires Counts(s) && Enabled(s, CancelEnd(h))
    ensures Counts(Apply(s, CancelEnd(h)))
  {
    var t := Apply(s, CancelEnd(h));
    assert Outstanding(t.handles) == Outstanding(s.handles);
    assert WasDropped(s.handles[h]) && WasDropped(t.handles[h]);
  }

  /** A step of one handle that neither drops it nor undoes a drop. */
  lemma DropsKept(s: State, t: State, h: nat)
    requires Counts(s) && t.canceled == s.canceled && (h in s.handles ==> !WasDropped(s.handles[h]))
    requires h in t.handles && !WasDropped(t.handles[h]) && t.handles == s.handles[h := t.handles[h]]
    ensures t.canceled <==> exists k :: k in t.handles && WasDropped(t.handles[k])
  {
    if k :| k in s.handles && WasDropped(s.handles[k]) {
      assert t.handles[k] == s.handles[k];
    }
  }

  /** Nothing outstanding: no handle is left to clone, drop or acknowledge. */
  lemma NothingLeft(s: State, h: nat)
    requires Counts(s) && s.remaining == 0 && h in s.handles
    ensures HasAcknowledged(s.handles[h])
  {
    assert h !in Outstanding(s.handles);
  }

  lemma SoundKept(s: State, step: Step)
    requires Counts(s) && Sound(s) && Enabled(s, step)
    ensures Sound(Apply(s, step))
  {
    if s.remaining == 0 && (step.CloneStart? || step.Subtract?) {
      NothingLeft(s, step.h);
    }
  }

  lemma CompletedNotCanceled(s: State)
    requires Counts(s) && s.remaining == 0
    ensures !s.canceled
  {
    forall h | h in s.handles
      ensures !WasDropped(s.handles[h])
    {
      NothingLeft(s, h);
    }
  }

  lemma ReachesKept(s: State, step: Step)
    requires Counts(s) && Reaches(s) && Enabled(s, step)
    ensures Reaches(Apply(s, step))
  {
    var t := Apply(s, step);
    match step
    case CloneStart(h, child) =>
      if s.remaining == 0 { NothingLeft(s, h); }
      WakesKept(s, t, child);
    case CloneEnd(h) =>
      WakesKept(s, t, h);
    case Subtract(h) =>
      assert s.remaining == 1 ==> WakeComing(t.handles[h]);
      WakesKept(s, t, h);
    case AcknowledgeEnd(h) =>
      if !s.handles[h].last { WakesKept(s, t, h); }
    case DropHandle(h) =>
      if s.handles[h] == Acknowledged {
        WakesKept(s, t, h);
      } else {
        assert WakeComing(t.handles[h]);
      }
    case CancelEnd(h) =>
    case _ =>
      assert t.handles == s.handles;
      assert SomeWake(s) ==> SomeWake(t);
  }

  /** A step of one handle that owes no wake leaves the other wakes to come. */
  lemma WakesKept(s: State, t: State, h: nat)
    requires h in t.handles && t.handles == s.handles[h := t.handles[h]]
    requires h in s.handles ==> !WakeComing(s.handles[h])
    ensures SomeWake(s) ==> SomeWake(t)
  {
    if k :| k in s.handles && WakeComing(s.handles[k]) {
      assert t.handles[k] == s.handles[k];
    }
  }

  lemma InvariantKept(s: State, t: State)
    requires Invariant(s) && Next(s, t)
    ensures Invariant(t)
  {
    hide Counts, Sound, Reaches;
    var step :| Enabled(s, step) && t == Apply(s, step);
    CountsKept(s, step);
    SoundKept(s, step);
    ReachesKept(s, step);
  }

  lemma {:induction false} InvariantHolds(run: seq<State>, i: nat)
    requires Run(run) && i < |run|
    ensures Invariant(run[i])
  {
    hide Invariant, Next;
    StartHolds();
    if i > 0 {
      InvariantHolds(run, i - 1);
      InvariantKept(run[i - 1], run[i]);
    }
  }

  // ---------- Over every run ----------

  /** `remaining` counts live handles and handles dropped unacknowledged; a subtraction never underflows. */
  lemma Conservation(run: seq<State>, i: nat)
    requires Run(run) && i < |run|
    ensures run[i].remaining == |Outstanding(run[i].handles)|
    ensures forall h :: Enabled(run[i], Subtract(h)) ==> run[i].remaining >= 1
  {
    hide Run;
    InvariantHolds(run, i);
    var s := run[i];
    forall h | Enabled(s, Subtract(h))
      ensures s.remaining >= 1
    {
      assert h in Outstanding(s.handles);
    }
  }

  lemma {:induction false} HandlesStay(run: seq<State>, i: nat, j: nat)
    requires Run(run) && i <= j < |run|
    ensures run[i].handles.Keys <= run[j].handles.Keys
    ensures run[i].observed <= run[j].observed
    decreases j
  {
    hide Next;
    if i < j {
      HandlesStay(run, i, j - 1);
      StepKeeps(run[j - 1], run[j]);
    }
  }

  lemma StepKeeps(s: State, t: State)
    requires Next(s, t)
    ensures s.handles.Keys <= t.handles.Keys && s.observed <= t.observed
  {
    var step :| Enabled(s, step) && t == Apply(s, step);
    hide Next, Enabled;
    ApplyKeeps(s, step);
  }

  lemma ApplyKeeps(s: State, step: Step)
    requires Enabled(s, step)
    ensures s.handles.Keys <= Apply(s, step).handles.Keys && s.observed <= Apply(s, step).observed
    ensures Recorded(s) ==> Recorded(Apply(s, step))
  {}

  /** A waiter that completes has had every handle ever made acknowledged, then and ever after. */
  lemma CompletedMeansAll(run: seq<State>, i: nat, j: nat)
    requires Run(run) && i <= j < |run| && run[i].waiter == Ready(Completed)
    ensures forall h :: h in run[j].handles ==> HasAcknowledged(run[j].handles[h])
  {
    hide Run;
    InvariantHolds(run, j);
    ReadyRecorded(run, i);
    HandlesStay(run, i, j);
    forall h | h in run[j].handles
      ensures HasAcknowledged(run[j].handles[h])
    {
      NothingLeft(run[j], h);
    }
  }

  /** What the waiter returned is on record. */
  ghost predicate Recorded(s: State) { s.waiter.Ready? ==> s.waiter.outcome in s.observed }

  lemma {:induction false} ReadyRecorded(run: seq<State>, i: nat)
    requires Run(run) && i < |run|
    ensures Recorded(run[i])
  {
    hide Next;
    if i > 0 {
      ReadyRecorded(run, i - 1);
      RecordedKept(run[i - 1], run[i]);
    }
  }

  lemma RecordedKept(s: State, t: State)
    requires Recorded(s) && Next(s, t)
    ensures Recorded(t)
  {
    var step :| Enabled(s, step) && t == Apply(s, step);
    hide Next, Enabled, Recorded;
    ApplyKeeps(s, step);
  }

  /** No run returns both outcomes, however often it polls. */
  lemma OutcomesExclude(run: seq<State>, i: nat, j: nat)
    requires Run(run) && i < |run| && j < |run| && run[i].waiter == Ready(Completed)
    ensures run[j].waiter != Ready(Canceled)
  {
    hide Run;
    var last := if i < j then j else i;
    ReadyRecorded(run, i);
    ReadyRecorded(run, j);
    HandlesStay(run, i, last);
    HandlesStay(run, j, last);
    InvariantHolds(run, last);
    CompletedNotCanceled(run[last]);
  }

  /** Canceled is returned only after some handle was dropped without being acknowledged. */
  lemma CanceledMeansDropped(run: seq<State>, i: nat)
    requires Run(run) && i < |run| && run[i].waiter == Ready(Canceled)
    ensures exists h :: h in run[i].handles && WasDropped(run[i].handles[h])
  {
    hide Run;
    ReadyRecorded(run, i);
    InvariantHolds(run, i);
  }

  /** No wake is lost: a pending waiter of a resolved acknowledgement has been woken, unless a handle is still about
      to. */
  lemma NoLostWake(run: seq<State>, i: nat)
    requires Run(run) && i < |run| && run[i].waiter == Waiting && Resolved(run[i]) && !SomeWake(run[i])
    ensures run[i].woken
  {
    hide Run;
    InvariantHolds(run, i);
  }

  /** The wake about to come reaches the waiter. */
  lemma WakeReaches(run: seq<State>, i: nat, step: Step)
    requires Run(run) && i < |run| && run[i].waiter == Waiting && Enabled(run[i], step)
    requires step.CancelEnd? || (step.AcknowledgeEnd? && run[i].handles[step.h].last)
    ensures Apply(run[i], step).woken
  {
    hide Run;
    InvariantHolds(run, i);
  }

  lemma ResolvedKept(s: State, t: State)
    requires Counts(s) && Resolved(s) && Next(s, t)
    ensures Resolved(t) && (s.canceled ==> t.canceled) && (s.remaining == 0 ==> t.remaining == 0)
  {
    var step :| Enabled(s, step) && t == Apply(s, step);
    if s.remaining == 0 && (step.CloneStart? || step.Subtract?) {
      NothingLeft(s, step.h);
    }
  }

  /** Polling a resolved acknowledgement: the steps of the poll, with anything in between, end in an outcome. */
  lemma {:induction false} ResolvedPollEnds(run: seq<State>, i: nat, j: nat)
    requires Run(run) && i <= j < |run| && run[i].waiter == Registered && Resolved(run[i])
    requires forall k :: i <= k < j ==> MidPoll(run[k])
    ensures MidPoll(run[j]) || run[j].waiter.Ready?
    ensures Resolved(run[j]) && (run[j].waiter == Checked ==> run[j].remaining == 0)
    decreases j
  {
    hide Run, Next, Invariant;
    if i < j {
      ResolvedPollEnds(run, i, j - 1);
      InvariantHolds(run, j - 1);
      assert Next(run[j - 1], run[j]) by { RunNext(run, j); }
      PollStep(run[j - 1], run[j]);
    }
  }

  lemma RunNext(run: seq<State>, j: nat)
    requires Run(run) && 0 < j < |run|
    ensures Next(run[j - 1], run[j])
  {}

  lemma PollStep(s: State, t: State)
    requires Invariant(s) && Next(s, t) && MidPoll(s) && Resolved(s) && (s.waiter == Checked ==> s.remaining == 0)
    ensures (MidPoll(t) || t.waiter.Ready?) && Resolved(t) && (t.waiter == Checked ==> t.remaining == 0)
  {
    ResolvedKept(s, t);
  }

  // ---------- What a poll returns ----------

  /** A poll, with anything in between its steps, ends in an outcome or in waiting; it waits with its waker in place or
      woken, and it waits if the acknowledgement was not resolved meanwhile. */
  lemma PollEnds(run: seq<State>, i: nat, j: nat)
    requires Run(run) && i < j < |run| && run[i].waiter == Registered
    requires (forall k :: i <= k < j ==> MidPoll(run[k])) && !MidPoll(run[j])
    ensures run[j].waiter.Ready? || run[j].waiter == Waiting
    ensures run[j].waiter == Waiting ==> run[j].slot || run[j].woken
    ensures run[j].waiter == Waiting ==> run[j - 1].remaining != 0
    ensures run[j].waiter == Ready(Canceled) ==> run[j].canceled
    ensures run[j].waiter == Ready(Completed) ==> run[j].remaining == 0
    ensures (forall k :: i <= k < j ==> !Resolved(run[k])) ==> run[j].waiter == Waiting
  {
    hide Run, Next;
    InvariantHolds(run, j);
    RunNext(run, j);
    PollStepEnds(run[j - 1], run[j]);
  }

  /** Only the steps of the waiter change what it is doing and what it has seen. */
  lemma WaiterStep(s: State, step: Step)
    requires Enabled(s, step)
    ensures var t := Apply(s, step);
      match step
      case PollStart => t.waiter == Registered && t.observed == s.observed && t.slot && !t.woken
      case PollCanceled => s.waiter == Registered
      case PollRemaining => s.waiter == Checked && t.waiter != Gone
      case DropWaiter => !MidPoll(s) && t.waiter == Gone && t.observed == s.observed
      case _ => t.waiter == s.waiter && t.observed == s.observed && (t.slot ==> s.slot)
    ensures var t := Apply(s, step);
      (step.PollCanceled? || step.PollRemaining? || step.DropWaiter?) ==> t.slot == s.slot && t.woken == s.woken
    ensures step.PollStart? ==> s.waiter != Gone
  {}

  /** A wake takes the waker. */
  lemma WakeStep(s: State, step: Step)
    requires Enabled(s, step)
    ensures var t := Apply(s, step); t.woken && !s.woken ==> s.slot && !t.slot
    ensures var t := Apply(s, step); s.woken ==> t.woken || step.PollStart?
  {}

  lemma PollStepEnds(s: State, t: State)
    requires Next(s, t) && MidPoll(s) && !MidPoll(t)
    ensures if s.waiter == Registered then s.canceled && t.waiter == Ready(Canceled)
            else t.waiter == if s.remaining == 0 then Ready(Completed) else Waiting
    ensures t.remaining == s.remaining && t.canceled == s.canceled
  {}

  /** From waiting, with no further poll, to the resolution: once no wake is owed any more, the waiter was woken. */
  lemma WaiterWoken(run: seq<State>, i: nat, j: nat, l: nat)
    requires Run(run) && i < j <= l < |run| && run[i].waiter == Registered
    requires (forall k :: i <= k < j ==> MidPoll(run[k])) && !run[j].waiter.Ready?
    requires forall k :: j <= k <= l ==> !MidPoll(run[k]) && run[k].waiter != Gone
    requires Resolved(run[l]) && !SomeWake(run[l])
    ensures run[l].waiter == Waiting && run[l].woken
    decreases l
  {
    hide Run, Next;
    PollEnds(run, i, j);
    StaysWaiting(run, j, l);
    NoLostWake(run, l);
  }

  lemma {:induction false} StaysWaiting(run: seq<State>, j: nat, l: nat)
    requires Run(run) && j <= l < |run| && run[j].waiter == Waiting
    requires forall k :: j <= k <= l ==> !MidPoll(run[k]) && run[k].waiter != Gone
    ensures run[l].waiter == Waiting
    decreases l
  {
    hide Run, Next;
    if j < l {
      StaysWaiting(run, j, l - 1);
      RunNext(run, l);
      WaitStep(run[l - 1], run[l]);
    }
  }

  lemma WaitStep(s: State, t: State)
    requires Next(s, t) && s.waiter == Waiting && !MidPoll(t) && t.waiter != Gone
    ensures t.waiter == Waiting
  {
    var step :| Enabled(s, step) && t == Apply(s, step);
    WaiterStep(s, step);
    hide Next, Enabled, Apply;
  }

  /** A wake that is owed can be paid at once, and pays that debt. */
  lemma OwedWake(s: State, h: nat)
    requires h in s.handles && WakeComing(s.handles[h])
    ensures var step := if s.handles[h] == Stored then CancelEnd(h) else AcknowledgeEnd(h);
      Enabled(s, step) && var t := Apply(s, step);
      !WakeComing(t.handles[h]) && (s.slot ==> t.woken) && (s.woken ==> t.woken) &&
      t.handles == s.handles[h := t.handles[h]] && t.waiter == s.waiter
  {}

  /** From every point of every run, a poll of an acknowledgement that is not resolved can run to waiting. */
  lemma CanWait(run: seq<State>, i: nat) returns (longer: seq<State>)
    requires Run(run) && i < |run| && Enabled(run[i], PollStart) && !Resolved(run[i])
    ensures Run(longer) && |longer| == i + 4 && longer[..i + 1] == run[..i + 1]
    ensures longer[i + 1].waiter == Registered && MidPoll(longer[i + 2])
    ensures longer[i + 3].waiter == Waiting && longer[i + 3].slot && !longer[i + 3].woken && !Resolved(longer[i + 3])
    ensures longer[i + 3].handles == run[i].handles
  {
    var a := Apply(run[i], PollStart);
    var b := Apply(a, PollCanceled);
    var c := Apply(b, PollRemaining);
    assert Next(run[i], a) && Next(a, b) && Next(b, c);
    hide Next, Apply, Enabled;
    longer := run[..i + 1] + [a, b, c];
    forall k | 0 < k < |longer|
      ensures Next(longer[k - 1], longer[k])
    {
      if k <= i { RunNext(run, k); }
    }
  }

  lemma StepIsNext(s: State, step: Step)
    requires Enabled(s, step)
    ensures Next(s, Apply(s, step))
  {}

  /** A run with one more step. */
  lemma Longer(run: seq<State>, step: Step) returns (longer: seq<State>)
    requires Run(run) && Enabled(run[|run| - 1], step)
    ensures Run(longer) && longer == run + [Apply(run[|run| - 1], step)]
  {
    var last := run[|run| - 1];
    longer := run + [Apply(last, step)];
    StepIsNext(last, step);
    hide Next, Apply, Enabled;
    forall k | 0 < k < |longer|
      ensures Next(longer[k - 1], longer[k])
    {
      if k < |run| { RunNext(run, k); }
    }
  }

  /** One handle, and a poll that waits. */
  lemma OneWaits() returns (run: seq<State>)
    ensures Run(run) && |run| == 4 && run[3] == State(1, false, true, false, map[0 := Held], Waiting, {})
  {
    run := [Start()];
    assert Run(run);
    hide Run, Next;
    run := Longer(run, PollStart);
    run := Longer(run, PollCanceled);
    run := Longer(run, PollRemaining);
  }

  /** One handle, a poll, and then the acknowledgement: the poll waits and is woken, and the next one completes. */
  lemma WokenByAcknowledgement() returns (run: seq<State>)
    ensures Run(run) && |run| == 9 && run[3].waiter == Waiting && !run[3].woken && !Resolved(run[3])
    ensures run[5].waiter == Waiting && run[5].woken && run[5].remaining == 0
    ensures run[8].waiter == Ready(Completed)
  {
    hide Run, Next;
    run := OneWaits();
    run := Longer(run, Subtract(0));
    assert run[4] == State(0, false, true, false, map[0 := Subtracted(true)], Waiting, {});
    run := Longer(run, AcknowledgeEnd(0));
    assert run[5] == State(0, false, false, true, map[0 := Acknowledged], Waiting, {});
    run := Longer(run, PollStart);
    run := Longer(run, PollCanceled);
    run := Longer(run, PollRemaining);
  }

  /** One handle, a poll, and then the handle is dropped: the poll waits and is woken, and the next one is canceled. */
  lemma WokenByDrop() returns (run: seq<State>)
    ensures Run(run) && |run| == 8 && run[3].waiter == Waiting && !run[3].woken && !Resolved(run[3])
    ensures run[5].waiter == Waiting && run[5].woken && run[5].canceled
    ensures run[7].waiter == Ready(Canceled)
  {
    hide Run, Next;
    run := OneWaits();
    run := Longer(run, DropHandle(0));
    assert run[4] == State(1, true, true, false, map[0 := Stored], Waiting, {});
    run := Longer(run, CancelEnd(0));
    assert run[5] == State(1, true, false, true, map[0 := Dropped], Waiting, {});
    run := Longer(run, PollStart);
    run := Longer(run, PollCanceled);
  }

  /** Between polls, the waiter can be dropped. */
  lemma CanDrop(run: seq<State>) returns (longer: seq<State>)
    requires Run(run) && !MidPoll(run[|run| - 1]) && run[|run| - 1].waiter != Gone
    ensures Run(longer) && |longer| == |run| + 1 && longer[..|run|] == run && longer[|run|].waiter == Gone
    ensures longer[|run|].handles == run[|run| - 1].handles
  {
    hide Run;
    longer := Longer(run, DropWaiter);
  }

  /** There is no waker before the first poll, and a waker is taken when it is woken. */
  lemma {:induction false} WakerTaken(run: seq<State>, i: nat)
    requires Run(run) && i < |run|
    ensures run[i].waiter == Idle ==> !run[i].slot && !run[i].woken
    ensures run[i].woken ==> !run[i].slot
  {
    hide Run, Next;
    if i > 0 {
      WakerTaken(run, i - 1);
      RunNext(run, i);
      WakerStep(run[i - 1], run[i]);
    } else {
      RunStart(run);
    }
  }

  lemma WakerStep(s: State, t: State)
    requires Next(s, t) && (s.waiter == Idle ==> !s.slot && !s.woken) && (s.woken ==> !s.slot)
    ensures (t.waiter == Idle ==> !t.slot && !t.woken) && (t.woken ==> !t.slot)
  {
    var step :| Enabled(s, step) && t == Apply(s, step);
    WaiterStep(s, step);
    WakeStep(s, step);
    hide Next, Enabled, Apply;
  }

  /** A wake is never for nothing: whoever was woken finds the acknowledgement resolved. */
  lemma {:induction false} WokenResolved(run: seq<State>, i: nat)
    requires Run(run) && i < |run|
    ensures run[i].woken ==> Resolved(run[i])
    ensures forall h :: h in run[i].handles && run[i].handles[h] == Subtracted(true) ==> run[i].remaining == 0
  {
    hide Run, Next;
    if i > 0 {
      WokenResolved(run, i - 1);
      InvariantHolds(run, i - 1);
      RunNext(run, i);
      WakeCause(run[i - 1], run[i]);
    } else {
      RunStart(run);
    }
  }

  lemma RunStart(run: seq<State>)
    requires Run(run)
    ensures run[0] == Start()
  {}

  lemma WakeCause(s: State, t: State)
    requires Counts(s) && Next(s, t) && (s.woken ==> Resolved(s))
    requires forall h :: h in s.handles && s.handles[h] == Subtracted(true) ==> s.remaining == 0
    ensures t.woken ==> Resolved(t)
    ensures forall h :: h in t.handles && t.handles[h] == Subtracted(true) ==> t.remaining == 0
  {
    var step :| Enabled(s, step) && t == Apply(s, step);
    hide Next;
    LastIsZero(s, step);
    if t.woken {
      if step.CancelEnd? { assert WasDropped(s.handles[step.h]); }
      ResolvedKept(s, t);
    }
  }

  lemma LastIsZero(s: State, step: Step)
    requires Counts(s) && Enabled(s, step)
    requires forall h :: h in s.handles && s.handles[h] == Subtracted(true) ==> s.remaining == 0
    ensures var t := Apply(s, step);
      forall h :: h in t.handles && t.handles[h] == Subtracted(true) ==> t.remaining == 0
  {
    var t := Apply(s, step);
    forall h | h in t.handles && t.handles[h] == Subtracted(true)
      ensures t.remaining == 0
    {
      if h in s.handles && s.handles[h] == Subtracted(true) && (step.CloneStart? || step.Subtract?) {
        NothingLeft(s, step.h);
      }
    }
  }

  /** A dropped waiter is never polled again. */
  lemma {:induction false} DroppedStays(run: seq<State>, i: nat, j: nat)
    requires Run(run) && i < j < |run| && run[i].waiter != Gone && run[i + 1].waiter == Gone
    ensures run[j].waiter == Gone && run[j].observed == run[i].observed
    decreases j
  {
    hide Run, Next;
    RunNext(run, j);
    if i + 1 < j { DroppedStays(run, i, j - 1); }
    GoneStep(run[j - 1], run[j]);
  }

  lemma GoneStep(s: State, t: State)
    requires Next(s, t)
    ensures s.waiter == Gone ==> t.waiter == Gone
    ensures t.waiter == Gone ==> t.observed == s.observed
  {
    var step :| Enabled(s, step) && t == Apply(s, step);
    WaiterStep(s, step);
    hide Next, Enabled, Apply;
  }
}
