/** The deterministic executor: a simulated clock, a heap of alarms, a queue of ready tasks and the event loop.

    What a poll does is arbitrary: a script lists, for every poll of a run, the tasks it spawns and wakes, the
    sleepers it polls, and whether it completes.  The theorems hold for every script and every shuffle. */
module Executor {
  import opened Effects
  import opened Wrappers

  datatype Firing = Firing(alarm: Alarm, at: nat)

  datatype Mode = Root | Work(present: bool)

  datatype Outcome = Continue | Complete | Timeout | Stalled

  /** The turn went on after its batch. */
  predicate Settled(outcome: Outcome) { outcome.Continue? || outcome.Stalled? }

  /** Everything the executor does not choose: what each poll does, when sleepers are due, and the order of the batch
      drained at a time. */
  datatype Script = Script(
    polls: nat -> PollResult,
    deadlines: nat -> nat,
    shuffle: (nat, seq<nat>) -> seq<nat>)

  ghost predicate Shuffles(script: Script) {
    forall at: nat, queue: seq<nat> :: multiset(script.shuffle(at, queue)) == multiset(queue)
  }

  function Alarms(fired: seq<Firing>): (r: seq<Alarm>)
    ensures |r| == |fired| && forall i :: 0 <= i < |fired| ==> r[i] == fired[i].alarm
  {
    seq(|fired|, i requires 0 <= i < |fired| => fired[i].alarm)
  }

  ghost predicate IsFirst(next: Alarm, sleeping: multiset<Alarm>) {
    next in sleeping && forall a :: a in sleeping ==> next.time <= a.time
  }

  lemma {:induction false} FirstExists(sleeping: multiset<Alarm>)
    requires sleeping != multiset{}
    ensures exists next :: IsFirst(next, sleeping)
    decreases |sleeping|
  {
    var some :| some in sleeping;
    var rest := sleeping - multiset{some};
    assert sleeping == rest + multiset{some};
    if rest == multiset{} {
      assert IsFirst(some, sleeping);
    } else {
      FirstExists(rest);
      var next :| IsFirst(next, rest);
      assert IsFirst(if some.time <= next.time then some else next, sleeping);
    }
  }

  function WorkTasks(n: nat): (r: map<nat, Mode>)
    ensures forall id: nat :: id in r <==> id < n
    ensures forall id :: id in r ==> r[id] == Work(true)
  {
    if n == 0 then map[] else WorkTasks(n - 1)[n - 1 := Work(true)]
  }

  /** Every task ever registered is running, with its future in place, or has completed. */
  ghost predicate TasksKnown(root: nat, counter: nat, running: map<nat, Mode>, completed: set<nat>) {
    (forall id: nat :: id < counter <==> id in running || id in completed) &&
    (forall id :: id in running ==> id !in completed && running[id] == if id == root then Root else Work(true)) &&
    root in running
  }

  ghost predicate IdsKnown(counter: nat, ready: seq<nat>, pushed: multiset<Alarm>) {
    (forall i :: 0 <= i < |ready| ==> ready[i] < counter) && forall a :: a in pushed ==> a.id < counter
  }

  /** Every alarm ever set is still queued or fired once, at its deadline or less than a cycle after. */
  ghost predicate AlarmsExact(cycle: nat, time: nat, pushed: multiset<Alarm>, sleeping: multiset<Alarm>,
                              fired: seq<Firing>)
  {
    cycle >= 1 && pushed == sleeping + multiset(Alarms(fired)) &&
    (forall i :: 0 <= i < |fired| ==>
                   fired[i].alarm.time <= fired[i].at < fired[i].alarm.time + cycle && fired[i].at <= time) &&
    forall i, j :: 0 <= i < j < |fired| ==> fired[i].at <= fired[j].at
  }

  /** No queued alarm is due. */
  ghost predicate Ahead(time: nat, sleeping: multiset<Alarm>) {
    forall a :: a in sleeping ==> a.time > time
  }

  /** A task whose poll completed is not polled again. */
  ghost predicate PollsEnd(root: nat, polled: seq<(nat, bool)>, completed: set<nat>) {
    (forall i :: 0 <= i < |polled| && polled[i].1 && polled[i].0 != root ==> polled[i].0 in completed) &&
    forall i, j :: 0 <= i < j < |polled| && polled[i].1 && polled[i].0 != root ==> polled[j].0 != polled[i].0
  }

  /** Some alarms of `was` fired at time `now`, first deadline first, and their tasks were queued. */
  ghost predicate Fires(now: nat, was: multiset<Alarm>, sleeping: multiset<Alarm>, ready: seq<nat>, ready': seq<nat>,
                        news: seq<Firing>)
  {
    was == sleeping + multiset(Alarms(news)) && ready <= ready' && |ready'| == |ready| + |news| &&
    (forall i :: 0 <= i < |news| ==>
      news[i].at == now && news[i].alarm.time <= now && ready'[|ready| + i] == news[i].alarm.id) &&
    (forall i, j :: 0 <= i < j < |news| ==> news[i].alarm.time <= news[j].alarm.time)
  }

  /** The clock moves by one cycle; if nothing is ready and every alarm is later than that, it moves to the first. */
  ghost predicate Moves(from: nat, now: nat, cycle: nat, ready: seq<nat>, sleeping: multiset<Alarm>) {
    if ready == [] && sleeping != multiset{} && (forall a :: a in sleeping ==> a.time > from + cycle)
    then exists first :: first in sleeping && first.time == now && forall a :: a in sleeping ==> now <= a.time
    else now == from + cycle
  }

  lemma ClockForward(from: nat, now: nat, cycle: nat, ready: seq<nat>, sleeping: multiset<Alarm>)
    requires Moves(from, now, cycle, ready, sleeping)
    ensures now >= from + cycle && (now > from + cycle ==> forall a :: a in sleeping ==> a.time >= now)
    ensures ready == [] && sleeping != multiset{} ==> exists a :: a in sleeping && a.time <= now
  {}

  /** Alarms left are no earlier than those that fired. */
  ghost predicate Later(sleeping: multiset<Alarm>, news: seq<Firing>) {
    forall i, a :: 0 <= i < |news| && a in sleeping ==> news[i].alarm.time <= a.time
  }

  lemma FireNext(now: nat, was: multiset<Alarm>, sleeping: multiset<Alarm>, ready: seq<nat>, ready': seq<nat>,
                 news: seq<Firing>, alarm: Alarm)
    requires Fires(now, was, sleeping, ready, ready', news) && Later(sleeping, news)
    requires IsFirst(alarm, sleeping) && alarm.time <= now
    ensures Fires(now, was, sleeping - multiset{alarm}, ready, ready' + [alarm.id], news + [Firing(alarm, now)])
    ensures Later(sleeping - multiset{alarm}, news + [Firing(alarm, now)])
  {
    var firing := Firing(alarm, now);
    AlarmsAppend(news, firing);
    MoveOne(was, sleeping, Alarms(news), alarm);
  }

  lemma AlarmsAppend(news: seq<Firing>, firing: Firing)
    ensures Alarms(news + [firing]) == Alarms(news) + [firing.alarm]
  {}

  lemma MoveOne(was: multiset<Alarm>, sleeping: multiset<Alarm>, moved: seq<Alarm>, alarm: Alarm)
    requires was == sleeping + multiset(moved) && alarm in sleeping
    ensures was == (sleeping - multiset{alarm}) + multiset(moved + [alarm])
  {}

  lemma TaskAdded(root: nat, counter: nat, running: map<nat, Mode>, completed: set<nat>)
    requires TasksKnown(root, counter, running, completed)
    ensures counter !in running && TasksKnown(root, counter + 1, running[counter := Work(true)], completed)
  {}

  lemma IdQueued(counter: nat, ready: seq<nat>, pushed: multiset<Alarm>, id: nat, counter': nat)
    requires IdsKnown(counter, ready, pushed) && id < counter' && counter <= counter'
    ensures IdsKnown(counter', ready + [id], pushed)
  {}

  /** The tasks completed once these polls are done. */
  function CompletedBy(root: nat, log: seq<(nat, bool)>, before: set<nat>): set<nat> {
    if log == [] then before
    else
      var (id, isReady) := log[|log| - 1];
      CompletedBy(root, log[..|log| - 1], before) + if isReady && id != root then {id} else {}
  }

  /** These visits made exactly these polls: one for each visited id that had not completed by then. */
  ghost predicate Explains(root: nat, visited: seq<nat>, log: seq<(nat, bool)>, before: set<nat>) {
    if visited == [] then log == []
    else
      var front, id := visited[..|visited| - 1], visited[|visited| - 1];
      (id in CompletedBy(root, log, before) && Explains(root, front, log, before)) ||
      (log != [] && log[|log| - 1].0 == id && id !in CompletedBy(root, log[..|log| - 1], before) &&
       Explains(root, front, log[..|log| - 1], before))
  }

  lemma BatchStarts(root: nat, before: set<nat>, script: Script, first: nat)
    ensures Batch(root, [], [], before, script, first, false) && CompletedBy(root, [], before) == before
  {}

  lemma Skipped(root: nat, visited: seq<nat>, log: seq<(nat, bool)>, before: set<nat>, id: nat)
    requires Explains(root, visited, log, before) && id in CompletedBy(root, log, before)
    ensures Explains(root, visited + [id], log, before)
  {
    assert (visited + [id])[..|visited|] == visited;
  }

  lemma Polled(root: nat, visited: seq<nat>, log: seq<(nat, bool)>, before: set<nat>, id: nat, isReady: bool)
    requires Explains(root, visited, log, before) && id !in CompletedBy(root, log, before)
    ensures Explains(root, visited + [id], log + [(id, isReady)], before)
    ensures CompletedBy(root, log + [(id, isReady)], before) ==
      CompletedBy(root, log, before) + if isReady && id != root then {id} else {}
  {
    var log' := log + [(id, isReady)];
    assert (visited + [id])[..|visited|] == visited && log'[..|log|] == log;
  }

  /** A batch: the visits made exactly these polls, with the results of the script, and it ends with the root. */
  ghost predicate Batch(root: nat, visited: seq<nat>, log: seq<(nat, bool)>, before: set<nat>, script: Script,
                        first: nat, done: bool)
  {
    Explains(root, visited, log, before) && RunLog(root, log, script, first, done)
  }

  /** The polls have the results of the script, and only the last may complete the root. */
  ghost predicate RunLog(root: nat, log: seq<(nat, bool)>, script: Script, first: nat, done: bool) {
    (forall i :: 0 <= i < |log| ==> log[i].1 == script.polls(first + i).ready) &&
    (forall i :: 0 <= i < |log| - 1 ==> log[i] != (root, true)) &&
    (done <==> log != [] && log[|log| - 1] == (root, true))
  }

  /** At least n cycles later. */
  ghost predicate LateBy(from: nat, time: nat, cycle: nat, n: int) { time >= from + cycle * n }

  lemma LateStart(from: nat, cycle: nat)
    ensures LateBy(from, from, cycle, 0)
  {}

  lemma LateNext(from: nat, time: nat, time': nat, cycle: nat, n: nat)
    requires LateBy(from, time, cycle, n) && time' >= time
    ensures LateBy(from, time', cycle, n) && (time' >= time + cycle ==> LateBy(from, time', cycle, n + 1))
  {}

  lemma LateMeans(from: nat, time: nat, cycle: nat, n: int)
    requires LateBy(from, time, cycle, n)
    ensures time >= from + cycle * n
  {}

  lemma NoLog(root: nat, script: Script, first: nat)
    ensures RunLog(root, [], script, first, false)
  {}

  lemma BatchLog(root: nat, visited: seq<nat>, log: seq<(nat, bool)>, before: set<nat>, script: Script, first: nat,
                 done: bool)
    requires Batch(root, visited, log, before, script, first, done)
    ensures RunLog(root, log, script, first, done)
  {}

  lemma MorePolls(root: nat, log: seq<(nat, bool)>, more: seq<(nat, bool)>, script: Script, first: nat, done: bool)
    requires RunLog(root, log, script, first, false) && RunLog(root, more, script, first + |log|, done)
    ensures RunLog(root, log + more, script, first, done)
  {
    var all, n := log + more, |log|;
    forall i | 0 <= i < |all|
      ensures all[i].1 == script.polls(first + i).ready
      ensures i < |all| - 1 ==> all[i] != (root, true)
    {
      if i < n {
        assert all[i] == log[i];
      } else {
        assert all[i] == more[i - n] && first + i == (first + n) + (i - n);
      }
    }
  }

  /** A task is completed if it was before, or if one of these polls completed it. */
  lemma {:induction false} CompletedMeaning(root: nat, log: seq<(nat, bool)>, before: set<nat>, id: nat)
    ensures id in CompletedBy(root, log, before) <==> id in before || (id != root && (id, true) in log)
  {
    if log != [] {
      var last := |log| - 1;
      CompletedMeaning(root, log[..last], before, id);
      assert (id, true) in log <==> (id, true) in log[..last] || log[last] == (id, true) by {
        assert log == log[..last] + [log[last]];
      }
    }
  }

  /** Every id visited is polled unless its task has completed, and no other id is. */
  lemma {:induction false} VisitMeaning(root: nat, visited: seq<nat>, log: seq<(nat, bool)>, before: set<nat>, id: nat)
    requires Explains(root, visited, log, before)
    ensures id in visited ==> id in CompletedBy(root, log, before) || exists i :: 0 <= i < |log| && log[i].0 == id
    ensures (exists i :: 0 <= i < |log| && log[i].0 == id) ==> id in visited
    ensures |log| <= |visited|
    decreases |visited|
  {
    if visited != [] {
      var front, last := visited[..|visited| - 1], visited[|visited| - 1];
      assert visited == front + [last];
      if last in CompletedBy(root, log, before) && Explains(root, front, log, before) {
        VisitMeaning(root, front, log, before, id);
      } else {
        var n := |log| - 1;
        VisitMeaning(root, front, log[..n], before, id);
        CompletedMeaning(root, log[..n], before, id);
        CompletedMeaning(root, log, before, id);
        hide CompletedBy, Explains;
        assert log == log[..n] + [log[n]];
        if i :| 0 <= i < n && log[..n][i].0 == id { assert log[i].0 == id; }
        if i :| 0 <= i < |log| && log[i].0 == id { assert i < n ==> log[..n][i].0 == id; }
      }
    }
  }

  /** Every visited id whose task has not completed was polled, and no other id was. */
  ghost predicate Visits(visited: seq<nat>, polled: seq<(nat, bool)>, start: nat, completed: set<nat>) {
    (forall id :: id in visited ==> id in completed || exists i :: start <= i < |polled| && polled[i].0 == id) &&
    forall i :: start <= i < |polled| ==> polled[i].0 in visited
  }

  lemma BatchMeaning(root: nat, visited: seq<nat>, polled: seq<(nat, bool)>, start: nat, before: set<nat>,
                     script: Script, first: nat, done: bool)
    requires start <= |polled| && Batch(root, visited, polled[start..], before, script, first, done)
    ensures forall id :: id in CompletedBy(root, polled[start..], before) <==>
      id in before || (id != root && (id, true) in polled[start..])
    ensures Visits(visited, polled, start, CompletedBy(root, polled[start..], before))
  {
    hide Explains, CompletedBy, RunLog;
    var log := polled[start..];
    forall id
      ensures id in CompletedBy(root, log, before) <==> id in before || (id != root && (id, true) in log)
    {
      CompletedMeaning(root, log, before, id);
    }
    forall id | id in visited
      ensures id in CompletedBy(root, log, before) || exists i :: start <= i < |polled| && polled[i].0 == id
    {
      VisitMeaning(root, visited, log, before, id);
      if i :| 0 <= i < |log| && log[i].0 == id { assert polled[start + i].0 == id; }
    }
    forall i | start <= i < |polled|
      ensures polled[i].0 in visited
    {
      assert log[i - start].0 == polled[i].0;
      VisitMeaning(root, visited, log, before, polled[i].0);
    }
  }

  lemma BatchSkips(root: nat, visited: seq<nat>, log: seq<(nat, bool)>, before: set<nat>, script: Script,
                   first: nat, id: nat)
    requires Batch(root, visited, log, before, script, first, false) && id in CompletedBy(root, log, before)
    ensures Batch(root, visited + [id], log, before, script, first, false)
  {
    hide Explains, CompletedBy;
    Skipped(root, visited, log, before, id);
  }

  lemma BatchPolls(root: nat, visited: seq<nat>, log: seq<(nat, bool)>, before: set<nat>, script: Script,
                   first: nat, id: nat)
    requires Batch(root, visited, log, before, script, first, false) && id !in CompletedBy(root, log, before)
    ensures var isReady := script.polls(first + |log|).ready;
            var log' := log + [(id, isReady)];
            Batch(root, visited + [id], log', before, script, first, id == root && isReady) &&
            CompletedBy(root, log', before) ==
              CompletedBy(root, log, before) + if isReady && id != root then {id} else {}
  {
    hide Explains, CompletedBy;
    var isReady := script.polls(first + |log|).ready;
    var log' := log + [(id, isReady)];
    Polled(root, visited, log, before, id, isReady);
    LogNext(root, log, script, first, (id, isReady));
  }

  lemma LogNext(root: nat, log: seq<(nat, bool)>, script: Script, first: nat, entry: (nat, bool))
    requires entry.1 == script.polls(first + |log|).ready
    requires forall i :: 0 <= i < |log| ==> log[i].1 == script.polls(first + i).ready && log[i] != (root, true)
    ensures forall i :: 0 <= i < |log + [entry]| ==> (log + [entry])[i].1 == script.polls(first + i).ready
    ensures forall i :: 0 <= i < |log + [entry]| - 1 ==> (log + [entry])[i] != (root, true)
  {}

  /** How far a batch has come: the visits made these polls, and their effects account for the view. */
  ghost predicate Progress(root: nat, script: Script, first: nat, before: set<nat>, time: nat, was: View,
                           visited: seq<nat>, log: seq<(nat, bool)>, results: seq<PollResult>, account: Account,
                           done: bool, completed: set<nat>, now: View)
  {
    Batch(root, visited, log, before, script, first, done) && completed == CompletedBy(root, log, before) &&
    Ledger(account, log, results, script.deadlines, time, was, now) &&
    forall k :: 0 <= k < |results| ==> results[k] == script.polls(first + k)
  }

  lemma ProgressStarts(root: nat, script: Script, first: nat, before: set<nat>, time: nat, was: View)
    ensures Progress(root, script, first, before, time, was, [], [], [], NoActs(), false, before, was)
  {
    hide Batch, CompletedBy, Ledger;
    BatchStarts(root, before, script, first);
    LedgerStarts(script.deadlines, time, was);
  }

  lemma ProgressSkips(root: nat, script: Script, first: nat, before: set<nat>, time: nat, was: View,
                      visited: seq<nat>, log: seq<(nat, bool)>, results: seq<PollResult>, account: Account,
                      completed: set<nat>, now: View, id: nat)
    requires Progress(root, script, first, before, time, was, visited, log, results, account, false, completed, now)
    requires id in completed
    ensures Progress(root, script, first, before, time, was, visited + [id], log, results, account, false, completed,
                     now)
  {
    hide Batch, CompletedBy, Ledger;
    BatchSkips(root, visited, log, before, script, first, id);
  }

  lemma ProgressPolls(root: nat, script: Script, first: nat, before: set<nat>, time: nat, was: View,
                      visited: seq<nat>, log: seq<(nat, bool)>, results: seq<PollResult>, account: Account,
                      completed: set<nat>, now: View, id: nat, more: Account, completed': set<nat>, now': View)
    requires Progress(root, script, first, before, time, was, visited, log, results, account, false, completed, now)
    requires id !in completed
    requires var result := script.polls(first + |log|);
      completed' == (if result.ready && id != root then completed + {id} else completed) &&
      more.acts == Labelled(id, result.effects) && Accounts(more, script.deadlines, time, now, now') &&
      Tally(more, result.effects, now.counter, now'.counter)
    ensures var result := script.polls(first + |log|);
      Progress(root, script, first, before, time, was, visited + [id], log + [(id, result.ready)], results + [result],
               Then(account, more), id == root && result.ready, completed', now')
    ensures multiset(Then(account, more).armed) == multiset(account.armed) + multiset(more.armed)
    ensures now.counter <= now'.counter
  {
    hide Batch, CompletedBy, Accounts, Tally, Then, Labelled;
    var result := script.polls(first + |log|);
    BatchPolls(root, visited, log, before, script, first, id);
    LedgerNext(account, more, log, results, id, result, script.deadlines, time, was, now, now');
  }

  lemma ProgressMeans(root: nat, script: Script, first: nat, before: set<nat>, time: nat, was: View,
                      visited: seq<nat>, log: seq<(nat, bool)>, results: seq<PollResult>, account: Account,
                      done: bool, completed: set<nat>, now: View)
    requires Progress(root, script, first, before, time, was, visited, log, results, account, done, completed, now)
    ensures Batch(root, visited, log, before, script, first, done) && completed == CompletedBy(root, log, before)
    ensures Ledger(account, log, results, script.deadlines, time, was, now) && |log| == |results|
    ensures Leaves(log, results, script.deadlines, time, was, now)
    ensures forall k :: 0 <= k < |results| ==> results[k] == script.polls(first + k)
  {
    hide Batch, CompletedBy, Ledger, Leaves;
    LedgerLeaves(account, log, results, script.deadlines, time, was, now);
  }

  class Executor {
    const cycle: nat
    const deadline: Option<nat>
    const root: nat
    var time: nat
    var sleeping: multiset<Alarm>
    var counter: nat
    var ready: seq<nat>
    var running: map<nat, Mode>
    var registered: set<nat>
    var polls: nat
    ghost var pushed: multiset<Alarm>
    ghost var fired: seq<Firing>
    ghost var completed: set<nat>
    ghost var polled: seq<(nat, bool)>

    ghost predicate Valid() reads this {
      TasksKnown(root, counter, running, completed) && IdsKnown(counter, ready, pushed) &&
      AlarmsExact(cycle, time, pushed, sleeping, fired) && Ahead(time, sleeping) &&
      |pushed| == |registered| && PollsEnd(root, polled, completed)
    }

    ghost function Now(): View reads this { View(counter, ready, registered, sleeping) }

    /** A new executor: the tasks that the closure spawned before returning its future, and then the root. */
    constructor (start: nat, cycle': nat, deadline': Option<nat>, spawned: nat)
      requires cycle' >= 1
      ensures Valid() && time == start && cycle == cycle' && deadline == deadline' && root == spawned
      ensures pushed == multiset{} && fired == [] && counter == spawned + 1 && completed == {} && polled == []
      ensures sleeping == multiset{} && registered == {} && polls == 0
      ensures ready == seq(spawned + 1, i => i)
    {
      cycle, deadline, time, root := cycle', deadline', start, spawned;
      sleeping, registered, polls := multiset{}, {}, 0;
      counter, ready := spawned + 1, seq(spawned + 1, i => i);
      running := WorkTasks(spawned)[spawned := Root];
      pushed, fired, completed, polled := multiset{}, [], {}, [];
    }

    // ---------- Tasks ----------

    method Increment() returns (old': nat)
      modifies this`counter
      ensures old' == old(counter) && counter == old(counter) + 1
    {
      old' := counter;
      counter := counter + 1;
    }

    method Queue(id: nat)
      modifies this`ready
      ensures ready == old(ready) + [id]
    {
      ready := ready + [id];
    }

    method RegisterWork()
      requires Valid()
      modifies this`counter, this`ready, this`running
      ensures Valid() && counter == old(counter) + 1 && ready == old(ready) + [old(counter)]
      ensures old(counter) !in old(running) && running == old(running)[old(counter) := Work(true)]
    {
      hide TasksKnown, IdsKnown, AlarmsExact, Ahead, PollsEnd;
      TaskAdded(root, counter, running, completed);
      IdQueued(counter, ready, pushed, counter, counter + 1);
      var id := Increment();
      running := running[id := Work(true)];
      Queue(id);
    }

    method Drain() returns (queue: seq<nat>)
      requires Valid()
      modifies this`ready
      ensures Valid() && queue == old(ready) && ready == []
      ensures forall i :: 0 <= i < |queue| ==> queue[i] < counter
    {
      hide TasksKnown, IdsKnown, AlarmsExact, Ahead, PollsEnd;
      Drained(counter, ready, pushed);
      queue := ready;
      ready := [];
    }

    // ---------- Time ----------

    method AdvanceTime() returns (now: nat)
      modifies this`time
      ensures now == time == old(time) + cycle
    {
      time := time + cycle;
      now := time;
    }

    method Peek() returns (next: Option<Alarm>)
      ensures next.None? <==> sleeping == multiset{}
      ensures next.Some? ==> IsFirst(next.value, sleeping)
    {
      if sleeping == multiset{} {
        return None;
      }
      FirstExists(sleeping);
      var first :| first in sleeping && forall a :: a in sleeping ==> first.time <= a.time;
      next := Some(first);
    }

    /** Jumps only when nothing is ready, and only to the first alarm beyond the advanced time. */
    method SkipIdleTime(current: nat) returns (now: nat)
      requires time == current
      modifies this`time
      ensures now == time
      ensures if ready == [] && sleeping != multiset{} && (forall a :: a in sleeping ==> a.time > current)
              then exists first :: first in sleeping && first.time == now && forall a :: a in sleeping ==> now <= a.time
              else now == current
    {
      if |ready| != 0 {
        return current;
      }
      var next := Peek();
      if next.Some? && next.value.time > current {
        time := next.value.time;
        return time;
      }
      now := current;
    }

    /** Fires exactly the alarms due, and queues their tasks. */
    method WakeReadySleepers(current: nat) returns (ghost news: seq<Firing>)
      modifies this`sleeping, this`ready, this`fired
      ensures Fires(current, old(sleeping), sleeping, old(ready), ready, news)
      ensures Ahead(current, sleeping) && fired == old(fired) + news
    {
      hide Fires, Later, IsFirst;
      ghost var alarms, queued := sleeping, ready;
      news := [];
      NoneFired(current, alarms, queued);
      while true
        invariant Fires(current, alarms, sleeping, queued, ready, news) && Later(sleeping, news)
        invariant fired == old(fired) + news
        decreases |sleeping|
      {
        var next := Peek();
        if next.None? || next.value.time > current {
          Finished(next, current, sleeping);
          return;
        }
        var alarm := next.value;
        FireNext(current, alarms, sleeping, queued, ready, news, alarm);
        FirstIn(alarm, sleeping);
        sleeping := sleeping - multiset{alarm};
        news := news + [Firing(alarm, current)];
        fired := fired + [Firing(alarm, current)];
        Queue(alarm.id);
      }
    }

    // ---------- Polling ----------

    /** Pending before the deadline, with one alarm set by the first such poll. */
    method PollSleeper(sleeper: nat, due: nat, id: nat) returns (done: bool)
      requires Valid() && id < counter
      modifies this`registered, this`sleeping, this`pushed
      ensures Valid() && (done <==> time >= due)
      ensures done || sleeper in old(registered) ==>
                pushed == old(pushed) && sleeping == old(sleeping) && registered == old(registered)
      ensures !done && sleeper !in old(registered) ==>
                pushed == old(pushed) + multiset{Alarm(due, id)} &&
                sleeping == old(sleeping) + multiset{Alarm(due, id)} && registered == old(registered) + {sleeper}
    {
      hide Valid;
      if time >= due {
        return true;
      }
      if sleeper !in registered {
        SetAlarm(sleeper, Alarm(due, id));
      }
      done := false;
    }

    method SetAlarm(sleeper: nat, alarm: Alarm)
      requires Valid() && alarm.id < counter && alarm.time > time && sleeper !in registered
      modifies this`registered, this`sleeping, this`pushed
      ensures Valid() && pushed == old(pushed) + multiset{alarm} && registered == old(registered) + {sleeper}
      ensures sleeping == old(sleeping) + multiset{alarm}
    {
      hide TasksKnown, IdsKnown, AlarmsExact, Ahead, PollsEnd;
      AlarmSet(cycle, time, pushed, sleeping, fired, alarm);
      AlarmKnown(counter, ready, pushed, alarm);
      OneMoreEach(pushed, registered, alarm, sleeper);
      registered := registered + {sleeper};
      sleeping := sleeping + multiset{alarm};
      pushed := pushed + multiset{alarm};
    }

    /** Wakers exist for registered tasks only. */
    method WakeById(id: nat)
      requires Valid()
      modifies this`ready
      ensures Valid() && ready == old(ready) + if id < counter then [id] else []
    {
      hide TasksKnown, IdsKnown, AlarmsExact, Ahead, PollsEnd;
      if id < counter {
        IdQueued(counter, ready, pushed, id, counter);
        Queue(id);
      }
    }

    method Perform(id: nat, effect: Effect, deadlines: nat -> nat) returns (ghost account: Account)
      requires Valid() && id < counter
      modifies this`counter, this`ready, this`running, this`registered, this`sleeping, this`pushed
      ensures Valid() && account.acts == [Act(id, effect)]
      ensures Accounts(account, deadlines, time, old(Now()), Now())
      ensures pushed == old(pushed) + multiset(account.armed)
      ensures forall k :: k in old(running) ==> k in running
    {
      hide Valid, Accounts;
      ghost var was := Now();
      match effect
      case Spawn =>
        RegisterWork();
        OneSpawn(id, deadlines, time, was, Now());
        account := Account([Act(id, Spawn)], [0], [0], [was.counter], [], []);
      case WakeTask(other) =>
        WakeById(other);
        OneWake(id, other, deadlines, time, was, Now());
        ghost var known := other < counter;
        account :=
          Account([Act(id, WakeTask(other))], [], if known then [0] else [], if known then [other] else [], [], []);
      case PollSleeper(sleeper) =>
        ghost var alarm := Alarm(deadlines(sleeper), id);
        var done := PollSleeper(sleeper, deadlines(sleeper), id);
        if done || sleeper in was.registered {
          NoAlarm(id, sleeper, deadlines, time, was);
          account := Account([Act(id, effect)], [], [], [], [], []);
        } else {
          OneAlarm(id, sleeper, deadlines, time, was, Now());
          account := Account([Act(id, effect)], [], [], [], [0], [alarm]);
          assert multiset([alarm]) == multiset{alarm};
        }
    }

    /** Anything a poll may do: time stands still, nothing fires and no task leaves. */
    method PollTask(id: nat, result: PollResult, deadlines: nat -> nat) returns (ghost account: Account)
      requires Valid() && id < counter
      modifies this`counter, this`ready, this`running, this`registered, this`sleeping, this`pushed
      ensures Valid() && account.acts == Labelled(id, result.effects)
      ensures Accounts(account, deadlines, time, old(Now()), Now())
      ensures Leaves([(id, result.ready)], [result], deadlines, time, old(Now()), Now())
      ensures Tally(account, result.effects, old(counter), counter)
      ensures pushed == old(pushed) + multiset(account.armed)
      ensures forall k :: k in old(running) ==> k in running
    {
      hide Valid, Accounts, Leaves, Tally, Then, Labelled;
      account := NoActs();
      NothingDone(deadlines, time, Now());
      assert Labelled(id, []) == [];
      for i := 0 to |result.effects|
        invariant Valid() && account.acts == Labelled(id, result.effects[..i]) && counter >= old(counter)
        invariant Accounts(account, deadlines, time, old(Now()), Now())
        invariant pushed == old(pushed) + multiset(account.armed)
        invariant forall k :: k in old(running) ==> k in running
      {
        ghost var was := Now();
        ghost var more := Perform(id, result.effects[i], deadlines);
        AccountsThen(account, more, deadlines, time, old(Now()), was, Now());
        AccountGrows(more, deadlines, time, was, Now());
        ArmedTogether(account, more);
        ActsThen(account, more);
        account := Then(account, more);
        LabelledNext(id, result.effects, i);
      }
      assert result.effects[..|result.effects|] == result.effects;
      OnePoll(account, id, result, deadlines, time, old(Now()), Now());
    }

    lemma StillRunning(id: nat)
      requires Valid() && id < counter
      ensures id in running <==> id !in completed
      ensures id in running ==> running[id] == if id == root then Root else Work(true)
    {}

    method NextPoll(script: Script) returns (result: PollResult)
      requires Valid()
      modifies this`polls
      ensures Valid() && result == script.polls(old(polls)) && polls == old(polls) + 1
    {
      hide TasksKnown, IdsKnown, AlarmsExact, Ahead, PollsEnd;
      result := script.polls(polls);
      polls := polls + 1;
    }

    /** Removes a task whose poll completed; the root is not removed. */
    method Record(id: nat, isReady: bool)
      requires Valid() && id in running && id !in completed
      modifies this`running, this`completed, this`polled
      ensures Valid() && polled == old(polled) + [(id, isReady)]
      ensures running == if isReady && id != root then old(running) - {id} else old(running)
      ensures completed == if isReady && id != root then old(completed) + {id} else old(completed)
    {
      hide TasksKnown, IdsKnown, AlarmsExact, Ahead, PollsEnd;
      if isReady && id != root {
        TaskDone(root, counter, running, completed, id);
        PolledDone(root, polled, completed, id);
        running := running - {id};
        completed := completed + {id};
      } else {
        PolledOpen(root, polled, completed, id, isReady);
      }
      polled := polled + [(id, isReady)];
    }

    /** Polls the task if it is still running; only the root ends the run. */
    method Visit(id: nat, script: Script) returns (done: bool, ghost account: Account)
      requires Valid() && id < counter
      modifies this`polls, this`counter, this`ready, this`running, this`registered, this`sleeping, this`pushed,
               this`completed, this`polled
      ensures Valid() && (id in old(running) <==> id !in old(completed))
      ensures id !in old(running) ==> unchanged(this)
      ensures var result := script.polls(old(polls));
              id in old(running) ==>
                polls == old(polls) + 1 && polled == old(polled) + [(id, result.ready)] &&
                completed == (if result.ready && id != root then old(completed) + {id} else old(completed)) &&
                account.acts == Labelled(id, result.effects) &&
                Accounts(account, script.deadlines, time, old(Now()), Now()) &&
                Leaves([(id, result.ready)], [result], script.deadlines, time, old(Now()), Now()) &&
                Tally(account, result.effects, old(counter), counter) &&
                pushed == old(pushed) + multiset(account.armed)
      ensures done <==> id in old(running) && id == root && script.polls(old(polls)).ready
    {
      hide Valid, Accounts, Leaves, Tally;
      StillRunning(id);
      account := NoActs();
      if id !in running {
        return false, account;
      }
      var result := NextPoll(script);
      match running[id]
      case Root =>
        account := PollTask(id, result, script.deadlines);
        Record(id, result.ready);
        done := result.ready;
      case Work(present) =>
        // A task that is still running has its future: the case without one does not arise.
        assert present;
        account := PollTask(id, result, script.deadlines);
        Record(id, result.ready);
        done := false;
    }

    /** Visits the ids of the batch in order, each once, until the root completes. */
    method RunBatch(queue: seq<nat>, script: Script)
      returns (done: bool, ghost visited: seq<nat>, ghost results: seq<PollResult>, ghost account: Account)
      requires Valid() && forall i :: 0 <= i < |queue| ==> queue[i] < counter
      modifies this`polls, this`counter, this`ready, this`running, this`registered, this`sleeping, this`pushed,
               this`completed, this`polled
      ensures Valid() && old(polled) <= polled && polls == old(polls) + |results|
      ensures if done then visited <= queue else visited == queue
      ensures Batch(root, visited, polled[|old(polled)|..], old(completed), script, old(polls), done)
      ensures completed == CompletedBy(root, polled[|old(polled)|..], old(completed))
      ensures forall id :: id in completed <==>
                id in old(completed) || (id != root && (id, true) in polled[|old(polled)|..])
      ensures Visits(visited, polled, |old(polled)|, completed)
      ensures |results| == |polled| - |old(polled)|
      ensures forall i :: 0 <= i < |results| ==> results[i] == script.polls(old(polls) + i)
      ensures Ledger(account, polled[|old(polled)|..], results, script.deadlines, time, old(Now()), Now())
      ensures Leaves(polled[|old(polled)|..], results, script.deadlines, time, old(Now()), Now())
      ensures pushed == old(pushed) + multiset(account.armed)
    {
      hide Valid, Batch, CompletedBy, Accounts, Leaves, Tally, Then, Ledger, Visits, Labelled, Progress;
      visited, done, results, account := [], false, [], NoActs();
      ghost var log: seq<(nat, bool)> := [];
      ghost var before, was := completed, Now();
      ProgressStarts(root, script, polls, before, time, was);
      for i := 0 to |queue|
        invariant Valid() && counter >= old(counter) && !done && visited == queue[..i]
        invariant polled == old(polled) + log && polls == old(polls) + |log| && |results| == |log|
        invariant Progress(root, script, old(polls), before, time, was, visited, log, results, account, false,
                           completed, Now())
        invariant pushed == old(pushed) + multiset(account.armed)
      {
        var id := queue[i];
        ghost var now, known, result, skip := Now(), completed, script.polls(polls), id in completed;
        ghost var more;
        done, more := Visit(id, script);
        if skip {
          ProgressSkips(root, script, old(polls), before, time, was, visited, log, results, account, known, now, id);
        } else {
          ProgressPolls(root, script, old(polls), before, time, was, visited, log, results, account, known, now, id,
                        more, completed, Now());
          account, log, results := Then(account, more), log + [(id, result.ready)], results + [result];
        }
        visited := visited + [id];
        assert queue[..i + 1] == visited;
        if done {
          break;
        }
      }
      assert queue[..|queue|] == queue && polled[|old(polled)|..] == log;
      ProgressMeans(root, script, old(polls), before, time, was, visited, log, results, account, done, completed,
                    Now());
      BatchMeaning(root, visited, polled, |old(polled)|, before, script, old(polls), done);
    }

    // ---------- The event loop ----------

    /** Moves the clock, fires what is due, and reports whether nothing is left to do. */
    method Settle() returns (stalled: bool, ghost news: seq<Firing>)
      requires Valid()
      modifies this`time, this`sleeping, this`ready, this`fired
      ensures Valid() && fired == old(fired) + news
      ensures Moves(old(time), time, cycle, old(ready), old(sleeping))
      ensures Fires(time, old(sleeping), sleeping, old(ready), ready, news)
      ensures stalled <==> ready == []
      ensures stalled <==> old(ready) == [] && old(sleeping) == multiset{}
    {
      hide TasksKnown, IdsKnown, AlarmsExact, PollsEnd, Fires;
      ghost var from, left, alarms, log := time, ready, sleeping, fired;
      var now := AdvanceTime();
      now := SkipIdleTime(now);
      assert Moves(from, now, cycle, left, alarms);
      news := WakeReadySleepers(now);
      ClockForward(from, now, cycle, left, alarms);
      hide Ahead, Moves;
      OnTime(cycle, from, now, left, ready, pushed, alarms, sleeping, log, news);
      FiredKnown(cycle, from, now, counter, left, ready, pushed, alarms, sleeping, log, news);
      StallExact(now, left, ready, alarms, sleeping, news);
      stalled := |ready| == 0;
    }

    /** Polls what is ready, in the order of the shuffle if there is more than one id. */
    method RunReady(script: Script)
      returns (done: bool, ghost batch: seq<nat>, ghost visited: seq<nat>, ghost results: seq<PollResult>,
               ghost account: Account)
      requires Valid() && Shuffles(script)
      modifies this`polls, this`counter, this`ready, this`running, this`registered, this`sleeping, this`pushed,
               this`completed, this`polled
      ensures Valid() && old(polled) <= polled && polls == old(polls) + |results|
      ensures batch == (if |old(ready)| > 1 then script.shuffle(time, old(ready)) else old(ready))
      ensures multiset(batch) == multiset(old(ready)) && if done then visited <= batch else visited == batch
      ensures Batch(root, visited, polled[|old(polled)|..], old(completed), script, old(polls), done)
      ensures completed == CompletedBy(root, polled[|old(polled)|..], old(completed))
      ensures Visits(visited, polled, |old(polled)|, completed)
      ensures |results| == |polled| - |old(polled)|
      ensures forall i :: 0 <= i < |results| ==> results[i] == script.polls(old(polls) + i)
      ensures var before := View(old(counter), [], old(registered), old(sleeping));
              Ledger(account, polled[|old(polled)|..], results, script.deadlines, time, before, Now()) &&
              Leaves(polled[|old(polled)|..], results, script.deadlines, time, before, Now())
      ensures pushed == old(pushed) + multiset(account.armed)
    {
      hide Valid, Shuffles, Batch, CompletedBy, Ledger, Leaves, Visits;
      var queue := Drain();
      if |queue| > 1 {
        ShuffleKnown(script, time, queue, counter);
        queue := script.shuffle(time, queue);
      }
      batch := queue;
      done, visited, results, account := RunBatch(queue, script);
    }

    /** One turn of the loop.  `left` and `alarms` are the ready ids and the alarms after the batch, and `results` what
        its polls did. */
    method Turn(script: Script)
      returns (outcome: Outcome, ghost batch: seq<nat>, ghost visited: seq<nat>, ghost results: seq<PollResult>,
               ghost account: Account, ghost left: seq<nat>, ghost alarms: multiset<Alarm>, ghost news: seq<Firing>)
      requires Valid() && Shuffles(script)
      modifies this
      ensures Valid() && old(pushed) <= pushed && old(fired) <= fired && old(polled) <= polled
      ensures outcome == Timeout <==> deadline.Some? && old(time) >= deadline.value
      ensures outcome == Timeout ==> unchanged(this)
      ensures outcome == Complete ==> visited <= batch && time == old(time) && left == ready && alarms == sleeping
      ensures outcome != Timeout ==>
                batch == (if |old(ready)| > 1 then script.shuffle(old(time), old(ready)) else old(ready)) &&
                multiset(batch) == multiset(old(ready)) &&
                Batch(root, visited, polled[|old(polled)|..], old(completed), script, old(polls),
                      outcome == Complete) &&
                completed == CompletedBy(root, polled[|old(polled)|..], old(completed)) &&
                Visits(visited, polled, |old(polled)|, completed)
      ensures polls == old(polls) + |results| && |results| == |polled| - |old(polled)|
      ensures forall i :: 0 <= i < |results| ==> results[i] == script.polls(old(polls) + i)
      ensures outcome != Timeout ==>
                var before := View(old(counter), [], old(registered), old(sleeping));
                var after := View(counter, left, registered, alarms);
                Ledger(account, polled[|old(polled)|..], results, script.deadlines, old(time), before, after) &&
                Leaves(polled[|old(polled)|..], results, script.deadlines, old(time), before, after) &&
                pushed == old(pushed) + multiset(account.armed)
      ensures Settled(outcome) ==>
                visited == batch && Moves(old(time), time, cycle, left, alarms) &&
                Fires(time, alarms, sleeping, left, ready, news) && fired == old(fired) + news &&
                (outcome == Stalled <==> left == [] && alarms == multiset{})
      ensures outcome == Stalled <==> Settled(outcome) && ready == []
    {
      hide Valid, Shuffles, Fires, Batch, CompletedBy, Ledger, Leaves, Moves, Visits;
      batch, visited, left, alarms, news, results, account := [], [], [], multiset{}, [], [], NoActs();
      if deadline.Some? && time >= deadline.value {
        return Timeout, batch, visited, results, account, left, alarms, news;
      }
      var done;
      done, batch, visited, results, account := RunReady(script);
      left, alarms := ready, sleeping;
      if done {
        return Complete, batch, visited, results, account, left, alarms, news;
      }
      var stalled;
      stalled, news := Settle();
      if stalled {
        return Stalled, batch, visited, results, account, left, alarms, news;
      }
      outcome := Continue;
    }

    /** What a turn adds to a run. */
    method TakeTurn(script: Script) returns (outcome: Outcome)
      requires Valid() && Shuffles(script)
      modifies this
      ensures Valid() && old(fired) <= fired && old(polled) <= polled
      ensures time >= old(time) + if Settled(outcome) then cycle else 0
      ensures RunLog(root, polled[|old(polled)|..], script, old(polls), outcome == Complete)
      ensures polls == old(polls) + |polled| - |old(polled)|
      ensures outcome == Stalled ==> ready == [] && sleeping == multiset{}
      ensures outcome == Timeout ==> deadline.Some? && time >= deadline.value
    {
      hide Valid, Shuffles, Fires, Batch, CompletedBy, Ledger, Leaves, Moves, RunLog;
      ghost var batch, visited, results, account, left, alarms, news;
      ghost var from, log, first, before := time, polled, polls, completed;
      outcome, batch, visited, results, account, left, alarms, news := Turn(script);
      if outcome == Stalled { NothingSleeps(time, alarms, sleeping, left, ready, news); }
      if Settled(outcome) { ClockForward(from, time, cycle, left, alarms); }
      if outcome == Timeout {
        NoLog(root, script, first);
        assert polled[|log|..] == [];
      } else {
        BatchLog(root, visited, polled[|log|..], before, script, first, outcome == Complete);
      }
    }

    /** Up to so many turns, until the loop ends. */
    method Start(turns: nat, script: Script) returns (outcome: Outcome, taken: nat)
      requires Valid() && Shuffles(script)
      modifies this
      ensures Valid() && old(fired) <= fired && old(polled) <= polled
      ensures taken <= turns && (outcome == Continue ==> taken == turns) && (turns > 0 ==> taken > 0)
      ensures time >= old(time) + cycle * (if Settled(outcome) then taken else taken - 1)
      ensures forall a :: multiset(Alarms(fired))[a] == if a.time <= time then pushed[a] else 0
      ensures polls == old(polls) + |polled| - |old(polled)|
      ensures RunLog(root, polled[|old(polled)|..], script, old(polls), outcome == Complete)
      ensures outcome == Stalled ==> ready == [] && sleeping == multiset{}
      ensures outcome == Timeout ==> deadline.Some? && time >= deadline.value
    {
      hide Valid, Shuffles, RunLog, LateBy;
      outcome, taken := Continue, 0;
      LateStart(time, cycle);
      ghost var log: seq<(nat, bool)> := [];
      NoLog(root, script, polls);
      while taken < turns && outcome == Continue
        invariant Valid() && old(fired) <= fired && polled == old(polled) + log && polls == old(polls) + |log|
        invariant taken <= turns && (outcome != Continue ==> taken > 0)
        invariant LateBy(old(time), time, cycle, if Settled(outcome) then taken else taken - 1)
        invariant RunLog(root, log, script, old(polls), outcome == Complete)
        invariant outcome == Stalled ==> ready == [] && sleeping == multiset{}
        invariant outcome == Timeout ==> deadline.Some? && time >= deadline.value
        decreases turns - taken
      {
        ghost var before, from := polled, time;
        outcome := TakeTurn(script);
        LateNext(old(time), from, time, cycle, taken);
        ghost var more := polled[|before|..];
        MorePolls(root, log, more, script, old(polls), outcome == Complete);
        log := log + more;
        taken := taken + 1;
      }
      RunDue();
      LateMeans(old(time), time, cycle, if Settled(outcome) then taken else taken - 1);
      assert polled[|old(polled)|..] == log;
    }

    lemma RunDue()
      requires Valid()
      ensures forall a :: multiset(Alarms(fired))[a] == if a.time <= time then pushed[a] else 0
    {
      hide TasksKnown, IdsKnown, PollsEnd, AlarmsExact, Ahead;
      DueExactly(cycle, time, pushed, sleeping, fired);
    }
  }

  // ---------- What the steps keep ----------

  lemma AlarmSet(cycle: nat, time: nat, pushed: multiset<Alarm>, sleeping: multiset<Alarm>, fired: seq<Firing>,
                 a: Alarm)
    requires AlarmsExact(cycle, time, pushed, sleeping, fired) && Ahead(time, sleeping) && a.time > time
    ensures AlarmsExact(cycle, time, pushed + multiset{a}, sleeping + multiset{a}, fired)
    ensures Ahead(time, sleeping + multiset{a})
  {}

  lemma OneMoreEach(pushed: multiset<Alarm>, registered: set<nat>, alarm: Alarm, sleeper: nat)
    requires |pushed| == |registered| && sleeper !in registered
    ensures |pushed + multiset{alarm}| == |registered + {sleeper}|
  {}

  lemma AlarmKnown(counter: nat, ready: seq<nat>, pushed: multiset<Alarm>, a: Alarm)
    requires IdsKnown(counter, ready, pushed) && a.id < counter
    ensures IdsKnown(counter, ready, pushed + multiset{a})
  {}

  lemma TaskDone(root: nat, counter: nat, running: map<nat, Mode>, completed: set<nat>, id: nat)
    requires TasksKnown(root, counter, running, completed) && id in running && id != root
    ensures TasksKnown(root, counter, running - {id}, completed + {id})
  {}

  lemma PolledOpen(root: nat, polled: seq<(nat, bool)>, completed: set<nat>, id: nat, isReady: bool)
    requires PollsEnd(root, polled, completed) && id !in completed && (isReady ==> id == root)
    ensures PollsEnd(root, polled + [(id, isReady)], completed)
  {}

  lemma PolledDone(root: nat, polled: seq<(nat, bool)>, completed: set<nat>, id: nat)
    requires PollsEnd(root, polled, completed) && id !in completed
    ensures PollsEnd(root, polled + [(id, true)], completed + {id})
  {}

  lemma Drained(counter: nat, ready: seq<nat>, pushed: multiset<Alarm>)
    requires IdsKnown(counter, ready, pushed)
    ensures IdsKnown(counter, [], pushed) && forall i :: 0 <= i < |ready| ==> ready[i] < counter
  {}

  lemma ShuffleKnown(script: Script, at: nat, queue: seq<nat>, counter: nat)
    requires Shuffles(script) && forall i :: 0 <= i < |queue| ==> queue[i] < counter
    ensures multiset(script.shuffle(at, queue)) == multiset(queue)
    ensures forall i :: 0 <= i < |script.shuffle(at, queue)| ==> script.shuffle(at, queue)[i] < counter
  {
    var shuffled := script.shuffle(at, queue);
    forall i | 0 <= i < |shuffled|
      ensures shuffled[i] < counter
    {
      assert shuffled[i] in multiset(shuffled);
      assert shuffled[i] in queue;
    }
  }

  /** The window: a turn that starts at `from` fires at `now` only alarms less than a cycle overdue. */
  lemma OnTime(cycle: nat, from: nat, now: nat, left: seq<nat>, ready: seq<nat>, pushed: multiset<Alarm>,
               alarms: multiset<Alarm>, sleeping: multiset<Alarm>, log: seq<Firing>, news: seq<Firing>)
    requires AlarmsExact(cycle, from, pushed, alarms, log) && Ahead(from, alarms) && now >= from + cycle
    requires now > from + cycle ==> forall a :: a in alarms ==> a.time >= now
    requires Fires(now, alarms, sleeping, left, ready, news)
    ensures AlarmsExact(cycle, now, pushed, sleeping, log + news)
  {
    Joined(log, news);
    forall i | 0 <= i < |news|
      ensures now < news[i].alarm.time + cycle
    {
      NewsKnown(alarms, sleeping, news, i);
    }
    hide Alarms, Ahead;
    var all := log + news;
    forall i | 0 <= i < |all|
      ensures all[i].alarm.time <= all[i].at < all[i].alarm.time + cycle && all[i].at <= now
      ensures i < |log| ==> all[i].at <= from
    {
      if i < |log| { assert all[i] == log[i]; } else { assert all[i] == news[i - |log|]; }
    }
    forall i, j | 0 <= i < j < |all|
      ensures all[i].at <= all[j].at
    {
      if j < |log| {
        assert all[i] == log[i] && all[j] == log[j];
      } else {
        assert all[j] == news[j - |log|];
      }
    }
    assert pushed == sleeping + multiset(Alarms(all));
  }

  lemma Joined(log: seq<Firing>, news: seq<Firing>)
    ensures multiset(Alarms(log + news)) == multiset(Alarms(log)) + multiset(Alarms(news))
  {
    assert Alarms(log + news) == Alarms(log) + Alarms(news);
  }

  lemma NewsKnown(alarms: multiset<Alarm>, sleeping: multiset<Alarm>, news: seq<Firing>, i: nat)
    requires alarms == sleeping + multiset(Alarms(news)) && i < |news|
    ensures news[i].alarm in alarms
  {
    assert Alarms(news)[i] == news[i].alarm;
    assert news[i].alarm in multiset(Alarms(news));
  }

  lemma FiredKnown(cycle: nat, from: nat, now: nat, counter: nat, left: seq<nat>, ready: seq<nat>,
                   pushed: multiset<Alarm>, alarms: multiset<Alarm>, sleeping: multiset<Alarm>, log: seq<Firing>,
                   news: seq<Firing>)
    requires IdsKnown(counter, left, pushed) && AlarmsExact(cycle, from, pushed, alarms, log)
    requires Fires(now, alarms, sleeping, left, ready, news)
    ensures IdsKnown(counter, ready, pushed)
  {
    forall i | 0 <= i < |ready|
      ensures ready[i] < counter
    {
      if i < |left| {
        assert ready[i] == left[i];
      } else {
        var k := i - |left|;
        NewsKnown(alarms, sleeping, news, k);
        assert ready[|left| + k] == news[k].alarm.id;
      }
    }
  }

  /** With a task's own waker in every alarm, a turn ends with nothing ready exactly when nothing was left to do. */
  lemma StallExact(now: nat, left: seq<nat>, ready: seq<nat>, alarms: multiset<Alarm>, sleeping: multiset<Alarm>,
                   news: seq<Firing>)
    requires Fires(now, alarms, sleeping, left, ready, news) && Ahead(now, sleeping)
    requires left == [] && alarms != multiset{} ==> exists a :: a in alarms && a.time <= now
    ensures ready == [] <==> left == [] && alarms == multiset{}
  {}

  lemma NothingSleeps(now: nat, alarms: multiset<Alarm>, sleeping: multiset<Alarm>, left: seq<nat>, ready: seq<nat>,
                      news: seq<Firing>)
    requires Fires(now, alarms, sleeping, left, ready, news) && alarms == multiset{}
    ensures sleeping == multiset{}
  {}

  /** Between turns, exactly the alarms whose deadline has passed have fired, each as often as it was set. */
  lemma DueExactly(cycle: nat, time: nat, pushed: multiset<Alarm>, sleeping: multiset<Alarm>, fired: seq<Firing>)
    requires AlarmsExact(cycle, time, pushed, sleeping, fired) && Ahead(time, sleeping)
    ensures forall a :: multiset(Alarms(fired))[a] == if a.time <= time then pushed[a] else 0
  {}

  lemma NoneFired(now: nat, alarms: multiset<Alarm>, ready: seq<nat>)
    ensures Fires(now, alarms, alarms, ready, ready, []) && Later(alarms, [])
  {}

  lemma Finished(next: Option<Alarm>, now: nat, sleeping: multiset<Alarm>)
    requires next.None? ==> sleeping == multiset{}
    requires next.Some? ==> IsFirst(next.value, sleeping) && next.value.time > now
    ensures Ahead(now, sleeping)
  {}

  lemma FirstIn(next: Alarm, sleeping: multiset<Alarm>)
    requires IsFirst(next, sleeping)
    ensures next in sleeping && |sleeping - multiset{next}| < |sleeping|
  {}
}
