/** What the polls of tasks do to the queue of ready ids and to the alarms, act by act. */
module Effects {
  datatype Alarm = Alarm(time: nat, id: nat)

  datatype Effect = Spawn | WakeTask(id: nat) | PollSleeper(sleeper: nat)

  datatype PollResult = PollResult(effects: seq<Effect>, ready: bool)

  /** One effect of a poll of the task. */
  datatype Act = Act(task: nat, effect: Effect)

  /** What the effects of polls change. */
  datatype View = View(counter: nat, ready: seq<nat>, registered: set<nat>, sleeping: multiset<Alarm>)

  /** Acts in order, and the positions of those that spawn a task, queue an id and set an alarm, with the ids and the
      alarms. */
  datatype Account = Account(
    acts: seq<Act>,
    spawns: seq<nat>,
    queues: seq<nat>,
    queued: seq<nat>,
    arms: seq<nat>,
    armed: seq<Alarm>)

  ghost predicate Positions(s: seq<nat>, n: nat) {
    (forall p :: 0 <= p < |s| ==> s[p] < n) && forall p, q :: 0 <= p < q < |s| ==> s[p] < s[q]
  }

  /** Every spawn, and nothing else, takes the next id. */
  ghost predicate Counts(a: Account, counter: nat, counter': nat) {
    Positions(a.spawns, |a.acts|) && counter' == counter + |a.spawns| &&
    forall i :: 0 <= i < |a.acts| ==> (i in a.spawns <==> a.acts[i].effect == Spawn)
  }

  /** The id existed before the first act, or an act before i spawned it. */
  ghost predicate Known(a: Account, counter: nat, id: nat, i: nat) {
    id < counter || (id < counter + |a.spawns| && a.spawns[id - counter] < i)
  }

  /** The id that act i queues: that of the task it spawns or wakes. */
  ghost predicate QueuedAs(a: Account, counter: nat, i: nat, id: nat)
    requires i < |a.acts|
  {
    match a.acts[i].effect
    case Spawn => counter <= id < counter + |a.spawns| && a.spawns[id - counter] == i
    case WakeTask(woken) => id == woken
    case PollSleeper(_) => false
  }

  /** Act i spawns a task, or wakes one that is known. */
  ghost predicate Pushes(a: Account, counter: nat, i: nat)
    requires i < |a.acts|
  {
    a.acts[i].effect == Spawn || (a.acts[i].effect.WakeTask? && Known(a, counter, a.acts[i].effect.id, i))
  }

  /** Every spawn and every wake of a known task, and nothing else, queues its id, in order. */
  ghost predicate Queues(a: Account, counter: nat) {
    Positions(a.queues, |a.acts|) && |a.queued| == |a.queues| &&
    (forall i :: 0 <= i < |a.acts| ==> (i in a.queues <==> Pushes(a, counter, i))) &&
    forall q :: 0 <= q < |a.queues| ==> QueuedAs(a, counter, a.queues[q], a.queued[q])
  }

  /** Polls a sleeper before its deadline. */
  predicate Early(act: Act, deadlines: nat -> nat, time: nat) {
    act.effect.PollSleeper? && time < deadlines(act.effect.sleeper)
  }

  /** The first early poll of a sleeper that was not registered. */
  ghost predicate FirstPoll(a: Account, i: nat, deadlines: nat -> nat, time: nat, registered: set<nat>)
    requires i < |a.acts|
  {
    Early(a.acts[i], deadlines, time) && a.acts[i].effect.sleeper !in registered &&
    forall j :: 0 <= j < i ==> a.acts[j].effect != a.acts[i].effect
  }

  ghost predicate ArmedAs(a: Account, i: nat, deadlines: nat -> nat, alarm: Alarm)
    requires i < |a.acts|
  {
    a.acts[i].effect.PollSleeper? && alarm == Alarm(deadlines(a.acts[i].effect.sleeper), a.acts[i].task)
  }

  /** The first early poll of every new sleeper, and nothing else, sets an alarm, for the task that polled. */
  ghost predicate Arms(a: Account, deadlines: nat -> nat, time: nat, registered: set<nat>) {
    Positions(a.arms, |a.acts|) && |a.armed| == |a.arms| &&
    (forall i :: 0 <= i < |a.acts| ==> (i in a.arms <==> FirstPoll(a, i, deadlines, time, registered))) &&
    forall q :: 0 <= q < |a.arms| ==> ArmedAs(a, a.arms[q], deadlines, a.armed[q])
  }

  /** The sleepers polled early, and no others, are registered. */
  ghost predicate Registers(a: Account, deadlines: nat -> nat, time: nat, registered: set<nat>, registered': set<nat>) {
    registered <= registered' &&
    (forall i :: 0 <= i < |a.acts| && Early(a.acts[i], deadlines, time) ==> a.acts[i].effect.sleeper in registered') &&
    forall s :: s in registered' && s !in registered ==> PolledEarly(a, deadlines, time, s)
  }

  ghost predicate PolledEarly(a: Account, deadlines: nat -> nat, time: nat, sleeper: nat) {
    exists i :: 0 <= i < |a.acts| && Early(a.acts[i], deadlines, time) && a.acts[i].effect == PollSleeper(sleeper)
  }

  /** The acts lead from one view to the other. */
  ghost predicate Accounts(a: Account, deadlines: nat -> nat, time: nat, before: View, after: View) {
    Counts(a, before.counter, after.counter) &&
    Queues(a, before.counter) && after.ready == before.ready + a.queued &&
    Registers(a, deadlines, time, before.registered, after.registered) &&
    Arms(a, deadlines, time, before.registered) &&
    after.sleeping == before.sleeping + multiset(a.armed)
  }

  function NoActs(): Account { Account([], [], [], [], [], []) }

  lemma NothingDone(deadlines: nat -> nat, time: nat, v: View)
    ensures Accounts(NoActs(), deadlines, time, v, v)
  {}

  lemma OneSpawn(task: nat, deadlines: nat -> nat, time: nat, before: View, after: View)
    requires after == before.(counter := before.counter + 1, ready := before.ready + [before.counter])
    ensures Accounts(Account([Act(task, Spawn)], [0], [0], [before.counter], [], []), deadlines, time, before, after)
  {}

  lemma OneWake(task: nat, id: nat, deadlines: nat -> nat, time: nat, before: View, after: View)
    requires after == before.(ready := before.ready + if id < before.counter then [id] else [])
    ensures var known := id < before.counter;
      Accounts(Account([Act(task, WakeTask(id))], [], if known then [0] else [], if known then [id] else [], [], []),
               deadlines, time, before, after)
  {}

  lemma OneAlarm(task: nat, sleeper: nat, deadlines: nat -> nat, time: nat, before: View, after: View)
    requires time < deadlines(sleeper) && sleeper !in before.registered
    requires after == before.(registered := before.registered + {sleeper},
                              sleeping := before.sleeping + multiset{Alarm(deadlines(sleeper), task)})
    ensures Accounts(Account([Act(task, PollSleeper(sleeper))], [], [], [], [0], [Alarm(deadlines(sleeper), task)]),
                     deadlines, time, before, after)
  {
    var a := Account([Act(task, PollSleeper(sleeper))], [], [], [], [0], [Alarm(deadlines(sleeper), task)]);
    assert Early(a.acts[0], deadlines, time) && a.acts[0].effect == PollSleeper(sleeper);
    assert multiset(a.armed) == multiset{Alarm(deadlines(sleeper), task)};
  }

  lemma NoAlarm(task: nat, sleeper: nat, deadlines: nat -> nat, time: nat, v: View)
    requires time >= deadlines(sleeper) || sleeper in v.registered
    ensures Accounts(Account([Act(task, PollSleeper(sleeper))], [], [], [], [], []), deadlines, time, v, v)
  {}

  // ---------- One account after another ----------

  function Shifted(s: seq<nat>, n: nat): (r: seq<nat>)
    ensures |r| == |s| && forall p :: 0 <= p < |s| ==> r[p] == s[p] + n
  {
    seq(|s|, p requires 0 <= p < |s| => s[p] + n)
  }

  function Then(a: Account, b: Account): Account {
    var n := |a.acts|;
    Account(a.acts + b.acts, a.spawns + Shifted(b.spawns, n), a.queues + Shifted(b.queues, n), a.queued + b.queued,
            a.arms + Shifted(b.arms, n), a.armed + b.armed)
  }

  lemma PositionsThen(s: seq<nat>, t: seq<nat>, m: nat, n: nat)
    requires Positions(s, m) && Positions(t, n)
    ensures Positions(s + Shifted(t, m), m + n)
    ensures forall i: nat :: i < m ==> (i in s + Shifted(t, m) <==> i in s)
    ensures forall i: nat :: i < n ==> (m + i in s + Shifted(t, m) <==> i in t)
  {
    var all := s + Shifted(t, m);
    forall i: nat | i < n
      ensures m + i in all <==> i in t
    {
      if i in t {
        var p :| 0 <= p < |t| && t[p] == i;
        assert all[|s| + p] == m + i;
      }
      if m + i in all {
        var p :| 0 <= p < |all| && all[p] == m + i;
        assert p >= |s| && t[p - |s|] == i;
      }
    }
    forall i: nat | i < m
      ensures i in all <==> i in s
    {
      if i in s {
        var p :| 0 <= p < |s| && s[p] == i;
        assert all[p] == i;
      }
    }
  }

  lemma InThen(s: seq<nat>, t: seq<nat>, m: nat, n: nat, i: nat)
    requires Positions(s, m) && Positions(t, n) && i < m + n
    ensures i in s + Shifted(t, m) <==> if i < m then i in s else i - m in t
  {
    PositionsThen(s, t, m, n);
    hide Positions, Shifted;
    if i >= m { assert i == m + (i - m); }
  }

  lemma CountsThen(a: Account, b: Account, c: nat, c': nat, c'': nat)
    requires Counts(a, c, c') && Counts(b, c', c'')
    ensures Counts(Then(a, b), c, c'')
  {
    var ab, n := Then(a, b), |a.acts|;
    PositionsThen(a.spawns, b.spawns, n, |b.acts|);
    hide Positions;
    forall i | 0 <= i < |ab.acts|
      ensures i in ab.spawns <==> ab.acts[i].effect == Spawn
    {
      if i >= n { assert i == n + (i - n); }
    }
  }

  lemma KnownThen(a: Account, b: Account, c: nat, c': nat, id: nat, i: nat)
    requires Counts(a, c, c') && Positions(b.spawns, |b.acts|)
    ensures i < |a.acts| ==> (Known(Then(a, b), c, id, i) <==> Known(a, c, id, i))
    ensures Known(Then(a, b), c, id, |a.acts| + i) <==> Known(b, c', id, i)
  {
    var ab := Then(a, b);
    if c <= id < c + |ab.spawns| {
      var p := id - c;
      assert ab.spawns[p] == if p < |a.spawns| then a.spawns[p] else b.spawns[p - |a.spawns|] + |a.acts|;
    }
  }

  lemma PushesThen(a: Account, b: Account, c: nat, c': nat, i: nat)
    requires Counts(a, c, c') && Positions(b.spawns, |b.acts|)
    ensures i < |a.acts| ==> (Pushes(Then(a, b), c, i) <==> Pushes(a, c, i))
    ensures i < |b.acts| ==> (Pushes(Then(a, b), c, |a.acts| + i) <==> Pushes(b, c', i))
  {
    hide Known, Positions, Counts;
    if i < |a.acts| && a.acts[i].effect.WakeTask? { KnownThen(a, b, c, c', a.acts[i].effect.id, i); }
    if i < |b.acts| && b.acts[i].effect.WakeTask? { KnownThen(a, b, c, c', b.acts[i].effect.id, i); }
  }

  lemma QueuesThen(a: Account, b: Account, c: nat, c': nat, c'': nat)
    requires Counts(a, c, c') && Counts(b, c', c'') && Queues(a, c) && Queues(b, c')
    ensures Queues(Then(a, b), c)
  {
    PositionsThen(a.queues, b.queues, |a.acts|, |b.acts|);
    hide Positions, Pushes, QueuedAs;
    QueuesWhere(a, b, c, c', c'');
    QueuesWhat(a, b, c, c');
  }

  lemma QueuesWhere(a: Account, b: Account, c: nat, c': nat, c'': nat)
    requires Counts(a, c, c') && Counts(b, c', c'') && Queues(a, c) && Queues(b, c')
    ensures var ab := Then(a, b); forall i :: 0 <= i < |ab.acts| ==> (i in ab.queues <==> Pushes(ab, c, i))
  {
    hide Positions, Pushes, QueuedAs, Shifted;
    var ab, n := Then(a, b), |a.acts|;
    forall i | 0 <= i < |ab.acts|
      ensures i in ab.queues <==> Pushes(ab, c, i)
    {
      InThen(a.queues, b.queues, n, |b.acts|, i);
      PushesThen(a, b, c, c', if i < n then i else i - n);
      hide Then, Counts;
    }
  }

  lemma QueuesWhat(a: Account, b: Account, c: nat, c': nat)
    requires Counts(a, c, c') && Queues(a, c) && Queues(b, c') && Positions(Then(a, b).queues, |Then(a, b).acts|)
    ensures |Then(a, b).queued| == |Then(a, b).queues|
    ensures var ab := Then(a, b);
      forall q :: 0 <= q < |ab.queues| ==> QueuedAs(ab, c, ab.queues[q], ab.queued[q])
  {
    var ab, m := Then(a, b), |a.queues|;
    forall q | 0 <= q < |ab.queues|
      ensures QueuedAs(ab, c, ab.queues[q], ab.queued[q])
    {
      if q < m {
        QueuedThen(a, b, c, c', a.queues[q], a.queued[q]);
      } else {
        QueuedAfter(a, b, c, c', b.queues[q - m], b.queued[q - m]);
      }
    }
  }

  lemma QueuedThen(a: Account, b: Account, c: nat, c': nat, i: nat, id: nat)
    requires Counts(a, c, c') && i < |a.acts| && QueuedAs(a, c, i, id)
    ensures QueuedAs(Then(a, b), c, i, id)
  {}

  lemma QueuedAfter(a: Account, b: Account, c: nat, c': nat, i: nat, id: nat)
    requires Counts(a, c, c') && i < |b.acts| && QueuedAs(b, c', i, id)
    ensures QueuedAs(Then(a, b), c, |a.acts| + i, id)
  {
    if b.acts[i].effect == Spawn {
      assert Then(a, b).spawns[id - c] == b.spawns[id - c'] + |a.acts|;
    }
  }

  lemma FirstBefore(a: Account, b: Account, i: nat, deadlines: nat -> nat, time: nat, r: set<nat>)
    requires i < |a.acts|
    ensures FirstPoll(Then(a, b), i, deadlines, time, r) <==> FirstPoll(a, i, deadlines, time, r)
  {
    assert forall j :: 0 <= j <= i ==> Then(a, b).acts[j] == a.acts[j];
  }

  lemma FirstAfter(a: Account, b: Account, i: nat, deadlines: nat -> nat, time: nat, r: set<nat>, r': set<nat>)
    requires i < |b.acts| && Registers(a, deadlines, time, r, r')
    ensures FirstPoll(Then(a, b), |a.acts| + i, deadlines, time, r) <==> FirstPoll(b, i, deadlines, time, r')
  {
    var ab, n, effect := Then(a, b), |a.acts|, b.acts[i].effect;
    assert ab.acts[n + i] == b.acts[i];
    if FirstPoll(ab, n + i, deadlines, time, r) {
      forall j | 0 <= j < i
        ensures b.acts[j].effect != effect
      {
        assert ab.acts[n + j] == b.acts[j];
      }
      forall j | 0 <= j < n
        ensures a.acts[j].effect != effect
      {
        assert ab.acts[j] == a.acts[j];
      }
      assert effect == PollSleeper(effect.sleeper);
    }
    if FirstPoll(b, i, deadlines, time, r') {
      forall j | 0 <= j < n + i
        ensures ab.acts[j].effect != effect
      {
        if j < n && a.acts[j].effect == effect { assert Early(a.acts[j], deadlines, time); }
        assert ab.acts[j] == if j < n then a.acts[j] else b.acts[j - n];
      }
    }
  }

  lemma ArmsThen(a: Account, b: Account, deadlines: nat -> nat, time: nat, r: set<nat>, r': set<nat>)
    requires Arms(a, deadlines, time, r) && Registers(a, deadlines, time, r, r') && Arms(b, deadlines, time, r')
    ensures Arms(Then(a, b), deadlines, time, r)
  {
    PositionsThen(a.arms, b.arms, |a.acts|, |b.acts|);
    hide Registers, FirstPoll, ArmedAs, Positions;
    ArmsWhere(a, b, deadlines, time, r, r');
    ArmsWhat(a, b, deadlines, time, r, r');
  }

  lemma ArmsWhere(a: Account, b: Account, deadlines: nat -> nat, time: nat, r: set<nat>, r': set<nat>)
    requires Arms(a, deadlines, time, r) && Registers(a, deadlines, time, r, r') && Arms(b, deadlines, time, r')
    ensures var ab := Then(a, b);
      forall i :: 0 <= i < |ab.acts| ==> (i in ab.arms <==> FirstPoll(ab, i, deadlines, time, r))
  {
    hide Registers, FirstPoll, ArmedAs, Positions, Shifted;
    var ab, n := Then(a, b), |a.acts|;
    forall i | 0 <= i < |ab.acts|
      ensures i in ab.arms <==> FirstPoll(ab, i, deadlines, time, r)
    {
      InThen(a.arms, b.arms, n, |b.acts|, i);
      if i < n {
        FirstBefore(a, b, i, deadlines, time, r);
      } else {
        FirstAfter(a, b, i - n, deadlines, time, r, r');
      }
      hide Then;
    }
  }

  lemma ArmsWhat(a: Account, b: Account, deadlines: nat -> nat, time: nat, r: set<nat>, r': set<nat>)
    requires Arms(a, deadlines, time, r) && Arms(b, deadlines, time, r')
    requires Positions(Then(a, b).arms, |Then(a, b).acts|)
    ensures |Then(a, b).armed| == |Then(a, b).arms|
    ensures var ab := Then(a, b);
      forall q :: 0 <= q < |ab.arms| ==> ArmedAs(ab, ab.arms[q], deadlines, ab.armed[q])
  {
    hide FirstPoll, ArmedAs;
    var ab, m := Then(a, b), |a.arms|;
    forall q | 0 <= q < |ab.arms|
      ensures ArmedAs(ab, ab.arms[q], deadlines, ab.armed[q])
    {
      if q < m {
        ArmedThen(a, b, a.arms[q], deadlines, a.armed[q]);
      } else {
        ArmedAfter(a, b, b.arms[q - m], deadlines, b.armed[q - m]);
      }
    }
  }

  lemma ArmedThen(a: Account, b: Account, i: nat, deadlines: nat -> nat, alarm: Alarm)
    requires i < |a.acts| && ArmedAs(a, i, deadlines, alarm)
    ensures ArmedAs(Then(a, b), i, deadlines, alarm)
  {}

  lemma ArmedAfter(a: Account, b: Account, i: nat, deadlines: nat -> nat, alarm: Alarm)
    requires i < |b.acts| && ArmedAs(b, i, deadlines, alarm)
    ensures ArmedAs(Then(a, b), |a.acts| + i, deadlines, alarm)
  {}

  lemma RegistersThen(a: Account, b: Account, deadlines: nat -> nat, time: nat, r: set<nat>, r': set<nat>,
                      r'': set<nat>)
    requires Registers(a, deadlines, time, r, r') && Registers(b, deadlines, time, r', r'')
    ensures Registers(Then(a, b), deadlines, time, r, r'')
  {
    var ab, n := Then(a, b), |a.acts|;
    forall i | 0 <= i < |ab.acts| && Early(ab.acts[i], deadlines, time)
      ensures ab.acts[i].effect.sleeper in r''
    {
      assert ab.acts[i] == if i < n then a.acts[i] else b.acts[i - n];
    }
    forall s | s in r'' && s !in r
      ensures PolledEarly(ab, deadlines, time, s)
    {
      if s in r' {
        var i :| 0 <= i < n && Early(a.acts[i], deadlines, time) && a.acts[i].effect == PollSleeper(s);
        assert ab.acts[i] == a.acts[i];
      } else {
        var i :| 0 <= i < |b.acts| && Early(b.acts[i], deadlines, time) && b.acts[i].effect == PollSleeper(s);
        assert ab.acts[n + i] == b.acts[i];
      }
    }
  }

  lemma AccountsThen(a: Account, b: Account, deadlines: nat -> nat, time: nat, v: View, v': View, v'': View)
    requires Accounts(a, deadlines, time, v, v') && Accounts(b, deadlines, time, v', v'')
    ensures Accounts(Then(a, b), deadlines, time, v, v'')
  {
    hide Counts, Queues, Registers, Arms;
    CountsThen(a, b, v.counter, v'.counter, v''.counter);
    QueuesThen(a, b, v.counter, v'.counter, v''.counter);
    RegistersThen(a, b, deadlines, time, v.registered, v'.registered, v''.registered);
    ArmsThen(a, b, deadlines, time, v.registered, v'.registered);
    assert multiset(a.armed + b.armed) == multiset(a.armed) + multiset(b.armed);
  }

  // ---------- What an account says, effect by effect ----------

  /** The effects of one poll of the task. */
  function Labelled(task: nat, effects: seq<Effect>): (acts: seq<Act>)
    ensures |acts| == |effects| && forall e :: 0 <= e < |effects| ==> acts[e] == Act(task, effects[e])
  {
    seq(|effects|, e requires 0 <= e < |effects| => Act(task, effects[e]))
  }

  lemma LabelledNext(task: nat, effects: seq<Effect>, i: nat)
    requires i < |effects|
    ensures Labelled(task, effects[..i + 1]) == Labelled(task, effects[..i]) + [Act(task, effects[i])]
  {}

  /** The effects of all the polls, in order. */
  function Acts(log: seq<(nat, bool)>, results: seq<PollResult>): seq<Act>
    requires |log| == |results|
  {
    if log == [] then []
    else
      var last := |log| - 1;
      Acts(log[..last], results[..last]) + Labelled(log[last].0, results[last].effects)
  }

  lemma ActsNext(log: seq<(nat, bool)>, results: seq<PollResult>, entry: (nat, bool), result: PollResult)
    requires |log| == |results|
    ensures Acts(log + [entry], results + [result]) == Acts(log, results) + Labelled(entry.0, result.effects)
  {
    assert (log + [entry])[..|log|] == log && (results + [result])[..|log|] == results;
  }

  /** Some poll of the task had the effect. */
  ghost predicate Has(log: seq<(nat, bool)>, results: seq<PollResult>, act: Act)
    requires |log| == |results|
  {
    exists i, e :: 0 <= i < |log| && 0 <= e < |results[i].effects| && act == Act(log[i].0, results[i].effects[e])
  }

  lemma {:induction false} ActsAre(log: seq<(nat, bool)>, results: seq<PollResult>, act: Act)
    requires |log| == |results|
    ensures act in Acts(log, results) <==> Has(log, results, act)
  {
    if log != [] {
      var last := |log| - 1;
      var front, rest := log[..last], results[..last];
      ActsAre(front, rest, act);
      assert log == front + [log[last]] && results == rest + [results[last]];
      ActsNext(front, rest, log[last], results[last]);
      HasNext(front, rest, log[last], results[last], act);
      hide Acts, Has;
    }
  }

  lemma HasNext(log: seq<(nat, bool)>, results: seq<PollResult>, entry: (nat, bool), result: PollResult, act: Act)
    requires |log| == |results|
    ensures Has(log + [entry], results + [result], act) <==>
      Has(log, results, act) || act in Labelled(entry.0, result.effects)
  {
    var n, log', results', more := |log|, log + [entry], results + [result], Labelled(entry.0, result.effects);
    if Has(log, results, act) {
      var i, e :| 0 <= i < n && 0 <= e < |results[i].effects| && act == Act(log[i].0, results[i].effects[e]);
      assert act == Act(log'[i].0, results'[i].effects[e]);
    }
    if act in more {
      var e :| 0 <= e < |more| && more[e] == act;
      assert act == Act(log'[n].0, results'[n].effects[e]);
    }
    if Has(log', results', act) {
      var i, e :| 0 <= i < |log'| && 0 <= e < |results'[i].effects| && act == Act(log'[i].0, results'[i].effects[e]);
      if i < n {
        assert act == Act(log[i].0, results[i].effects[e]);
      } else {
        assert more[e] == act;
      }
    }
  }

  /** The spawns among the effects of these polls. */
  ghost function Spawns(results: seq<PollResult>): set<(nat, nat)> {
    set i: nat, e: nat | i < |results| && e < |results[i].effects| && results[i].effects[e] == Spawn :: (i, e)
  }

  lemma SpawnsNext(results: seq<PollResult>, result: PollResult)
    ensures |Spawns(results + [result])| ==
      |Spawns(results)| + |set e: nat | e < |result.effects| && result.effects[e] == Spawn|
  {
    var last := set e: nat | e < |result.effects| && result.effects[e] == Spawn;
    var pairs := set e | e in last :: (|results|, e);
    PairCount(|results|, last, pairs);
    SpawnsSplit(results, result, pairs);
    hide Spawns;
    DisjointCount(Spawns(results), pairs);
  }

  lemma SpawnsSplit(results: seq<PollResult>, result: PollResult, pairs: set<(nat, nat)>)
    requires forall p :: p in pairs <==> p.0 == |results| && p.1 < |result.effects| && result.effects[p.1] == Spawn
    ensures Spawns(results + [result]) == Spawns(results) + pairs && Spawns(results) !! pairs
  {
    var all := results + [result];
    forall p: (nat, nat)
      ensures p in Spawns(all) <==> p in Spawns(results) || p in pairs
    {
      if p.0 < |results| { assert all[p.0] == results[p.0]; }
    }
  }

  lemma DisjointCount(a: set<(nat, nat)>, b: set<(nat, nat)>)
    requires a !! b
    ensures |a + b| == |a| + |b|
  {}

  lemma {:induction false} PairCount(n: nat, s: set<nat>, pairs: set<(nat, nat)>)
    requires pairs == set e | e in s :: (n, e)
    ensures |pairs| == |s|
    decreases s
  {
    if s == {} {
      assert pairs == {};
    } else {
      var x :| x in s;
      PairCount(n, s - {x}, pairs - {(n, x)});
    }
  }

  lemma {:induction false} PositionCount(s: seq<nat>, n: nat, all: set<nat>)
    requires Positions(s, n) && forall i :: i in all <==> i in s
    ensures |s| == |all|
    decreases s
  {
    if s == [] {
      assert all == {};
    } else {
      var last := |s| - 1;
      assert s[last] in all;
      forall i
        ensures i in all - {s[last]} <==> i in s[..last]
      {
        if i in s && i != s[last] {
          var p :| 0 <= p < |s| && s[p] == i;
          assert s[..last][p] == i;
        }
        if i in s[..last] {
          var p :| 0 <= p < last && s[p] == i;
        }
      }
      PositionCount(s[..last], n, all - {s[last]});
    }
  }

  /** Every task spawned or woken is queued, and no other. */
  ghost predicate LeavesReady(results: seq<PollResult>, counter: nat, counter': nat, ready: seq<nat>,
                              ready': seq<nat>)
  {
    counter <= counter' && ready <= ready' &&
    var queued := ready'[|ready|..];
    (forall id: nat :: counter <= id < counter' ==> id in queued) &&
    (forall i, e :: 0 <= i < |results| && 0 <= e < |results[i].effects| ==>
      results[i].effects[e].WakeTask? && results[i].effects[e].id < counter' ==> results[i].effects[e].id in queued) &&
    forall id :: id in queued ==>
      counter <= id < counter' ||
      exists i, e :: 0 <= i < |results| && 0 <= e < |results[i].effects| && results[i].effects[e] == WakeTask(id)
  }

  /** Every sleeper polled early is registered, with an alarm for a task that polled it if it is new, and no other. */
  ghost predicate LeavesAlarms(log: seq<(nat, bool)>, results: seq<PollResult>, deadlines: nat -> nat, time: nat,
                               registered: set<nat>, registered': set<nat>, sleeping: multiset<Alarm>)
    requires |log| == |results|
  {
    registered <= registered' &&
    (forall i, e :: 0 <= i < |log| && 0 <= e < |results[i].effects| ==>
      results[i].effects[e].PollSleeper? && time < deadlines(results[i].effects[e].sleeper) ==>
      results[i].effects[e].sleeper in registered' &&
      (results[i].effects[e].sleeper !in registered ==>
        HasAlarm(log, results, results[i].effects[e].sleeper, deadlines, sleeping))) &&
    forall s :: s in registered' && s !in registered ==>
      time < deadlines(s) &&
      exists i, e :: 0 <= i < |log| && 0 <= e < |results[i].effects| && results[i].effects[e] == PollSleeper(s)
  }

  /** An alarm of the sleeper, for a task that polled it. */
  ghost predicate HasAlarm(log: seq<(nat, bool)>, results: seq<PollResult>, sleeper: nat, deadlines: nat -> nat,
                           sleeping: multiset<Alarm>)
    requires |log| == |results|
  {
    exists i, e :: 0 <= i < |log| && 0 <= e < |results[i].effects| && results[i].effects[e] == PollSleeper(sleeper) &&
      Alarm(deadlines(sleeper), log[i].0) in sleeping
  }

  lemma SpawnedQueued(a: Account, c: nat, c': nat, id: nat)
    requires Counts(a, c, c') && Queues(a, c) && c <= id < c'
    ensures id in a.queued
  {
    var p := id - c;
    var i := a.spawns[p];
    assert i in a.spawns && i in a.queues;
    var q :| 0 <= q < |a.queues| && a.queues[q] == i;
    assert QueuedAs(a, c, i, a.queued[q]);
  }

  lemma WokenQueued(a: Account, c: nat, c': nat, i: nat)
    requires Counts(a, c, c') && Queues(a, c) && i < |a.acts| && a.acts[i].effect.WakeTask?
    requires a.acts[i].effect.id < c'
    ensures a.acts[i].effect.id in a.queued
  {
    var id := a.acts[i].effect.id;
    if id < c {
      assert i in a.queues;
      var q :| 0 <= q < |a.queues| && a.queues[q] == i;
      assert QueuedAs(a, c, i, a.queued[q]);
    } else {
      SpawnedQueued(a, c, c', id);
    }
  }

  lemma QueuedOrigin(a: Account, c: nat, c': nat, q: nat)
    requires Counts(a, c, c') && Queues(a, c) && q < |a.queued|
    ensures c <= a.queued[q] < c' || exists i :: 0 <= i < |a.acts| && a.acts[i].effect == WakeTask(a.queued[q])
  {
    var i := a.queues[q];
    assert QueuedAs(a, c, i, a.queued[q]);
    if a.acts[i].effect.WakeTask? { assert a.acts[i].effect == WakeTask(a.queued[q]); }
  }

  lemma {:induction false} NewAlarm(a: Account, deadlines: nat -> nat, time: nat, registered: set<nat>, i: nat)
    returns (j: nat)
    requires Arms(a, deadlines, time, registered) && i < |a.acts|
    requires Early(a.acts[i], deadlines, time) && a.acts[i].effect.sleeper !in registered
    ensures j < |a.acts| && a.acts[j].effect == a.acts[i].effect
    ensures Alarm(deadlines(a.acts[i].effect.sleeper), a.acts[j].task) in a.armed
    decreases i
  {
    if FirstPoll(a, i, deadlines, time, registered) {
      j := i;
      assert i in a.arms;
      var q :| 0 <= q < |a.arms| && a.arms[q] == i;
      assert ArmedAs(a, i, deadlines, a.armed[q]);
    } else {
      var k :| 0 <= k < i && a.acts[k].effect == a.acts[i].effect;
      j := NewAlarm(a, deadlines, time, registered, k);
    }
  }

  lemma HasEffect(log: seq<(nat, bool)>, results: seq<PollResult>, act: Act) returns (i: nat, e: nat)
    requires |log| == |results| && act in Acts(log, results)
    ensures i < |log| && e < |results[i].effects| && act == Act(log[i].0, results[i].effects[e])
  {
    ActsAre(log, results, act);
    i, e :| 0 <= i < |log| && 0 <= e < |results[i].effects| && act == Act(log[i].0, results[i].effects[e]);
  }

  lemma EffectActs(log: seq<(nat, bool)>, results: seq<PollResult>, i: nat, e: nat) returns (p: nat)
    requires |log| == |results| && i < |log| && e < |results[i].effects|
    ensures p < |Acts(log, results)| && Acts(log, results)[p] == Act(log[i].0, results[i].effects[e])
  {
    var act := Act(log[i].0, results[i].effects[e]);
    ActsAre(log, results, act);
    p :| 0 <= p < |Acts(log, results)| && Acts(log, results)[p] == act;
  }

  lemma ReadyLeft(a: Account, log: seq<(nat, bool)>, results: seq<PollResult>, c: nat, c': nat, ready: seq<nat>)
    requires |log| == |results| && a.acts == Acts(log, results) && Counts(a, c, c') && Queues(a, c)
    ensures LeavesReady(results, c, c', ready, ready + a.queued)
  {
    hide Queues, Acts;
    assert (ready + a.queued)[|ready|..] == a.queued;
    forall id: nat | c <= id < c'
      ensures id in a.queued
    {
      SpawnedQueued(a, c, c', id);
    }
    forall i, e | 0 <= i < |results| && 0 <= e < |results[i].effects|
      ensures results[i].effects[e].WakeTask? && results[i].effects[e].id < c' ==> results[i].effects[e].id in a.queued
    {
      if results[i].effects[e].WakeTask? && results[i].effects[e].id < c' {
        var p := EffectActs(log, results, i, e);
        WokenQueued(a, c, c', p);
      }
    }
    forall id | id in a.queued
      ensures c <= id < c' ||
        exists i, e :: 0 <= i < |results| && 0 <= e < |results[i].effects| && results[i].effects[e] == WakeTask(id)
    {
      var q :| 0 <= q < |a.queued| && a.queued[q] == id;
      QueuedOrigin(a, c, c', q);
      if !(c <= id < c') {
        var p :| 0 <= p < |a.acts| && a.acts[p].effect == WakeTask(id);
        var i, e := HasEffect(log, results, a.acts[p]);
        assert results[i].effects[e] == WakeTask(id);
      }
    }
  }

  lemma AlarmLeft(a: Account, log: seq<(nat, bool)>, results: seq<PollResult>, deadlines: nat -> nat, time: nat,
                  registered: set<nat>, sleeping: multiset<Alarm>, p: nat)
    requires |log| == |results| && a.acts == Acts(log, results) && Arms(a, deadlines, time, registered)
    requires p < |a.acts| && Early(a.acts[p], deadlines, time) && a.acts[p].effect.sleeper !in registered
    requires multiset(a.armed) <= sleeping
    ensures HasAlarm(log, results, a.acts[p].effect.sleeper, deadlines, sleeping)
  {
    hide Arms, Acts;
    var sleeper := a.acts[p].effect.sleeper;
    var q := NewAlarm(a, deadlines, time, registered, p);
    var i, e := HasEffect(log, results, a.acts[q]);
    assert results[i].effects[e] == PollSleeper(sleeper);
    var alarm := Alarm(deadlines(sleeper), log[i].0);
    assert alarm in multiset(a.armed);
    assert alarm in sleeping;
  }

  lemma AlarmsLeft(a: Account, log: seq<(nat, bool)>, results: seq<PollResult>, deadlines: nat -> nat, time: nat,
                   r: set<nat>, r': set<nat>, sleeping: multiset<Alarm>)
    requires |log| == |results| && a.acts == Acts(log, results) && Arms(a, deadlines, time, r)
    requires Registers(a, deadlines, time, r, r') && multiset(a.armed) <= sleeping
    ensures LeavesAlarms(log, results, deadlines, time, r, r', sleeping)
  {
    hide Arms, Acts, HasAlarm;
    forall i, e | 0 <= i < |log| && 0 <= e < |results[i].effects|
      ensures results[i].effects[e].PollSleeper? && time < deadlines(results[i].effects[e].sleeper) ==>
        results[i].effects[e].sleeper in r' &&
        (results[i].effects[e].sleeper !in r ==>
          HasAlarm(log, results, results[i].effects[e].sleeper, deadlines, sleeping))
    {
      if results[i].effects[e].PollSleeper? && time < deadlines(results[i].effects[e].sleeper) {
        var p := EffectActs(log, results, i, e);
        if results[i].effects[e].sleeper !in r {
          AlarmLeft(a, log, results, deadlines, time, r, sleeping, p);
        }
      }
    }
    forall s | s in r' && s !in r
      ensures time < deadlines(s) &&
        exists i, e :: 0 <= i < |log| && 0 <= e < |results[i].effects| && results[i].effects[e] == PollSleeper(s)
    {
      var p :| 0 <= p < |a.acts| && Early(a.acts[p], deadlines, time) && a.acts[p].effect == PollSleeper(s);
      var i, e := HasEffect(log, results, a.acts[p]);
      assert results[i].effects[e] == PollSleeper(s);
    }
  }

  /** What an account of these polls leaves behind. */
  ghost predicate Leaves(log: seq<(nat, bool)>, results: seq<PollResult>, deadlines: nat -> nat, time: nat,
                         before: View, after: View)
    requires |log| == |results|
  {
    LeavesReady(results, before.counter, after.counter, before.ready, after.ready) &&
    before.sleeping <= after.sleeping &&
    LeavesAlarms(log, results, deadlines, time, before.registered, after.registered, after.sleeping)
  }

  lemma AccountGrows(a: Account, deadlines: nat -> nat, time: nat, before: View, after: View)
    requires Accounts(a, deadlines, time, before, after)
    ensures before.counter <= after.counter && after.ready == before.ready + a.queued
    ensures after.sleeping == before.sleeping + multiset(a.armed)
  {}

  lemma ActsThen(a: Account, b: Account)
    ensures Then(a, b).acts == a.acts + b.acts
  {}

  lemma NoPolls()
    ensures Acts([], []) == [] && Spawns([]) == {}
  {}

  lemma ArmedTogether(a: Account, b: Account)
    ensures multiset(Then(a, b).armed) == multiset(a.armed) + multiset(b.armed)
  {}

  /** A spawn later in the order gets a higher id. */
  lemma SpawnOrder(a: Account, c: nat, c': nat, p: nat, q: nat)
    requires Counts(a, c, c') && Queues(a, c) && p < q < |a.queues|
    requires a.acts[a.queues[p]].effect == Spawn && a.acts[a.queues[q]].effect == Spawn
    ensures c <= a.queued[p] < a.queued[q] < c'
  {
    assert QueuedAs(a, c, a.queues[p], a.queued[p]) && QueuedAs(a, c, a.queues[q], a.queued[q]);
  }

  /** One poll: as many ids as spawns, in order, and as many queued as spawns and wakes, if the tasks woken existed. */
  ghost predicate Tally(a: Account, effects: seq<Effect>, counter: nat, counter': nat) {
    counter' == counter + (|set e: nat | e < |effects| && effects[e] == Spawn|) && |a.queued| == |a.queues| &&
    ((forall e :: 0 <= e < |effects| && effects[e].WakeTask? ==> effects[e].id < counter) ==>
      |a.queued| == |set e: nat | e < |effects| && (effects[e] == Spawn || effects[e].WakeTask?)|) &&
    (forall q :: 0 <= q < |a.queues| ==> a.queues[q] < |effects|) &&
    forall p, q :: 0 <= p < q < |a.queues| ==>
      a.queues[p] < a.queues[q] &&
      (effects[a.queues[p]] == Spawn == effects[a.queues[q]] ==> counter <= a.queued[p] < a.queued[q] < counter')
  }

  lemma Tallied(a: Account, task: nat, effects: seq<Effect>, c: nat, c': nat)
    requires a.acts == Labelled(task, effects) && Counts(a, c, c') && Queues(a, c)
    ensures Tally(a, effects, c, c')
  {
    SpawnTally(a, task, effects, c, c');
    if forall e :: 0 <= e < |effects| && effects[e].WakeTask? ==> effects[e].id < c {
      QueueTally(a, task, effects, c);
    }
    forall p, q | 0 <= p < q < |a.queues| && effects[a.queues[p]] == Spawn == effects[a.queues[q]]
      ensures c <= a.queued[p] < a.queued[q] < c'
    {
      SpawnOrder(a, c, c', p, q);
    }
  }

  lemma SpawnTally(a: Account, task: nat, effects: seq<Effect>, c: nat, c': nat)
    requires a.acts == Labelled(task, effects) && Counts(a, c, c')
    ensures c' == c + |set e: nat | e < |effects| && effects[e] == Spawn|
  {
    var spawns := set e: nat | e < |effects| && effects[e] == Spawn;
    assert forall i :: i in spawns <==> i in a.spawns;
    PositionCount(a.spawns, |effects|, spawns);
  }

  lemma QueueTally(a: Account, task: nat, effects: seq<Effect>, c: nat)
    requires a.acts == Labelled(task, effects) && Queues(a, c)
    requires forall e :: 0 <= e < |effects| && effects[e].WakeTask? ==> effects[e].id < c
    ensures |a.queued| == |set e: nat | e < |effects| && (effects[e] == Spawn || effects[e].WakeTask?)|
  {
    var queues := set e: nat | e < |effects| && (effects[e] == Spawn || effects[e].WakeTask?);
    assert forall i :: i in queues <==> i in a.queues;
    PositionCount(a.queues, |effects|, queues);
  }

  lemma OnePoll(a: Account, task: nat, result: PollResult, deadlines: nat -> nat, time: nat, before: View, after: View)
    requires a.acts == Labelled(task, result.effects) && Accounts(a, deadlines, time, before, after)
    ensures Leaves([(task, result.ready)], [result], deadlines, time, before, after)
    ensures Tally(a, result.effects, before.counter, after.counter)
  {
    hide Leaves, Arms, Registers, Counts, Queues, Tally;
    ActsNext([], [], (task, result.ready), result);
    NoPolls();
    hide Acts;
    assert [] + [(task, result.ready)] == [(task, result.ready)] && [] + [result] == [result];
    assert [] + a.acts == a.acts;
    AccountLeaves(a, [(task, result.ready)], [result], deadlines, time, before, after);
    Tallied(a, task, result.effects, before.counter, after.counter);
  }

  lemma TallySpawns(a: Account, effects: seq<Effect>, c: nat, c': nat)
    requires Tally(a, effects, c, c')
    ensures c' == c + |set e: nat | e < |effects| && effects[e] == Spawn|
  {}

  lemma AccountLeaves(a: Account, log: seq<(nat, bool)>, results: seq<PollResult>, deadlines: nat -> nat, time: nat,
                      before: View, after: View)
    requires |log| == |results| && a.acts == Acts(log, results) && Accounts(a, deadlines, time, before, after)
    ensures Leaves(log, results, deadlines, time, before, after)
  {
    hide Counts, Queues, Arms, Registers, Acts, LeavesReady, LeavesAlarms;
    ReadyLeft(a, log, results, before.counter, after.counter, before.ready);
    AlarmsLeft(a, log, results, deadlines, time, before.registered, after.registered, after.sleeping);
  }

  // ---------- A batch of polls ----------

  /** These polls, with these results, lead from one view to the other. */
  ghost predicate Ledger(a: Account, log: seq<(nat, bool)>, results: seq<PollResult>, deadlines: nat -> nat, time: nat,
                         before: View, after: View)
  {
    |log| == |results| && a.acts == Acts(log, results) && Accounts(a, deadlines, time, before, after) &&
    after.counter == before.counter + |Spawns(results)|
  }

  lemma LedgerStarts(deadlines: nat -> nat, time: nat, v: View)
    ensures Ledger(NoActs(), [], [], deadlines, time, v, v)
  {
    NothingDone(deadlines, time, v);
    NoPolls();
  }

  lemma LedgerNext(a: Account, b: Account, log: seq<(nat, bool)>, results: seq<PollResult>, task: nat,
                   result: PollResult, deadlines: nat -> nat, time: nat, before: View, now: View, after: View)
    requires Ledger(a, log, results, deadlines, time, before, now)
    requires b.acts == Labelled(task, result.effects) && Accounts(b, deadlines, time, now, after)
    requires Tally(b, result.effects, now.counter, after.counter)
    ensures Ledger(Then(a, b), log + [(task, result.ready)], results + [result], deadlines, time, before, after)
    ensures multiset(Then(a, b).armed) == multiset(a.armed) + multiset(b.armed)
    ensures now.counter <= after.counter
  {
    hide Accounts, Acts, Spawns, Tally;
    AccountsThen(a, b, deadlines, time, before, now, after);
    AccountGrows(b, deadlines, time, now, after);
    ArmedTogether(a, b);
    ActsNext(log, results, (task, result.ready), result);
    SpawnsNext(results, result);
    TallySpawns(b, result.effects, now.counter, after.counter);
    ActsThen(a, b);
  }

  lemma LedgerLeaves(a: Account, log: seq<(nat, bool)>, results: seq<PollResult>, deadlines: nat -> nat, time: nat,
                     before: View, after: View)
    requires Ledger(a, log, results, deadlines, time, before, after)
    ensures |log| == |results| && Leaves(log, results, deadlines, time, before, after)
  {
    hide Accounts, Acts, Spawns, Leaves;
    AccountLeaves(a, log, results, deadlines, time, before, after);
  }
}
