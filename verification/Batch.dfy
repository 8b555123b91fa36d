// Batch dispatch as step systems: one task per request, at most `concurrency` sends in
// flight, results collected in input order or as they complete.
module Batch {
  import opened Wrappers

  // How a send ended: with a response or client error (abstracted to a number), or by a panic.
  datatype Ending = Sent(result: int) | Panicked

  datatype Task = Waiting | Sending | Ended(ending: Ending)

  // A delivered result: the request it answers, or none for a panicked task.
  datatype BatchResult = BatchResult(config: Option<nat>, ending: Ending)

  function ResultOf(config: nat, ending: Ending): BatchResult {
    if ending.Panicked? then BatchResult(None, Panicked) else BatchResult(Some(config), ending)
  }

  // ---- sums over tasks ----

  function Sum(tasks: seq<Task>, weight: Task -> nat): nat {
    if tasks == [] then 0 else Sum(tasks[..|tasks| - 1], weight) + weight(tasks[|tasks| - 1])
  }

  function InFlight(t: Task): nat {
    if t.Sending? then 1 else 0
  }

  lemma SumSnoc(tasks: seq<Task>, t: Task, weight: Task -> nat)
    ensures Sum(tasks + [t], weight) == Sum(tasks, weight) + weight(t)
  {
    assert (tasks + [t])[..|tasks + [t]| - 1] == tasks;
  }

  lemma {:induction false} SumUpdate(tasks: seq<Task>, i: nat, t: Task, weight: Task -> nat)
    requires i < |tasks|
    ensures Sum(tasks[i := t], weight) + weight(tasks[i]) == Sum(tasks, weight) + weight(t)
  {
    var n := |tasks| - 1;
    var init := tasks[..n];
    if i == n {
      assert tasks[i := t][..n] == init;
    } else {
      assert tasks[i := t][..n] == init[i := t];
      SumUpdate(init, i, t, weight);
    }
  }

  lemma {:induction false} SomeSending(tasks: seq<Task>) returns (i: nat)
    requires Sum(tasks, InFlight) > 0
    ensures i < |tasks| && tasks[i].Sending?
  {
    var n := |tasks| - 1;
    if tasks[n].Sending? {
      i := n;
    } else {
      i := SomeSending(tasks[..n]);
    }
  }

  // ---- collecting in input order ----

  datatype State = State(permits: nat, tasks: seq<Task>, results: seq<BatchResult>)

  datatype Step = Spawn | Acquire(task: nat) | End(task: nat, ending: Ending) | Join

  function Init(concurrency: nat): State {
    State(concurrency, [], [])
  }

  // n is the number of requests.
  predicate Enabled(s: State, step: Step, n: nat) {
    match step
    case Spawn => |s.tasks| < n
    case Acquire(i) => i < |s.tasks| && s.tasks[i].Waiting? && s.permits > 0
    case End(i, _) => i < |s.tasks| && s.tasks[i].Sending?
    case Join => |s.tasks| == n && |s.results| < n && s.tasks[|s.results|].Ended?
  }

  function Apply(s: State, step: Step, n: nat): State
    requires Enabled(s, step, n)
  {
    match step
    case Spawn => s.(tasks := s.tasks + [Waiting])
    case Acquire(i) => s.(tasks := s.tasks[i := Sending], permits := s.permits - 1)
    case End(i, ending) => s.(tasks := s.tasks[i := Ended(ending)], permits := s.permits + 1)
    case Join =>
      var i := |s.results|;
      s.(results := s.results + [ResultOf(i, s.tasks[i].ending)])
  }

  function Exec(concurrency: nat, n: nat, steps: seq<Step>): Option<State> {
    if steps == [] then Some(Init(concurrency)) else
      match Exec(concurrency, n, steps[..|steps| - 1])
      case None => None
      case Some(s) =>
        if Enabled(s, steps[|steps| - 1], n) then Some(Apply(s, steps[|steps| - 1], n)) else None
  }

  function Work(t: Task): nat {
    match t case Waiting => 2 case Sending => 1 case Ended(_) => 0
  }

  // Steps still to be taken.
  function Remaining(s: State, n: nat): int {
    3 * (n - |s.tasks|) + Sum(s.tasks, Work) + (n - |s.results|)
  }

  ghost predicate Inv(s: State, concurrency: nat, n: nat) {
    s.permits + Sum(s.tasks, InFlight) == concurrency &&
    |s.tasks| <= n && |s.results| <= |s.tasks| &&
    (s.results != [] ==> |s.tasks| == n) &&
    forall k :: 0 <= k < |s.results| ==>
      s.tasks[k].Ended? && s.results[k] == ResultOf(k, s.tasks[k].ending)
  }

  // Every step keeps free permits plus in-flight sends at `concurrency`, keeps the
  // collected results those of the first requests in order, and is one step nearer the end.
  lemma StepKeeps(s: State, step: Step, concurrency: nat, n: nat)
    requires Inv(s, concurrency, n) && Enabled(s, step, n)
    ensures Inv(Apply(s, step, n), concurrency, n)
    ensures Remaining(Apply(s, step, n), n) == Remaining(s, n) - 1
  {
    match step
    case Spawn =>
      SumSnoc(s.tasks, Waiting, InFlight);
      SumSnoc(s.tasks, Waiting, Work);
    case Acquire(i) =>
      SumUpdate(s.tasks, i, Sending, InFlight);
      SumUpdate(s.tasks, i, Sending, Work);
    case End(i, ending) =>
      SumUpdate(s.tasks, i, Ended(ending), InFlight);
      SumUpdate(s.tasks, i, Ended(ending), Work);
    case Join =>
  }

  lemma {:induction false} RunKeeps(concurrency: nat, n: nat, steps: seq<Step>)
    requires Exec(concurrency, n, steps).Some?
    ensures Inv(Exec(concurrency, n, steps).value, concurrency, n)
    ensures Remaining(Exec(concurrency, n, steps).value, n) == 4 * n - |steps|
  {
    hide Enabled, Apply;
    if steps == [] {
      assert Sum([], InFlight) == 0 && Sum([], Work) == 0;
    } else {
      hide Inv, Remaining;
      RunKeeps(concurrency, n, steps[..|steps| - 1]);
      StepKeeps(Exec(concurrency, n, steps[..|steps| - 1]).value, steps[|steps| - 1], concurrency, n);
    }
  }

  // With at least one permit, a state that has not delivered everything can move.
  lemma CanMove(s: State, concurrency: nat, n: nat) returns (step: Step)
    requires Inv(s, concurrency, n) && concurrency > 0 && |s.results| < n
    ensures Enabled(s, step, n)
  {
    if |s.tasks| < n {
      step := Spawn;
    } else {
      var i := |s.results|;
      match s.tasks[i]
      case Ended(_) => step := Join;
      case Sending => step := End(i, Panicked);
      case Waiting =>
        if s.permits > 0 {
          step := Acquire(i);
        } else {
          var j := SomeSending(s.tasks);
          step := End(j, Panicked);
        }
    }
  }

  // Every run of n requests has at most 4n steps; with concurrency at least 1 a run that
  // can go no further has taken exactly 4n and has one result per request, in input order.
  lemma BatchCompletes(concurrency: nat, n: nat, steps: seq<Step>)
    requires Exec(concurrency, n, steps).Some? && concurrency > 0
    ensures |steps| <= 4 * n
    ensures var s := Exec(concurrency, n, steps).value;
      (forall step :: !Enabled(s, step, n)) ==>
        |steps| == 4 * n && |s.results| == n && |s.tasks| == n &&
        forall k :: 0 <= k < n ==>
          s.tasks[k].Ended? &&
          s.results[k] == if s.tasks[k].ending.Sent? then BatchResult(Some(k), s.tasks[k].ending) else BatchResult(None, Panicked)
  {
    hide Exec, Enabled;
    RunKeeps(concurrency, n, steps);
    var s := Exec(concurrency, n, steps).value;
    if |s.results| < n {
      var step := CanMove(s, concurrency, n);
    } else {
      NoWorkLeft(s.tasks);
    }
  }

  lemma {:induction false} NoWorkLeft(tasks: seq<Task>)
    ensures (forall i :: 0 <= i < |tasks| ==> tasks[i].Ended?) ==> Sum(tasks, Work) == 0
  {
    if tasks != [] {
      NoWorkLeft(tasks[..|tasks| - 1]);
    }
  }

  // With no permits nothing is ever collected, so the condition above is needed.
  lemma {:induction false} NoPermitsNoResults(n: nat, steps: seq<Step>)
    requires Exec(0, n, steps).Some?
    ensures var s := Exec(0, n, steps).value;
      s.permits == 0 && s.results == [] && forall i :: 0 <= i < |s.tasks| ==> s.tasks[i].Waiting?
  {
    if steps != [] {
      NoPermitsNoResults(n, steps[..|steps| - 1]);
    }
  }
}

// The streaming variant: permits are taken before a task is spawned, results travel
// through a channel in completion order, and a panicked task delivers nothing.
module BatchStream {
  import opened Wrappers
  import opened Batch

  datatype Stream = Stream(permits: nat, tasks: seq<Task>, channel: seq<BatchResult>, delivered: seq<BatchResult>)

  datatype StreamStep = Dispatch | Finish(task: nat, ending: Ending) | Receive

  function Start(concurrency: nat): Stream {
    Stream(concurrency, [], [], [])
  }

  predicate CanStep(s: Stream, step: StreamStep, n: nat) {
    match step
    case Dispatch => |s.tasks| < n && s.permits > 0
    case Finish(i, _) => i < |s.tasks| && s.tasks[i].Sending?
    case Receive => s.channel != []
  }

  function Stepped(s: Stream, step: StreamStep, n: nat): Stream
    requires CanStep(s, step, n)
  {
    match step
    case Dispatch => s.(tasks := s.tasks + [Sending], permits := s.permits - 1)
    case Finish(i, ending) =>
      s.(tasks := s.tasks[i := Ended(ending)], permits := s.permits + 1,
         channel := if ending.Sent? then s.channel + [ResultOf(i, ending)] else s.channel)
    case Receive => s.(channel := s.channel[1..], delivered := s.delivered + [s.channel[0]])
  }

  function Played(concurrency: nat, n: nat, steps: seq<StreamStep>): Option<Stream> {
    if steps == [] then Some(Start(concurrency)) else
      match Played(concurrency, n, steps[..|steps| - 1])
      case None => None
      case Some(s) =>
        if CanStep(s, steps[|steps| - 1], n) then Some(Stepped(s, steps[|steps| - 1], n)) else None
  }

  // The consumer sees the end: every sender is gone and nothing is queued.
  predicate Closed(s: Stream, n: nat) {
    |s.tasks| == n && s.channel == [] && forall i :: 0 <= i < |s.tasks| ==> s.tasks[i].Ended?
  }

  function Load(t: Task): nat {
    match t case Waiting => 2 case Sending => 2 case Ended(_) => 0
  }

  function Left(s: Stream, n: nat): int {
    3 * (n - |s.tasks|) + Sum(s.tasks, Load) + |s.channel|
  }

  // The results on their way and delivered.
  function AllResults(s: Stream): seq<BatchResult> {
    s.delivered + s.channel
  }

  ghost predicate Owed(tasks: seq<Task>, r: BatchResult) {
    r.config.Some? && r.config.value < |tasks| && tasks[r.config.value] == Ended(r.ending) && r.ending.Sent?
  }

  ghost predicate StreamInv(s: Stream, concurrency: nat, n: nat) {
    s.permits + Sum(s.tasks, InFlight) == concurrency && |s.tasks| <= n &&
    (forall i :: 0 <= i < |s.tasks| ==> !s.tasks[i].Waiting?) &&
    (forall j :: 0 <= j < |AllResults(s)| ==> Owed(s.tasks, AllResults(s)[j])) &&
    (forall j, k :: 0 <= j < k < |AllResults(s)| ==> AllResults(s)[j].config != AllResults(s)[k].config) &&
    (forall i :: 0 <= i < |s.tasks| && s.tasks[i].Ended? && s.tasks[i].ending.Sent? ==>
      ResultOf(i, s.tasks[i].ending) in AllResults(s))
  }

  lemma DispatchKeeps(s: Stream, concurrency: nat, n: nat)
    requires StreamInv(s, concurrency, n) && CanStep(s, Dispatch, n)
    ensures StreamInv(Stepped(s, Dispatch, n), concurrency, n)
    ensures Left(Stepped(s, Dispatch, n), n) < Left(s, n)
  {
    SumSnoc(s.tasks, Sending, InFlight);
    SumSnoc(s.tasks, Sending, Load);
    var s' := Stepped(s, Dispatch, n);
    assert AllResults(s') == AllResults(s);
    forall j | 0 <= j < |AllResults(s')| ensures Owed(s'.tasks, AllResults(s')[j]) {
      assert Owed(s.tasks, AllResults(s)[j]);
    }
  }

  lemma FinishKeeps(s: Stream, i: nat, ending: Ending, concurrency: nat, n: nat)
    requires StreamInv(s, concurrency, n) && CanStep(s, Finish(i, ending), n)
    ensures StreamInv(Stepped(s, Finish(i, ending), n), concurrency, n)
    ensures Left(Stepped(s, Finish(i, ending), n), n) < Left(s, n)
  {
    SumUpdate(s.tasks, i, Ended(ending), InFlight);
    SumUpdate(s.tasks, i, Ended(ending), Load);
    hide Sum;
    var s' := Stepped(s, Finish(i, ending), n);
    var before, after := AllResults(s), AllResults(s');
    assert after == before + if ending.Sent? then [ResultOf(i, ending)] else [];
    forall j | 0 <= j < |after| ensures Owed(s'.tasks, after[j]) {
      assert j < |before| ==> Owed(s.tasks, before[j]);
    }
    forall j, k | 0 <= j < k < |after| ensures after[j].config != after[k].config {
      assert Owed(s.tasks, before[j]);
    }
    forall k | 0 <= k < |s'.tasks| && s'.tasks[k].Ended? && s'.tasks[k].ending.Sent?
      ensures ResultOf(k, s'.tasks[k].ending) in after
    {
      if k == i {
        assert after[|after| - 1] == ResultOf(i, ending);
      }
    }
  }

  lemma ReceiveKeeps(s: Stream, concurrency: nat, n: nat)
    requires StreamInv(s, concurrency, n) && CanStep(s, Receive, n)
    ensures StreamInv(Stepped(s, Receive, n), concurrency, n)
    ensures Left(Stepped(s, Receive, n), n) < Left(s, n)
  {
    assert AllResults(Stepped(s, Receive, n)) == AllResults(s);
  }

  lemma {:induction false} PlayedKeeps(concurrency: nat, n: nat, steps: seq<StreamStep>)
    requires Played(concurrency, n, steps).Some?
    ensures StreamInv(Played(concurrency, n, steps).value, concurrency, n)
    ensures Left(Played(concurrency, n, steps).value, n) <= 3 * n - |steps|
  {
    hide CanStep, Stepped;
    if steps == [] {
      assert Sum([], InFlight) == 0 && Sum([], Load) == 0;
    } else {
      hide StreamInv, Left;
      var s, step := Played(concurrency, n, steps[..|steps| - 1]).value, steps[|steps| - 1];
      PlayedKeeps(concurrency, n, steps[..|steps| - 1]);
      match step
      case Dispatch => DispatchKeeps(s, concurrency, n);
      case Finish(i, ending) => FinishKeeps(s, i, ending, concurrency, n);
      case Receive => ReceiveKeeps(s, concurrency, n);
    }
  }

  // With concurrency at least 1, a run has at most 3n steps and stops exactly when the
  // stream has closed.
  lemma StreamCompletes(concurrency: nat, n: nat, steps: seq<StreamStep>)
    requires Played(concurrency, n, steps).Some? && concurrency > 0
    ensures |steps| <= 3 * n
    ensures var s := Played(concurrency, n, steps).value;
      Closed(s, n) <==> forall step :: !CanStep(s, step, n)
  {
    hide Played;
    PlayedKeeps(concurrency, n, steps);
    var s := Played(concurrency, n, steps).value;
    if !Closed(s, n) {
      if s.channel != [] {
        assert CanStep(s, Receive, n);
      } else if s.permits > 0 && |s.tasks| < n {
        assert CanStep(s, Dispatch, n);
      } else {
        var i: nat;
        if s.permits == 0 {
          i := SomeSending(s.tasks);
        } else {
          i :| i < |s.tasks| && s.tasks[i].Sending?;
        }
        assert CanStep(s, Finish(i, Panicked), n);
      }
    }
  }

  // With no permits nothing is dispatched, so a stream over any requests never closes: the
  // condition above is needed.
  lemma {:induction false} NoPermitsNoStream(n: nat, steps: seq<StreamStep>)
    requires Played(0, n, steps).Some?
    ensures steps == [] && Played(0, n, steps).value == Start(0)
    ensures (forall step :: !CanStep(Start(0), step, n)) && (Closed(Start(0), n) <==> n == 0)
  {
    if steps != [] {
      NoPermitsNoStream(n, steps[..|steps| - 1]);
    }
  }

  // A closed stream has delivered, once each and in some order, exactly the results of
  // the requests whose task did not panic.
  lemma StreamDelivers(concurrency: nat, n: nat, steps: seq<StreamStep>)
    requires Played(concurrency, n, steps).Some? && Closed(Played(concurrency, n, steps).value, n)
    ensures var s := Played(concurrency, n, steps).value;
      (forall j, k :: 0 <= j < k < |s.delivered| ==> s.delivered[j].config != s.delivered[k].config) &&
      (forall r :: r in s.delivered <==>
        exists i: nat :: i < n && s.tasks[i].ending.Sent? && r == BatchResult(Some(i), s.tasks[i].ending))
  {
    hide Played;
    PlayedKeeps(concurrency, n, steps);
    var s := Played(concurrency, n, steps).value;
    assert AllResults(s) == s.delivered;
    forall r | r in s.delivered
      ensures exists i: nat :: i < n && s.tasks[i].ending.Sent? && r == BatchResult(Some(i), s.tasks[i].ending)
    {
      var j :| 0 <= j < |s.delivered| && s.delivered[j] == r;
      assert Owed(s.tasks, AllResults(s)[j]);
      assert r == BatchResult(Some(r.config.value), s.tasks[r.config.value].ending);
    }
  }
}
