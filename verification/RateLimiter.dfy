// The lock-free rate limiter as a step system: any number of tasks, each running
// acquire again and again, interleaved in every possible way.
module RateLimiter {
  import opened Wrappers

  // Times are nanoseconds since the limiter was built.
  const MS: nat := 1_000_000
  const U64_MAX: nat := 0xFFFF_FFFF_FFFF_FFFF

  // Where a task is inside acquire.
  datatype Phase =
    | Idle
    | Started(start: nat)
    | Loaded(start: nat, current: nat)
    | Clocked(start: nat, current: nat, now: nat)
    | Won(grant: nat)
    | Sleeping(grant: nat, until: nat)
    | Ready(grant: nat)

  // A won exchange: when the call began, the cursor and clock it used, the slot it got,
  // and when the call returned.
  datatype Grant = Grant(start: nat, cursor: nat, now: nat, slot: nat, returned: Option<nat>)

  datatype State = State(cursor: nat, clock: nat, tasks: seq<Phase>, grants: seq<Grant>)

  datatype Step =
    | Tick(to: nat)
    | Begin(task: nat)
    | Load(task: nat)
    | ReadClock(task: nat)
    | Exchange(task: nat, spurious: bool)
    | Recheck(task: nat)
    | Wake(task: nat)
    | Return(task: nat)

  function Init(tasks: nat): State {
    State(0, 0, seq(tasks, _ => Idle), [])
  }

  function Max(a: nat, b: nat): nat {
    if a < b then b else a
  }

  function SaturatingAdd(a: nat, b: nat): nat {
    if a + b > U64_MAX then U64_MAX else a + b
  }

  predicate At(s: State, i: nat) {
    i < |s.tasks|
  }

  predicate Enabled(s: State, step: Step) {
    match step
    case Tick(to) => s.clock <= to <= U64_MAX
    case Begin(i) => At(s, i) && s.tasks[i].Idle?
    case Load(i) => At(s, i) && s.tasks[i].Started?
    case ReadClock(i) => At(s, i) && s.tasks[i].Loaded?
    case Exchange(i, _) => At(s, i) && s.tasks[i].Clocked?
    case Recheck(i) => At(s, i) && s.tasks[i].Won? && s.tasks[i].grant < |s.grants|
    case Wake(i) => At(s, i) && s.tasks[i].Sleeping? && s.tasks[i].until <= s.clock
    case Return(i) => At(s, i) && s.tasks[i].Ready? && s.tasks[i].grant < |s.grants|
  }

  function SetTask(s: State, i: nat, p: Phase): State
    requires At(s, i)
  {
    s.(tasks := s.tasks[i := p])
  }

  function Apply(s: State, step: Step, interval: nat): State
    requires Enabled(s, step)
  {
    match step
    case Tick(to) => s.(clock := to)
    case Begin(i) => SetTask(s, i, Started(s.clock))
    case Load(i) => SetTask(s, i, Loaded(s.tasks[i].start, s.cursor))
    case ReadClock(i) => SetTask(s, i, Clocked(s.tasks[i].start, s.tasks[i].current, s.clock))
    case Exchange(i, spurious) =>
      var Clocked(start, current, now) := s.tasks[i];
      if spurious || s.cursor != current then SetTask(s, i, Started(start))
      else
        var base := Max(current, now);
        SetTask(s, i, Won(|s.grants|)).(
          cursor := SaturatingAdd(base, interval),
          grants := s.grants + [Grant(start, current, now, base, None)])
    case Recheck(i) =>
      var g := s.tasks[i].grant;
      var slot := s.grants[g].slot;
      if slot <= s.clock then SetTask(s, i, Ready(g))
      else
        var deficit := slot - s.clock;
        if deficit >= MS then SetTask(s, i, Sleeping(g, s.clock + deficit)) else SetTask(s, i, Ready(g))
    case Wake(i) => SetTask(s, i, Ready(s.tasks[i].grant))
    case Return(i) =>
      var g := s.tasks[i].grant;
      SetTask(s, i, Idle).(grants := s.grants[g := s.grants[g].(returned := Some(s.clock))])
  }

  // The state after a run of steps; a run takes only enabled steps.
  function Exec(tasks: nat, interval: nat, steps: seq<Step>): Option<State> {
    if steps == [] then Some(Init(tasks)) else
      match Exec(tasks, interval, steps[..|steps| - 1])
      case None => None
      case Some(s) =>
        if Enabled(s, steps[|steps| - 1]) then Some(Apply(s, steps[|steps| - 1], interval)) else None
  }

  lemma ExecSnoc(tasks: nat, interval: nat, steps: seq<Step>, s: State, step: Step)
    requires Exec(tasks, interval, steps) == Some(s) && Enabled(s, step)
    ensures Exec(tasks, interval, steps + [step]) == Some(Apply(s, step, interval))
  {
    hide Enabled, Apply;
    assert (steps + [step])[..|steps + [step]| - 1] == steps;
  }

  // ---- what every step keeps ----

  // The cursor left behind by the first n grants.
  function CursorAfter(grants: seq<Grant>, n: nat, interval: nat): nat
    requires n <= |grants|
  {
    if n == 0 then 0 else SaturatingAdd(grants[n - 1].slot, interval)
  }

  ghost predicate GrantOk(s: State, k: nat, interval: nat)
    requires k < |s.grants|
  {
    var g := s.grants[k];
    g.cursor == CursorAfter(s.grants, k, interval) && g.slot == Max(g.cursor, g.now) &&
    g.start <= g.now <= s.clock &&
    (g.returned.Some? ==> g.start <= g.returned.value <= s.clock && g.slot < g.returned.value + MS)
  }

  ghost predicate PhaseOk(s: State, p: Phase) {
    match p
    case Idle => true
    case Started(start) => start <= s.clock
    case Loaded(start, _) => start <= s.clock
    case Clocked(start, _, now) => start <= now <= s.clock
    case Won(g) => g < |s.grants|
    case Sleeping(g, until) => g < |s.grants| && s.grants[g].slot == until
    case Ready(g) => g < |s.grants| && s.grants[g].slot < s.clock + MS
  }

  ghost predicate Inv(s: State, interval: nat) {
    s.cursor == CursorAfter(s.grants, |s.grants|, interval) &&
    (forall k :: 0 <= k < |s.grants| ==> GrantOk(s, k, interval)) &&
    (forall i :: 0 <= i < |s.tasks| ==> PhaseOk(s, s.tasks[i]))
  }

  lemma StepKeeps(s: State, step: Step, interval: nat)
    requires Inv(s, interval) && Enabled(s, step)
    ensures Inv(Apply(s, step, interval), interval)
  {
    var s' := Apply(s, step, interval);
    match step {
      case Tick(_) => Later(s, s', interval);
      case Begin(_) => Later(s, s', interval);
      case Load(_) => Later(s, s', interval);
      case ReadClock(_) => Later(s, s', interval);
      case Exchange(i, spurious) =>
        if spurious || s.cursor != s.tasks[i].current {
          Later(s, s', interval);
        } else {
          ExchangeKeeps(s, i, interval);
        }
      case Recheck(_) => Later(s, s', interval);
      case Wake(_) => Later(s, s', interval);
      case Return(i) => ReturnKeeps(s, i, interval);
    }
  }

  // Steps that move the clock or one task and leave the grants alone.
  lemma Later(s: State, s': State, interval: nat)
    requires Inv(s, interval) && s'.cursor == s.cursor && s'.grants == s.grants && s.clock <= s'.clock
    requires |s'.tasks| == |s.tasks|
    requires forall i :: 0 <= i < |s.tasks| ==> s'.tasks[i] == s.tasks[i] || PhaseOk(s', s'.tasks[i])
    ensures Inv(s', interval)
  {
    forall k | 0 <= k < |s'.grants| ensures GrantOk(s', k, interval) {
      assert GrantOk(s, k, interval);
    }
    forall i | 0 <= i < |s'.tasks| ensures PhaseOk(s', s'.tasks[i]) {
      assert PhaseOk(s, s.tasks[i]);
    }
  }

  lemma ExchangeKeeps(s: State, i: nat, interval: nat)
    requires Inv(s, interval) && Enabled(s, Exchange(i, false)) && s.cursor == s.tasks[i].current
    ensures Inv(Apply(s, Exchange(i, false), interval), interval)
  {
    var s' := Apply(s, Exchange(i, false), interval);
    assert PhaseOk(s, s.tasks[i]);
    forall k | 0 <= k < |s'.grants| ensures GrantOk(s', k, interval) {
      if k < |s.grants| {
        assert GrantOk(s, k, interval);
      }
    }
    forall j | 0 <= j < |s'.tasks| ensures PhaseOk(s', s'.tasks[j]) {
      assert PhaseOk(s, s.tasks[j]);
    }
  }

  lemma ReturnKeeps(s: State, i: nat, interval: nat)
    requires Inv(s, interval) && Enabled(s, Return(i))
    ensures Inv(Apply(s, Return(i), interval), interval)
  {
    var s' := Apply(s, Return(i), interval);
    assert PhaseOk(s, s.tasks[i]);
    forall k | 0 <= k < |s'.grants| ensures GrantOk(s', k, interval) {
      assert GrantOk(s, k, interval);
      assert k > 0 ==> s'.grants[k - 1].slot == s.grants[k - 1].slot;
    }
    forall j | 0 <= j < |s'.tasks| ensures PhaseOk(s', s'.tasks[j]) {
      assert PhaseOk(s, s.tasks[j]);
    }
  }

  lemma {:induction false} RunKeeps(tasks: nat, interval: nat, steps: seq<Step>)
    requires Exec(tasks, interval, steps).Some?
    ensures Inv(Exec(tasks, interval, steps).value, interval)
  {
    hide Enabled, Apply;
    if steps != [] {
      RunKeeps(tasks, interval, steps[..|steps| - 1]);
      StepKeeps(Exec(tasks, interval, steps[..|steps| - 1]).value, steps[|steps| - 1], interval);
    }
  }

  // ---- no call is held past its slot ----

  // The slot a task has won and not yet returned with.
  function Holds(p: Phase): Option<nat> {
    match p
    case Won(g) => Some(g)
    case Sleeping(g, _) => Some(g)
    case Ready(g) => Some(g)
    case Idle => None
    case Started(_) => None
    case Loaded(_, _) => None
    case Clocked(_, _, _) => None
  }

  // The steps of one task.
  predicate Of(step: Step, i: nat) {
    match step
    case Tick(_) => false
    case Begin(j) => j == i
    case Load(j) => j == i
    case ReadClock(j) => j == i
    case Exchange(j, _) => j == i
    case Recheck(j) => j == i
    case Wake(j) => j == i
    case Return(j) => j == i
  }

  // In every state of every run, a call that holds a slot the clock has reached can return
  // now, within two steps of its own task: it is never held past its slot.
  lemma PromptReturn(tasks: nat, interval: nat, steps: seq<Step>, i: nat, g: nat) returns (more: seq<Step>)
    requires Exec(tasks, interval, steps).Some?
    requires var s := Exec(tasks, interval, steps).value;
      At(s, i) && Holds(s.tasks[i]) == Some(g) && (g < |s.grants| ==> s.grants[g].slot <= s.clock)
    ensures |more| <= 2 && forall step :: step in more ==> Of(step, i)
    ensures var s := Exec(tasks, interval, steps).value; var t := Exec(tasks, interval, steps + more);
      g < |s.grants| && t.Some? && t.value.clock == s.clock && At(t.value, i) && t.value.tasks[i].Idle? &&
      t.value.grants == s.grants[g := s.grants[g].(returned := Some(s.clock))]
  {
    RunKeeps(tasks, interval, steps);
    var s := Exec(tasks, interval, steps).value;
    assert PhaseOk(s, s.tasks[i]);
    hide Exec, Inv;
    var first := if s.tasks[i].Won? then [Recheck(i)] else if s.tasks[i].Sleeping? then [Wake(i)] else [];
    if first != [] {
      ExecSnoc(tasks, interval, steps, s, first[0]);
      var s1 := Apply(s, first[0], interval);
      ExecSnoc(tasks, interval, steps + first, s1, Return(i));
    } else {
      assert steps + first == steps;
      ExecSnoc(tasks, interval, steps, s, Return(i));
    }
    more := first + [Return(i)];
    assert steps + more == steps + first + [Return(i)];
  }

  // When the call of a task that has not won its slot yet began.
  function Began(p: Phase): Option<nat> {
    match p
    case Started(start) => Some(start)
    case Loaded(start, _) => Some(start)
    case Clocked(start, _, _) => Some(start)
    case Idle => None
    case Won(_) => None
    case Sleeping(_, _) => None
    case Ready(_) => None
  }

  // The steps such a call still needs when the others are left alone: a stale cursor costs
  // one more round.
  function StepsToWin(p: Phase, cursor: nat): nat {
    match p
    case Started(_) => 3
    case Loaded(_, current) => if current == cursor then 2 else 5
    case Clocked(_, current, _) => if current == cursor then 1 else 4
    case _ => 0
  }

  function NextToWin(p: Phase, i: nat): Step {
    match p
    case Started(_) => Load(i)
    case Loaded(_, _) => ReadClock(i)
    case _ => Exchange(i, false)
  }

  lemma OneToWin(s: State, i: nat, interval: nat)
    requires At(s, i) && Began(s.tasks[i]).Some?
    ensures var p := s.tasks[i]; var step := NextToWin(p, i);
      Enabled(s, step) && Of(step, i) &&
      var t := Apply(s, step, interval);
      At(t, i) &&
      if p.Clocked? && p.current == s.cursor then
        t.tasks[i] == Won(|s.grants|) && |t.grants| == |s.grants| + 1 && t.grants[..|s.grants|] == s.grants &&
        t.grants[|s.grants|].start == Began(p).value
      else
        t.grants == s.grants && Began(t.tasks[i]) == Began(p) &&
        StepsToWin(t.tasks[i], t.cursor) == StepsToWin(p, s.cursor) - 1
  {
  }

  // No call is dropped: whatever the others did, a call in progress wins a slot of its own
  // within five steps of its task, if they are left alone.
  lemma WinsAlone(tasks: nat, interval: nat, steps: seq<Step>, i: nat) returns (more: seq<Step>)
    requires Exec(tasks, interval, steps).Some?
    requires var s := Exec(tasks, interval, steps).value; At(s, i) && Began(s.tasks[i]).Some?
    ensures var s := Exec(tasks, interval, steps).value; |more| <= StepsToWin(s.tasks[i], s.cursor) <= 5
    ensures forall step :: step in more ==> Of(step, i)
    ensures var s := Exec(tasks, interval, steps).value; var t := Exec(tasks, interval, steps + more);
      t.Some? && At(t.value, i) && t.value.tasks[i] == Won(|s.grants|) && |t.value.grants| == |s.grants| + 1 &&
      t.value.grants[..|s.grants|] == s.grants && t.value.grants[|s.grants|].start == Began(s.tasks[i]).value
    decreases var s := Exec(tasks, interval, steps).value; StepsToWin(s.tasks[i], s.cursor)
  {
    hide Exec, Enabled, Apply, NextToWin;
    var s := Exec(tasks, interval, steps).value;
    var step := NextToWin(s.tasks[i], i);
    OneToWin(s, i, interval);
    ExecSnoc(tasks, interval, steps, s, step);
    if s.tasks[i].Clocked? && s.tasks[i].current == s.cursor {
      more := [step];
    } else {
      var rest := WinsAlone(tasks, interval, steps + [step], i);
      assert steps + ([step] + rest) == steps + [step] + rest;
      more := [step] + rest;
    }
  }

  // A call that finds a millisecond or more to wait sleeps, and cannot return before its slot.
  lemma SleepsToSlot(s: State, step: Step, interval: nat, i: nat)
    requires Inv(s, interval) && Enabled(s, step) && At(s, i) && s.tasks[i].Sleeping? && s.tasks[i].grant < |s.grants|
    requires s.clock < s.grants[s.tasks[i].grant].slot
    ensures i < |Apply(s, step, interval).tasks| && Apply(s, step, interval).tasks[i] == s.tasks[i]
  {
    assert PhaseOk(s, s.tasks[i]);
  }

  // ---- spacing ----

  // Below saturation, slots are at least an interval apart, in the order they were won.
  lemma {:induction false} SlotsSpaced(s: State, interval: nat, j: nat, k: nat)
    requires Inv(s, interval) && s.cursor < U64_MAX && j < k <= |s.grants|
    ensures s.grants[j].slot + interval <= if k < |s.grants| then s.grants[k].slot else s.cursor
    decreases |s.grants| - j
  {
    if j + 1 < |s.grants| {
      assert GrantOk(s, j + 1, interval);
      SlotsSpaced(s, interval, j + 1, |s.grants|);
      if k > j + 1 {
        SlotsSpaced(s, interval, j + 1, k);
      }
    }
  }

  // Over every run: each slot is the larger of the cursor and the clock it was won with,
  // never earlier than the call itself, so idle time is never banked; slots are spaced;
  // no call returns a millisecond or more before its slot.
  lemma SlotsOfRun(tasks: nat, interval: nat, steps: seq<Step>)
    requires Exec(tasks, interval, steps).Some?
    ensures var s := Exec(tasks, interval, steps).value;
      (forall k :: 0 <= k < |s.grants| ==>
        s.grants[k].slot == Max(s.grants[k].cursor, s.grants[k].now) && s.grants[k].start <= s.grants[k].slot) &&
      (forall k :: 0 <= k < |s.grants| && s.grants[k].returned.Some? ==>
        s.grants[k].slot < s.grants[k].returned.value + MS) &&
      (s.cursor < U64_MAX ==>
        forall j, k :: 0 <= j < k < |s.grants| ==> s.grants[j].slot + interval <= s.grants[k].slot)
  {
    hide Exec, Inv;
    RunKeeps(tasks, interval, steps);
    var s := Exec(tasks, interval, steps).value;
    forall k | 0 <= k < |s.grants|
      ensures s.grants[k].slot == Max(s.grants[k].cursor, s.grants[k].now) && s.grants[k].start <= s.grants[k].slot
      ensures s.grants[k].returned.Some? ==> s.grants[k].slot < s.grants[k].returned.value + MS
    {
      SlotAfterStart(s, interval, k);
    }
    if s.cursor < U64_MAX {
      forall j, k | 0 <= j < k < |s.grants| ensures s.grants[j].slot + interval <= s.grants[k].slot {
        SlotsSpaced(s, interval, j, k);
      }
    }
  }

  // ---- the rate ----

  // The calls among the first n grants that began at a or later and returned by b.
  function Served(grants: seq<Grant>, n: nat, a: nat, b: nat): set<nat>
    requires n <= |grants|
  {
    set k: nat | k < n && grants[k].start >= a && grants[k].returned.Some? && grants[k].returned.value <= b
  }

  // n intervals.
  function Intervals(n: nat, interval: nat): nat {
    if n == 0 then 0 else Intervals(n - 1, interval) + interval
  }

  // The last of c served calls has a slot at least c - 1 intervals after a.
  lemma {:induction false} LastServed(s: State, interval: nat, n: nat, a: nat, b: nat)
    requires Inv(s, interval) && s.cursor < U64_MAX && n <= |s.grants|
    ensures var served := Served(s.grants, n, a, b);
      served == {} ||
      exists k :: k in served && s.grants[k].slot >= a + Intervals(|served| - 1, interval)
  {
    hide Inv, Intervals, Served;
    if n == 0 {
      NoneServed(s.grants, a, b);
    } else {
      LastServed(s, interval, n - 1, a, b);
      ServedStep(s.grants, n, a, b);
      var before, served := Served(s.grants, n - 1, a, b), Served(s.grants, n, a, b);
      if n - 1 in served {
        SlotAfterStart(s, interval, n - 1);
        if before == {} {
          assert |served| == 1;
          assert Intervals(0, interval) == 0 by { NoIntervals(interval); }
        } else {
          var k :| k in before && s.grants[k].slot >= a + Intervals(|before| - 1, interval);
          NextServed(s, interval, k, n - 1, a, |before| - 1);
          assert |served| == |before| + 1;
        }
        assert s.grants[n - 1].slot >= a + Intervals(|served| - 1, interval);
      }
    }
  }

  lemma NoIntervals(interval: nat)
    ensures Intervals(0, interval) == 0
  {
  }

  // A later slot is at least one more interval on.
  lemma NextServed(s: State, interval: nat, k: nat, n: nat, a: nat, m: nat)
    requires Inv(s, interval) && s.cursor < U64_MAX && k < n < |s.grants|
    requires s.grants[k].slot >= a + Intervals(m, interval)
    ensures s.grants[n].slot >= a + Intervals(m + 1, interval)
  {
    hide Inv;
    SlotsSpaced(s, interval, k, n);
  }

  lemma ServedStep(grants: seq<Grant>, n: nat, a: nat, b: nat)
    requires 0 < n <= |grants|
    ensures Served(grants, n, a, b)
         == Served(grants, n - 1, a, b) + if n - 1 in Served(grants, n, a, b) then {n - 1} else {}
    ensures n - 1 !in Served(grants, n - 1, a, b)
    ensures forall k :: k in Served(grants, n, a, b) ==> k < n && grants[k].start >= a
  {
  }

  lemma NoneServed(grants: seq<Grant>, a: nat, b: nat)
    ensures Served(grants, 0, a, b) == {}
  {
  }

  lemma SlotAfterStart(s: State, interval: nat, k: nat)
    requires Inv(s, interval) && k < |s.grants|
    ensures s.grants[k].slot == Max(s.grants[k].cursor, s.grants[k].now) && s.grants[k].start <= s.grants[k].slot
    ensures s.grants[k].returned.Some? ==> s.grants[k].slot < s.grants[k].returned.value + MS
  {
    assert GrantOk(s, k, interval);
  }

  lemma {:induction false} IntervalsProduct(n: nat, interval: nat)
    ensures Intervals(n, interval) == n * interval
  {
    if n > 0 {
      IntervalsProduct(n - 1, interval);
    }
  }

  // Over every interleaving, c calls that all begin at or after a and return by b have
  // (c - 1) * interval < b - a + 1ms: at most (b - a + 1ms) / interval + 1 calls.
  lemma RateBound(tasks: nat, interval: nat, steps: seq<Step>, a: nat, b: nat)
    requires Exec(tasks, interval, steps).Some?
    requires Exec(tasks, interval, steps).value.cursor < U64_MAX
    ensures var grants := Exec(tasks, interval, steps).value.grants;
      var c := |Served(grants, |grants|, a, b)|;
      c == 0 || a + (c - 1) * interval < b + MS
  {
    hide Exec;
    RunKeeps(tasks, interval, steps);
    var s := Exec(tasks, interval, steps).value;
    LastServed(s, interval, |s.grants|, a, b);
    var served := Served(s.grants, |s.grants|, a, b);
    hide Inv;
    if served != {} {
      var k :| k in served && s.grants[k].slot >= a + Intervals(|served| - 1, interval);
      SlotAfterStart(s, interval, k);
      IntervalsProduct(|served| - 1, interval);
    }
  }

  // ---- the rate is reached ----

  // A burst: c tasks call at clock 0 and win their slots one after the other, then the
  // clock moves to w, then they return.
  function BurstGrant(i: nat, interval: nat, returned: Option<nat>): Grant {
    Grant(0, Intervals(i, interval), 0, Intervals(i, interval), returned)
  }

  // The tasks from `from` on, below `to`, hold their slots.
  function BurstTasks(c: nat, from: nat, to: nat): (t: seq<Phase>)
    ensures |t| == c && forall i :: 0 <= i < c ==> t[i] == if from <= i < to then Won(i) else Idle
  {
    seq(c, i requires 0 <= i => if from <= i < to then Won(i) else Idle)
  }

  // The first n slots, the first k of them returned at w.
  function BurstGrants(n: nat, k: nat, interval: nat, w: nat): (g: seq<Grant>)
    ensures |g| == n && forall i :: 0 <= i < n ==> g[i] == BurstGrant(i, interval, if i < k then Some(w) else None)
  {
    seq(n, i requires 0 <= i => BurstGrant(i, interval, if i < k then Some(w) else None))
  }

  function Winning(c: nat, k: nat, interval: nat): State {
    State(Intervals(k, interval), 0, BurstTasks(c, 0, k), BurstGrants(k, 0, interval, 0))
  }

  function Returning(c: nat, k: nat, interval: nat, w: nat): State {
    State(Intervals(c, interval), w, BurstTasks(c, k, c), BurstGrants(c, k, interval, w))
  }

  lemma {:induction false} IntervalsMono(i: nat, n: nat, interval: nat)
    requires i <= n
    ensures Intervals(i, interval) <= Intervals(n, interval)
  {
    if i < n {
      IntervalsMono(i, n - 1, interval);
    }
  }

  // Task k wins the next slot.
  lemma WinOne(c: nat, k: nat, interval: nat, steps: seq<Step>) returns (more: seq<Step>)
    requires k < c && Intervals(k + 1, interval) < U64_MAX
    requires Exec(c, interval, steps) == Some(Winning(c, k, interval))
    ensures Exec(c, interval, more) == Some(Winning(c, k + 1, interval))
  {
    hide Exec, Intervals;
    var s := Winning(c, k, interval);
    var cursor := Intervals(k, interval);
    ExecSnoc(c, interval, steps, s, Begin(k));
    var s1 := SetTask(s, k, Started(0));
    more := steps + [Begin(k)];
    ExecSnoc(c, interval, more, s1, Load(k));
    var s2 := SetTask(s1, k, Loaded(0, cursor));
    more := more + [Load(k)];
    ExecSnoc(c, interval, more, s2, ReadClock(k));
    var s3 := SetTask(s2, k, Clocked(0, cursor, 0));
    more := more + [ReadClock(k)];
    ExecSnoc(c, interval, more, s3, Exchange(k, false));
    more := more + [Exchange(k, false)];
    WonOne(c, k, interval, s3);
  }

  lemma WonOne(c: nat, k: nat, interval: nat, s: State)
    requires k < c && Intervals(k + 1, interval) < U64_MAX
    requires s == SetTask(Winning(c, k, interval), k, Clocked(0, Intervals(k, interval), 0))
    ensures Apply(s, Exchange(k, false), interval) == Winning(c, k + 1, interval)
  {
    assert Intervals(k + 1, interval) == Intervals(k, interval) + interval;
    hide Intervals;
    var s', t := Apply(s, Exchange(k, false), interval), Winning(c, k + 1, interval);
    assert s'.tasks == t.tasks;
    assert s'.grants == t.grants;
  }

  lemma {:induction false} WinAll(c: nat, k: nat, interval: nat) returns (steps: seq<Step>)
    requires k <= c && Intervals(c, interval) < U64_MAX
    ensures Exec(c, interval, steps) == Some(Winning(c, k, interval))
  {
    if k == 0 {
      steps := [];
      assert Init(c).tasks == Winning(c, 0, interval).tasks;
    } else {
      steps := WinAll(c, k - 1, interval);
      IntervalsMono(k, c, interval);
      steps := WinOne(c, k - 1, interval, steps);
    }
  }

  // Task k finds less than a millisecond to wait, and returns.
  lemma ReturnOne(c: nat, k: nat, interval: nat, w: nat, steps: seq<Step>) returns (more: seq<Step>)
    requires k < c && Intervals(k, interval) < w + MS
    requires Exec(c, interval, steps) == Some(Returning(c, k, interval, w))
    ensures Exec(c, interval, more) == Some(Returning(c, k + 1, interval, w))
  {
    hide Exec, Intervals;
    var s := Returning(c, k, interval, w);
    ExecSnoc(c, interval, steps, s, Recheck(k));
    var s1 := SetTask(s, k, Ready(k));
    assert Apply(s, Recheck(k), interval) == s1;
    more := steps + [Recheck(k)];
    ExecSnoc(c, interval, more, s1, Return(k));
    more := more + [Return(k)];
    var s2, t := Apply(s1, Return(k), interval), Returning(c, k + 1, interval, w);
    assert s2.tasks == t.tasks;
    assert s2.grants == t.grants;
  }

  lemma {:induction false} ReturnAll(c: nat, k: nat, interval: nat, w: nat) returns (steps: seq<Step>)
    requires k <= c && Intervals(c, interval) < U64_MAX && w <= U64_MAX
    requires c > 0 ==> Intervals(c - 1, interval) < w + MS
    ensures Exec(c, interval, steps) == Some(Returning(c, k, interval, w))
  {
    hide Exec, Intervals;
    if k == 0 {
      steps := WinAll(c, c, interval);
      var s, t := Winning(c, c, interval), Returning(c, 0, interval, w);
      ExecSnoc(c, interval, steps, s, Tick(w));
      steps := steps + [Tick(w)];
      assert s.tasks == t.tasks;
      assert s.grants == t.grants;
    } else {
      steps := ReturnAll(c, k - 1, interval, w);
      IntervalsMono(k - 1, c - 1, interval);
      steps := ReturnOne(c, k - 1, interval, w, steps);
    }
  }

  lemma {:induction false} AllServed(grants: seq<Grant>, n: nat, w: nat)
    requires n <= |grants|
    requires forall k :: 0 <= k < n ==> grants[k].start == 0 && grants[k].returned.Some? && grants[k].returned.value <= w
    ensures |Served(grants, n, 0, w)| == n
  {
    if n > 0 {
      AllServed(grants, n - 1, w);
      ServedStep(grants, n, 0, w);
    }
  }

  // A run below saturation in which exactly c calls both begin and return within the w
  // nanoseconds from a on.
  ghost predicate Serves(tasks: nat, interval: nat, steps: seq<Step>, a: nat, w: nat, c: nat) {
    var s := Exec(tasks, interval, steps);
    s.Some? && s.value.cursor < U64_MAX && |Served(s.value.grants, |s.value.grants|, a, a + w)| == c
  }

  // c calls can be served within w nanoseconds exactly when (c - 1) * interval < w + 1ms,
  // as long as c slots fit below the largest 64-bit number.
  lemma RateExact(interval: nat, c: nat, w: nat)
    requires c > 0
    ensures (exists tasks, steps, a :: Serves(tasks, interval, steps, a, w, c))
      <==> (c - 1) * interval < w + 1_000_000 && c * interval < U64_MAX
  {
    IntervalsProduct(c - 1, interval);
    IntervalsProduct(c, interval);
    hide Exec, Serves;
    if tasks, steps, a :| Serves(tasks, interval, steps, a, w, c) {
      ServedFits(tasks, interval, steps, a, w, c);
    }
    if Intervals(c - 1, interval) < w + MS && Intervals(c, interval) < U64_MAX {
      var steps := BurstServes(interval, c, w);
    }
  }

  lemma ServedFits(tasks: nat, interval: nat, steps: seq<Step>, a: nat, w: nat, c: nat)
    requires c > 0 && Serves(tasks, interval, steps, a, w, c)
    ensures Intervals(c - 1, interval) < w + MS && Intervals(c, interval) < U64_MAX
  {
    hide Exec;
    RunKeeps(tasks, interval, steps);
    var s := Exec(tasks, interval, steps).value;
    LastServed(s, interval, |s.grants|, a, a + w);
    hide Inv;
    var k :| k in Served(s.grants, |s.grants|, a, a + w) && s.grants[k].slot >= a + Intervals(c - 1, interval);
    SlotAfterStart(s, interval, k);
    SlotsSpaced(s, interval, k, |s.grants|);
  }

  lemma BurstServes(interval: nat, c: nat, w: nat) returns (steps: seq<Step>)
    requires c > 0 && Intervals(c - 1, interval) < w + MS && Intervals(c, interval) < U64_MAX
    ensures Serves(c, interval, steps, 0, w, c)
  {
    hide Exec, Intervals;
    IntervalsMono(c - 1, c, interval);
    var to := if w <= U64_MAX then w else U64_MAX;
    steps := ReturnAll(c, c, interval, to);
    AllServed(Returning(c, c, interval, to).grants, c, w);
  }

  lemma TwoIntervals(interval: nat)
    ensures Intervals(0, interval) == 0 && Intervals(1, interval) == interval && Intervals(2, interval) == 2 * interval
  {
    assert Intervals(1, interval) == Intervals(0, interval) + interval;
  }

  // A call may return any time less than a millisecond before its slot.
  lemma EarlyReturn(early: nat) returns (steps: seq<Step>)
    requires early < 1_000_000
    ensures Exec(2, early, steps).Some?
    ensures var grants := Exec(2, early, steps).value.grants;
      |grants| == 2 && grants[1].returned.Some? && grants[1].slot == grants[1].returned.value + early
  {
    TwoIntervals(early);
    hide Exec;
    steps := ReturnAll(2, 2, early, 0);
  }

  // A call may return exactly at its slot, however long it has to wait for it, a millisecond
  // and more included.
  lemma OnTime(wait: nat) returns (steps: seq<Step>)
    requires 2 * wait < U64_MAX
    ensures Exec(2, wait, steps).Some?
    ensures var grants := Exec(2, wait, steps).value.grants;
      |grants| == 2 && grants[1].start == 0 && grants[1].now == 0 && grants[1].slot == wait &&
      grants[1].returned == Some(wait)
  {
    TwoIntervals(wait);
    hide Exec, Intervals;
    steps := WinAll(2, 2, wait);
    var s := Winning(2, 2, wait);
    // The second task looks at the clock while it is still 0.
    ExecSnoc(2, wait, steps, s, Recheck(1));
    var s1 := Apply(s, Recheck(1), wait);
    steps := steps + [Recheck(1)];
    ExecSnoc(2, wait, steps, s1, Tick(wait));
    var s2 := Apply(s1, Tick(wait), wait);
    steps := steps + [Tick(wait)];
    assert Holds(s2.tasks[1]) == Some(1) && s2.grants[1].slot == wait;
    var more := PromptReturn(2, wait, steps, 1, 1);
    steps := steps + more;
  }
}
