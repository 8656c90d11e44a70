/** `NodeCollector.Collect` and `execute` as a step machine: one goroutine per
    collector, a WaitGroup, and one metric channel that all of them send to. */
module Collect {

  /** What `Update` returned. */
  datatype Outcome = Nil | NoData | Failed

  datatype Pc =
    | Unspawned
    | Updating                   // inside Update, sending its own metrics
    | Updated(r: Outcome)        // Update is back
    | Timed(r: Outcome)          // duration sent
    | Reported(r: Outcome)       // success sent
    | Exited(r: Outcome)         // wg.Done() called

  datatype Event =
    | Metric(name: string, id: int)
    | Duration(name: string)
    | Success(name: string, value: int)

  datatype MainPc = Spawning | Waiting | Returned

  /** The WaitGroup counter, the goroutines and everything sent so far. */
  datatype State = State(main: MainPc, wg: int, pcs: map<string, Pc>, log: seq<Event>)

  datatype Step =
    | Spawn(name: string)
    | StartWait
    | Send(name: string, id: int)
    | Return(name: string, r: Outcome)
    | SendDuration(name: string)
    | SendSuccess(name: string)
    | Done(name: string)
    | WaitOver

  function Init(names: set<string>): State {
    State(Spawning, |names|, map n | n in names :: Unspawned, [])
  }

  predicate Enabled(s: State, step: Step) {
    match step
    // The range over the collectors may take them in any order.
    case Spawn(n) => s.main.Spawning? && n in s.pcs && s.pcs[n].Unspawned?
    case StartWait => s.main.Spawning? && forall n :: n in s.pcs ==> !s.pcs[n].Unspawned?
    case Send(n, _) => n in s.pcs && s.pcs[n].Updating?
    case Return(n, _) => n in s.pcs && s.pcs[n].Updating?
    case SendDuration(n) => n in s.pcs && s.pcs[n].Updated?
    case SendSuccess(n) => n in s.pcs && s.pcs[n].Timed?
    case Done(n) => n in s.pcs && s.pcs[n].Reported?
    case WaitOver => s.main.Waiting? && s.wg == 0
  }

  function Apply(s: State, step: Step): State
    requires Enabled(s, step)
  {
    match step
    case Spawn(n) => s.(pcs := s.pcs[n := Updating])
    case StartWait => s.(main := Waiting)
    case Send(n, id) => s.(log := s.log + [Metric(n, id)])
    case Return(n, r) => s.(pcs := s.pcs[n := Updated(r)])
    case SendDuration(n) => s.(pcs := s.pcs[n := Timed(s.pcs[n].r)], log := s.log + [Duration(n)])
    case SendSuccess(n) =>
      s.(pcs := s.pcs[n := Reported(s.pcs[n].r)],
         log := s.log + [Success(n, if s.pcs[n].r.Nil? then 1 else 0)])
    case Done(n) => s.(pcs := s.pcs[n := Exited(s.pcs[n].r)], wg := s.wg - 1)
    case WaitOver => s.(main := Returned)
  }

  predicate ValidRun(s: State, steps: seq<Step>)
    decreases |steps|, 0
  {
    steps != [] ==>
      && ValidRun(s, steps[..|steps| - 1])
      && Enabled(Exec(s, steps[..|steps| - 1]), steps[|steps| - 1])
  }

  function Exec(s: State, steps: seq<Step>): State
    requires ValidRun(s, steps)
    decreases |steps|, 1
  {
    if steps == [] then s
    else Apply(Exec(s, steps[..|steps| - 1]), steps[|steps| - 1])
  }

  /** What one collector sent, in order. */
  function SentBy(log: seq<Event>, n: string): seq<Event> {
    if log == [] then []
    else
      var rest := SentBy(log[..|log| - 1], n);
      if log[|log| - 1].name == n then rest + [log[|log| - 1]] else rest
  }

  ghost predicate OwnMetrics(events: seq<Event>) {
    forall e :: e in events ==> e.Metric?
  }

  /** What a goroutine has sent when it is at pc. */
  ghost predicate SentUpTo(events: seq<Event>, n: string, pc: Pc) {
    match pc
    case Unspawned => events == []
    case Updating => OwnMetrics(events)
    case Updated(_) => OwnMetrics(events)
    case Timed(_) => |events| >= 1 && OwnMetrics(events[..|events| - 1]) && events[|events| - 1] == Duration(n)
    case Reported(r) => FullReport(events, n, r)
    case Exited(r) => FullReport(events, n, r)
  }

  /** Own metrics, then one duration, then one success saying whether Update returned nil. */
  ghost predicate FullReport(events: seq<Event>, n: string, r: Outcome) {
    && |events| >= 2
    && OwnMetrics(events[..|events| - 2])
    && events[|events| - 2] == Duration(n)
    && events[|events| - 1] == Success(n, if r.Nil? then 1 else 0)
  }

  /** The goroutines that still owe the WaitGroup a Done. */
  function Owing(s: State): set<string> {
    set n | n in s.pcs && !s.pcs[n].Exited?
  }

  ghost predicate Inv(s: State, names: set<string>) {
    && s.pcs.Keys == names
    && s.wg == |Owing(s)|
    && (!s.main.Spawning? ==> forall n :: n in names ==> !s.pcs[n].Unspawned?)
    && (s.main.Returned? ==> Owing(s) == {})
    && (forall n :: n in names ==> SentUpTo(SentBy(s.log, n), n, s.pcs[n]))
    && (forall e :: e in s.log ==> e.name in names)
  }

  lemma StepKeepsOwing(s: State, step: Step, names: set<string>)
    requires Inv(s, names) && Enabled(s, step)
    ensures Apply(s, step).wg == |Owing(Apply(s, step))|
    ensures Apply(s, step).main.Returned? ==> Owing(Apply(s, step)) == {}
  {
    var t := Apply(s, step);
    if step.Done? {
      assert Owing(t) == Owing(s) - {step.name};
    } else {
      assert Owing(t) == Owing(s);
    }
  }

  lemma SentExtends(log: seq<Event>, e: Event, n: string)
    ensures SentBy(log + [e], n) == SentBy(log, n) + if e.name == n then [e] else []
  {
    assert (log + [e])[..|log|] == log;
  }

  /** One more event of the goroutine itself. */
  lemma SentMore(events: seq<Event>, e: Event, n: string, pc: Pc, pc': Pc)
    requires SentUpTo(events, n, pc) && e.name == n
    requires
      || (e.Metric? && pc.Updating? && pc' == pc)
      || (e.Duration? && pc.Updated? && pc' == Timed(pc.r))
      || (e.Success? && pc.Timed? && pc' == Reported(pc.r) && e.value == if pc.r.Nil? then 1 else 0)
    ensures SentUpTo(events + [e], n, pc')
  {
    assert (events + [e])[..|events|] == events;
    if e.Success? {
      assert (events + [e])[..|events| - 1] == events[..|events| - 1];
    }
  }

  lemma StepKeepsReports(s: State, step: Step, names: set<string>)
    requires Inv(s, names) && Enabled(s, step)
    ensures var t := Apply(s, step);
      forall n :: n in names ==> SentUpTo(SentBy(t.log, n), n, t.pcs[n])
  {
    var t := Apply(s, step);
    forall n | n in names
      ensures SentUpTo(SentBy(t.log, n), n, t.pcs[n])
    {
      if t.log != s.log {
        var e := t.log[|s.log|];
        SentExtends(s.log, e, n);
        if e.name == n {
          SentMore(SentBy(s.log, n), e, n, s.pcs[n], t.pcs[n]);
        }
      }
    }
  }

  lemma {:induction false} RunKeepsInv(names: set<string>, steps: seq<Step>)
    requires ValidRun(Init(names), steps)
    ensures Inv(Exec(Init(names), steps), names)
    decreases |steps|
  {
    if steps == [] {
      assert Owing(Init(names)) == names;
    } else {
      var before := steps[..|steps| - 1];
      RunKeepsInv(names, before);
      StepKeepsOwing(Exec(Init(names), before), steps[|steps| - 1], names);
      StepKeepsReports(Exec(Init(names), before), steps[|steps| - 1], names);
    }
  }

  /** The WaitGroup counter never goes negative: it counts the goroutines that
      have not called Done, and whoever calls Done finds it positive. */
  lemma WaitGroupCounts(names: set<string>, steps: seq<Step>)
    requires ValidRun(Init(names), steps)
    ensures var s := Exec(Init(names), steps);
      && 0 <= s.wg == |Owing(s)|
      && forall n :: Enabled(s, Done(n)) ==> s.wg > 0
  {
    RunKeepsInv(names, steps);
    var s := Exec(Init(names), steps);
    forall n | Enabled(s, Done(n))
      ensures s.wg > 0
    {
      assert n in Owing(s);
    }
  }

  /** When Collect returns, under any interleaving, every collector's Update is
      over and the channel got from it its own metrics, then exactly one
      duration, then exactly one success, which is 1 exactly when its Update
      returned nil; nothing else was sent, and nothing will be sent any more. */
  lemma CollectReportsEveryCollector(names: set<string>, steps: seq<Step>)
    requires ValidRun(Init(names), steps) && Exec(Init(names), steps).main.Returned?
    ensures var s := Exec(Init(names), steps);
      && s.pcs.Keys == names
      && (forall n :: n in names ==> s.pcs[n].Exited? && FullReport(SentBy(s.log, n), n, s.pcs[n].r))
      && (forall e :: e in s.log ==> e.name in names)
      && (forall step :: !Enabled(s, step))
  {
    RunKeepsInv(names, steps);
    var s := Exec(Init(names), steps);
    forall n | n in names
      ensures s.pcs[n].Exited?
    {
      assert n !in Owing(s);
    }
  }

  // ----- the reports, told from the steps alone

  function MetricOf(step: Step, n: string): seq<Event> {
    if step.Send? && step.name == n then [Metric(n, step.id)] else []
  }

  function ReturnOf(step: Step, n: string): seq<Outcome> {
    if step.Return? && step.name == n then [step.r] else []
  }

  /** The metrics that the Update of n sent, in order. */
  function MetricsOf(steps: seq<Step>, n: string): seq<Event> {
    if steps == [] then [] else MetricsOf(steps[..|steps| - 1], n) + MetricOf(steps[|steps| - 1], n)
  }

  /** What the Update of n returned, as often as it did. */
  function ReturnsOf(steps: seq<Step>, n: string): seq<Outcome> {
    if steps == [] then [] else ReturnsOf(steps[..|steps| - 1], n) + ReturnOf(steps[|steps| - 1], n)
  }

  /** The metrics and the returns of n, told by its pc and what it has sent. */
  ghost predicate Tells(metrics: seq<Event>, results: seq<Outcome>, n: string, pc: Pc, events: seq<Event>) {
    match pc
    case Unspawned => events == [] == metrics && results == []
    case Updating => events == metrics && results == []
    case Updated(r) => events == metrics && results == [r]
    case Timed(r) => events == metrics + [Duration(n)] && results == [r]
    case Reported(r) => events == Report(metrics, n, r) && results == [r]
    case Exited(r) => events == Report(metrics, n, r) && results == [r]
  }

  function Report(metrics: seq<Event>, n: string, r: Outcome): seq<Event> {
    metrics + [Duration(n)] + [Success(n, if r == Nil then 1 else 0)]
  }

  /** The step is one of the goroutine of n. */
  predicate IsStepOf(step: Step, n: string) {
    !step.StartWait? && !step.WaitOver? && step.name == n
  }

  lemma OwnStepTells(s: State, step: Step, n: string, metrics: seq<Event>, results: seq<Outcome>)
    requires n in s.pcs && Enabled(s, step) && IsStepOf(step, n)
    requires Tells(metrics, results, n, s.pcs[n], SentBy(s.log, n))
    ensures var t := Apply(s, step);
      n in t.pcs && Tells(metrics + MetricOf(step, n), results + ReturnOf(step, n), n, t.pcs[n], SentBy(t.log, n))
  {
    var t := Apply(s, step);
    assert metrics + [] == metrics && results + [] == results;
    if t.log != s.log {
      SentExtends(s.log, t.log[|s.log|], n);
    }
  }

  lemma OtherStepTells(s: State, step: Step, n: string)
    requires n in s.pcs && Enabled(s, step) && !IsStepOf(step, n)
    ensures var t := Apply(s, step);
      n in t.pcs && t.pcs[n] == s.pcs[n] && SentBy(t.log, n) == SentBy(s.log, n)
  {
    var t := Apply(s, step);
    if t.log != s.log {
      SentExtends(s.log, t.log[|s.log|], n);
    }
  }

  lemma StepTells(s: State, step: Step, n: string, metrics: seq<Event>, results: seq<Outcome>)
    requires n in s.pcs && Enabled(s, step)
    requires Tells(metrics, results, n, s.pcs[n], SentBy(s.log, n))
    ensures var t := Apply(s, step);
      n in t.pcs && Tells(metrics + MetricOf(step, n), results + ReturnOf(step, n), n, t.pcs[n], SentBy(t.log, n))
  {
    if IsStepOf(step, n) {
      OwnStepTells(s, step, n, metrics, results);
    } else {
      assert metrics + [] == metrics && results + [] == results;
      OtherStepTells(s, step, n);
    }
  }

  lemma {:induction false} RunTells(names: set<string>, steps: seq<Step>, n: string)
    requires ValidRun(Init(names), steps) && n in names
    ensures var s := Exec(Init(names), steps);
      n in s.pcs && Tells(MetricsOf(steps, n), ReturnsOf(steps, n), n, s.pcs[n], SentBy(s.log, n))
    decreases |steps|
  {
    if steps != [] {
      var before := steps[..|steps| - 1];
      RunTells(names, before, n);
      StepTells(Exec(Init(names), before), steps[|steps| - 1], n, MetricsOf(before, n), ReturnsOf(before, n));
    }
  }

  /** When Collect returns, the Update of every collector has returned once, and the
      channel got from it the metrics of its own send steps, in their order, then
      its duration, then its success: 1 if what it returned was nil, else 0. */
  lemma ReportsTellTheRun(names: set<string>, steps: seq<Step>, n: string)
    requires ValidRun(Init(names), steps) && n in names && Exec(Init(names), steps).main.Returned?
    ensures |ReturnsOf(steps, n)| == 1
    ensures SentBy(Exec(Init(names), steps).log, n)
         == MetricsOf(steps, n) + [Duration(n)] + [Success(n, if ReturnsOf(steps, n)[0] == Nil then 1 else 0)]
  {
    RunTells(names, steps, n);
    CollectReportsEveryCollector(names, steps);
  }

  /** Collect cannot get stuck before it returns. */
  lemma NoDeadlock(names: set<string>, steps: seq<Step>) returns (step: Step)
    requires ValidRun(Init(names), steps) && !Exec(Init(names), steps).main.Returned?
    ensures Enabled(Exec(Init(names), steps), step) && !step.Send?
  {
    RunKeepsInv(names, steps);
    var s := Exec(Init(names), steps);
    if n :| n in names && s.pcs[n].Unspawned? {
      step := Spawn(n);
    } else if s.main.Spawning? {
      step := StartWait;
    } else if n :| n in Owing(s) {
      match s.pcs[n]
      case Updating => step := Return(n, Nil);
      case Updated(_) => step := SendDuration(n);
      case Timed(_) => step := SendSuccess(n);
      case Reported(_) => step := Done(n);
    } else {
      assert Owing(s) == {};
      step := WaitOver;
    }
  }

  /** How many steps, other than an Update's own sends, the goroutines still take. */
  function Remaining(pc: Pc): nat {
    match pc
    case Unspawned => 5
    case Updating => 4
    case Updated(_) => 3
    case Timed(_) => 2
    case Reported(_) => 1
    case Exited(_) => 0
  }

  ghost function TotalRemaining(pcs: map<string, Pc>): nat
    decreases |pcs|
  {
    if pcs == map[] then 0
    else
      var n :| n in pcs;
      Remaining(pcs[n]) + TotalRemaining(pcs - {n})
  }

  lemma {:induction false} TotalWithout(pcs: map<string, Pc>, n: string)
    requires n in pcs
    ensures TotalRemaining(pcs) == Remaining(pcs[n]) + TotalRemaining(pcs - {n})
    decreases |pcs|
  {
    var m :| m in pcs && TotalRemaining(pcs) == Remaining(pcs[m]) + TotalRemaining(pcs - {m});
    if m != n {
      TotalWithout(pcs - {m}, n);
      TotalWithout(pcs - {n}, m);
      assert pcs - {m} - {n} == pcs - {n} - {m};
    }
  }

  function Measure(main: MainPc): nat {
    match main
    case Spawning => 2
    case Waiting => 1
    case Returned => 0
  }

  /** Every step except a metric sent by an Update brings the return of Collect
      nearer, so it returns whenever every Update does. */
  lemma EveryStepProgresses(s: State, step: Step)
    requires Enabled(s, step) && !step.Send?
    ensures var t := Apply(s, step);
      TotalRemaining(t.pcs) + Measure(t.main) == TotalRemaining(s.pcs) + Measure(s.main) - 1
  {
    var t := Apply(s, step);
    if !step.StartWait? && !step.WaitOver? {
      TotalWithout(s.pcs, step.name);
      TotalWithout(t.pcs, step.name);
      assert s.pcs - {step.name} == t.pcs - {step.name};
    }
  }
}
