/** The stuck-mount watchdog of the filesystem collector, as a step machine.

    Any number of concurrent `GetStats` calls ("scrapes") walk their own mount
    list.  Every `Statfs` call has a success channel and a watcher goroutine
    with a timer; all of them share the map `stuckMounts` behind one mutex.
    Each constructor of `Step` is one indivisible action of one goroutine, or
    of the environment (`Arrive`, `Return`, `Fire`); any interleaving is a run. */
module Watchdog {

  /** A line of the mount table. */
  datatype Labels = Labels(device: string, mountPoint: string, fsType: string, options: string)

  /** A mount-table line together with what the two exclusion patterns say of it. */
  datatype Mount = Mount(labels: Labels, excluded: bool)

  datatype Stat = Stat(labels: Labels, deviceError: bool)

  datatype ScrapePc =
    | Next                               // top of the loop
    | Checking                           // holds the mutex, about to look the mount up
    | Clear                              // found unmarked, mutex released
    | Calling(call: nat)                 // channel made, watcher started, inside Statfs
    | Returned(call: nat, ok: bool)      // Statfs is back, mutex wanted
    | Closing(call: nat, ok: bool)       // holds the mutex, about to close the channel
    | Clearing(call: nat, ok: bool)      // holds the mutex, about to unmark the mount
    | Releasing(call: nat, ok: bool)     // holds the mutex, about to unlock
  {
    predicate Critical() {
      Checking? || Closing? || Clearing? || Releasing?
    }

    /** The goroutine has made the channel of call c and not closed it yet. */
    predicate Owns(c: nat) {
      (Calling? || Returned? || Closing?) && call == c
    }
  }

  datatype Scrape = Scrape(mounts: seq<Mount>, pos: nat, pc: ScrapePc, stats: seq<Stat>)
  {
    predicate Active() { pos < |mounts| }

    function Point(): string
      requires Active()
    {
      mounts[pos].labels.mountPoint
    }

    function Done(deviceError: bool): Scrape
      requires Active()
    {
      Scrape(mounts, pos + 1, Next, stats + [Stat(mounts[pos].labels, deviceError)])
    }
  }

  datatype WatcherPc =
    | Waiting      // in the outer select
    | TimedOut     // took the timer branch, mutex wanted
    | Rechecking   // holds the mutex, in the inner select
    | Leaving      // holds the mutex, about to unlock
    | Exited
  {
    predicate Critical() {
      Rechecking? || Leaving?
    }
  }

  /** One Statfs call: its mount, the scrape that made it, how often its
      channel was closed, whether its timer has fired, where its watcher is and
      whether that watcher marked the mount. */
  datatype Call = Call(mount: string, owner: nat, closes: nat, fired: bool, watcher: WatcherPc, marked: bool)
  {
    predicate Open() { closes == 0 }
  }

  datatype Agent = NoOne | ScrapeAgent(scrape: nat) | WatcherAgent(call: nat)

  datatype State = State(stuck: set<string>, holder: Agent, scrapes: seq<Scrape>, calls: seq<Call>)

  const INIT := State({}, NoOne, [], [])

  datatype Step =
    | Arrive(mounts: seq<Mount>)
    | Skip(i: nat)
    | LockCheck(i: nat)
    | SeeMarked(i: nat)
    | SeeClear(i: nat)
    | Start(i: nat)
    | Return(i: nat, ok: bool)
    | LockClose(i: nat)
    | Close(i: nat)
    | Unmark(i: nat)
    | Unlock(i: nat)
    | Fire(c: nat)
    | TakeSuccess(c: nat)
    | TakeTimer(c: nat)
    | LockRecheck(c: nat)
    | Recheck(c: nat)
    | WatcherUnlock(c: nat)

  predicate ScrapeAt(s: State, i: nat) {
    i < |s.scrapes| && s.scrapes[i].Active()
  }

  /** The mount point that scrape i is working on. */
  function PointOf(s: State, i: nat): string
    requires ScrapeAt(s, i)
  {
    s.scrapes[i].Point()
  }

  predicate AtCall(s: State, i: nat) {
    && ScrapeAt(s, i)
    && (var pc := s.scrapes[i].pc; pc.Calling? || pc.Returned? || pc.Closing? || pc.Clearing? || pc.Releasing?)
    && s.scrapes[i].pc.call < |s.calls|
  }

  predicate Enabled(s: State, step: Step) {
    match step
    case Arrive(_) => true
    case Skip(i) => ScrapeAt(s, i) && s.scrapes[i].pc.Next? && s.scrapes[i].mounts[s.scrapes[i].pos].excluded
    case LockCheck(i) =>
      && ScrapeAt(s, i) && s.scrapes[i].pc.Next? && !s.scrapes[i].mounts[s.scrapes[i].pos].excluded
      && s.holder.NoOne?
    case SeeMarked(i) => ScrapeAt(s, i) && s.scrapes[i].pc.Checking? && PointOf(s, i) in s.stuck
    case SeeClear(i) => ScrapeAt(s, i) && s.scrapes[i].pc.Checking? && PointOf(s, i) !in s.stuck
    case Start(i) => ScrapeAt(s, i) && s.scrapes[i].pc.Clear?
    case Return(i, _) => AtCall(s, i) && s.scrapes[i].pc.Calling?
    case LockClose(i) => AtCall(s, i) && s.scrapes[i].pc.Returned? && s.holder.NoOne?
    case Close(i) => AtCall(s, i) && s.scrapes[i].pc.Closing?
    case Unmark(i) => AtCall(s, i) && s.scrapes[i].pc.Clearing?
    case Unlock(i) => AtCall(s, i) && s.scrapes[i].pc.Releasing?
    case Fire(c) => c < |s.calls| && !s.calls[c].fired
    // The outer select: when both branches are ready either may be taken.
    case TakeSuccess(c) => c < |s.calls| && s.calls[c].watcher.Waiting? && !s.calls[c].Open()
    case TakeTimer(c) => c < |s.calls| && s.calls[c].watcher.Waiting? && s.calls[c].fired
    case LockRecheck(c) => c < |s.calls| && s.calls[c].watcher.TimedOut? && s.holder.NoOne?
    case Recheck(c) => c < |s.calls| && s.calls[c].watcher.Rechecking?
    case WatcherUnlock(c) => c < |s.calls| && s.calls[c].watcher.Leaving?
  }

  function SetPc(s: State, i: nat, pc: ScrapePc): State
    requires i < |s.scrapes|
  {
    s.(scrapes := s.scrapes[i := s.scrapes[i].(pc := pc)])
  }

  function SetWatcher(s: State, c: nat, pc: WatcherPc): State
    requires c < |s.calls|
  {
    s.(calls := s.calls[c := s.calls[c].(watcher := pc)])
  }

  function Apply(s: State, step: Step): State
    requires Enabled(s, step)
  {
    match step
    case Arrive(mounts) => s.(scrapes := s.scrapes + [Scrape(mounts, 0, Next, [])])
    case Skip(i) => s.(scrapes := s.scrapes[i := s.scrapes[i].(pos := s.scrapes[i].pos + 1)])
    case LockCheck(i) => SetPc(s, i, Checking).(holder := ScrapeAgent(i))
    case SeeMarked(i) => s.(holder := NoOne, scrapes := s.scrapes[i := s.scrapes[i].Done(true)])
    case SeeClear(i) => SetPc(s, i, Clear).(holder := NoOne)
    case Start(i) =>
      SetPc(s, i, Calling(|s.calls|)).(calls := s.calls + [Call(PointOf(s, i), i, 0, false, Waiting, false)])
    case Return(i, ok) => SetPc(s, i, Returned(s.scrapes[i].pc.call, ok))
    case LockClose(i) => SetPc(s, i, Closing(s.scrapes[i].pc.call, s.scrapes[i].pc.ok)).(holder := ScrapeAgent(i))
    case Close(i) =>
      var c := s.scrapes[i].pc.call;
      SetPc(s, i, Clearing(c, s.scrapes[i].pc.ok)).(calls := s.calls[c := s.calls[c].(closes := s.calls[c].closes + 1)])
    case Unmark(i) =>
      SetPc(s, i, Releasing(s.scrapes[i].pc.call, s.scrapes[i].pc.ok)).(stuck := s.stuck - {PointOf(s, i)})
    case Unlock(i) => s.(holder := NoOne, scrapes := s.scrapes[i := s.scrapes[i].Done(!s.scrapes[i].pc.ok)])
    case Fire(c) => s.(calls := s.calls[c := s.calls[c].(fired := true)])
    case TakeSuccess(c) => SetWatcher(s, c, Exited)
    case TakeTimer(c) => SetWatcher(s, c, TimedOut)
    case LockRecheck(c) => SetWatcher(s, c, Rechecking).(holder := WatcherAgent(c))
    case Recheck(c) =>
      if s.calls[c].Open() then
        s.(stuck := s.stuck + {s.calls[c].mount},
           calls := s.calls[c := s.calls[c].(watcher := Leaving, marked := true)])
      else
        SetWatcher(s, c, Leaving)
    case WatcherUnlock(c) => SetWatcher(s, c, Exited).(holder := NoOne)
  }

  // ----- runs

  predicate ValidRun(s: State, steps: seq<Step>)
    decreases |steps|, 0
  {
    steps != [] ==>
      && ValidRun(s, steps[..|steps| - 1])
      && Enabled(Exec(s, steps[..|steps| - 1]), steps[|steps| - 1])
  }

  /** The state after a run. */
  function Exec(s: State, steps: seq<Step>): State
    requires ValidRun(s, steps)
    decreases |steps|, 1
  {
    if steps == [] then s
    else Apply(Exec(s, steps[..|steps| - 1]), steps[|steps| - 1])
  }

  // ----- the invariant

  /** The mutex is held exactly by the goroutine inside a critical section. */
  ghost predicate MutexInv(s: State) {
    && (forall i {:trigger s.scrapes[i]} :: 0 <= i < |s.scrapes| ==> (s.scrapes[i].pc.Critical() <==> s.holder == ScrapeAgent(i)))
    && (forall c {:trigger s.calls[c]} :: 0 <= c < |s.calls| ==> (s.calls[c].watcher.Critical() <==> s.holder == WatcherAgent(c)))
    && (s.holder.ScrapeAgent? ==> s.holder.scrape < |s.scrapes|)
    && (s.holder.WatcherAgent? ==> s.holder.call < |s.calls|)
  }

  /** A scrape that is past the channel creation refers to a call of its own on its current mount. */
  ghost predicate ScrapeInv(s: State, i: nat)
    requires i < |s.scrapes|
  {
    var sc := s.scrapes[i];
    && sc.pos <= |sc.mounts|
    && (!sc.pc.Next? ==> sc.Active() && !sc.mounts[sc.pos].excluded)
    && (sc.pc.Calling? || sc.pc.Returned? || sc.pc.Closing? || sc.pc.Clearing? || sc.pc.Releasing? ==>
          AtCall(s, i) && s.calls[sc.pc.call].owner == i && s.calls[sc.pc.call].mount == sc.Point())
  }

  /** A channel is open exactly while its scrape is between creating and
      closing it, it is never closed twice, and only a watcher past the
      re-check can have marked. */
  ghost predicate CallInv(s: State, c: nat)
    requires c < |s.calls|
  {
    var k := s.calls[c];
    && k.owner < |s.scrapes|
    && k.closes <= 1
    && (k.Open() <==> s.scrapes[k.owner].pc.Owns(c))
    && (k.marked ==> k.watcher.Leaving? || k.watcher.Exited?)
  }

  ghost predicate OpenMarker(s: State, m: string, c: nat) {
    c < |s.calls| && s.calls[c].mount == m && s.calls[c].Open() && s.calls[c].marked
  }

  /** The holder of the mutex has closed its channel on m and is about to unmark m. */
  predicate UnmarkPending(s: State, m: string) {
    && s.holder.ScrapeAgent?
    && ScrapeAt(s, s.holder.scrape)
    && s.scrapes[s.holder.scrape].pc.Clearing?
    && PointOf(s, s.holder.scrape) == m
  }

  ghost predicate MarkInv(s: State) {
    forall m :: m in s.stuck ==> UnmarkPending(s, m) || exists c :: OpenMarker(s, m, c)
  }

  ghost predicate Inv(s: State) {
    && MutexInv(s)
    && (forall i :: 0 <= i < |s.scrapes| ==> ScrapeInv(s, i))
    && (forall c :: 0 <= c < |s.calls| ==> CallInv(s, c))
    && MarkInv(s)
  }

  lemma StepKeepsMutex(s: State, step: Step)
    requires Inv(s) && Enabled(s, step)
    ensures MutexInv(Apply(s, step))
  {
  }

  lemma StepKeepsScrape(s: State, step: Step, i: nat)
    requires Enabled(s, step) && i < |s.scrapes| && ScrapeInv(s, i)
    ensures ScrapeInv(Apply(s, step), i)
  {
  }

  lemma StepKeepsScrapes(s: State, step: Step)
    requires Inv(s) && Enabled(s, step)
    ensures forall i :: 0 <= i < |Apply(s, step).scrapes| ==> ScrapeInv(Apply(s, step), i)
  {
    var t := Apply(s, step);
    forall i | 0 <= i < |t.scrapes|
      ensures ScrapeInv(t, i)
    {
      if i < |s.scrapes| {
        StepKeepsScrape(s, step, i);
      }
    }
  }

  lemma StepKeepsCalls(s: State, step: Step)
    requires Inv(s) && Enabled(s, step)
    ensures forall c :: 0 <= c < |Apply(s, step).calls| ==> CallInv(Apply(s, step), c)
  {
    var t := Apply(s, step);
    forall c | 0 <= c < |t.calls|
      ensures CallInv(t, c)
    {
      if c < |s.calls| {
        assert CallInv(s, c) && ScrapeInv(s, s.calls[c].owner);
        if step.Close? {
          assert ScrapeInv(s, step.i);
        }
      }
    }
  }

  lemma StepKeepsMarks(s: State, step: Step)
    requires Inv(s) && Enabled(s, step)
    ensures MarkInv(Apply(s, step))
  {
    var t := Apply(s, step);
    forall m | m in t.stuck
      ensures UnmarkPending(t, m) || exists c :: OpenMarker(t, m, c)
    {
      if m in s.stuck {
        if UnmarkPending(s, m) {
          assert s.scrapes[s.holder.scrape].pc.Critical();
        } else {
          var c :| OpenMarker(s, m, c);
          assert CallInv(s, c);
          if step.Close? {
            assert ScrapeInv(s, step.i);
          }
          assert OpenMarker(t, m, c) || UnmarkPending(t, m);
        }
      } else {
        assert OpenMarker(t, m, step.c);
      }
    }
  }

  lemma {:induction false} RunKeepsInv(s: State, steps: seq<Step>)
    requires Inv(s) && ValidRun(s, steps)
    ensures Inv(Exec(s, steps))
    decreases |steps|
  {
    if steps != [] {
      var before := steps[..|steps| - 1];
      RunKeepsInv(s, before);
      var u, last := Exec(s, before), steps[|steps| - 1];
      StepKeepsMutex(u, last);
      StepKeepsScrapes(u, last);
      StepKeepsCalls(u, last);
      StepKeepsMarks(u, last);
    }
  }

  lemma ReachableInv(steps: seq<Step>)
    requires ValidRun(INIT, steps)
    ensures Inv(Exec(INIT, steps))
  {
    RunKeepsInv(INIT, steps);
  }

  /** A watcher leaves the outer select only for a closed channel or a fired timer,
      and it does not leave a call in flight without having marked its mount. */
  ghost predicate DutyInv(k: Call) {
    && (k.marked ==> k.fired)
    && (k.watcher.TimedOut? || k.watcher.Rechecking? ==> k.fired)
    && (k.watcher.Leaving? || k.watcher.Exited? ==> k.marked || !k.Open())
  }

  lemma {:induction false} WatcherDoesItsDuty(steps: seq<Step>)
    requires ValidRun(INIT, steps)
    ensures forall c {:trigger Exec(INIT, steps).calls[c]} :: 0 <= c < |Exec(INIT, steps).calls| ==> DutyInv(Exec(INIT, steps).calls[c])
    decreases |steps|
  {
    if steps != [] {
      var n := |steps| - 1;
      WatcherDoesItsDuty(steps[..n]);
      StepKeepsDuty(Exec(INIT, steps[..n]), steps[n]);
    }
  }

  /** A timer has fired exactly if it did so in a step of the run. */
  lemma {:induction false} FiredIffStep(steps: seq<Step>, c: nat)
    requires ValidRun(INIT, steps)
    ensures Fire(c) in steps <==> c < |Exec(INIT, steps).calls| && Exec(INIT, steps).calls[c].fired
    decreases |steps|
  {
    if steps != [] {
      var n := |steps| - 1;
      FiredIffStep(steps[..n], c);
      assert steps == steps[..n] + [steps[n]];
    }
  }

  lemma StepKeepsDuty(s: State, step: Step)
    requires Enabled(s, step) && forall c :: 0 <= c < |s.calls| ==> DutyInv(s.calls[c])
    ensures forall c :: 0 <= c < |Apply(s, step).calls| ==> DutyInv(Apply(s, step).calls[c])
  {
  }

  // ----- what a mark means

  /** In every reachable state a marked mount has a call whose channel is still
      open and whose own watcher did the marking; the one exception is the
      moment, inside a critical section, between a close and its unmark. */
  lemma MarkedMeansOpenMarker(steps: seq<Step>, m: string)
    requires ValidRun(INIT, steps)
    requires m in Exec(INIT, steps).stuck
    ensures UnmarkPending(Exec(INIT, steps), m) || exists c :: OpenMarker(Exec(INIT, steps), m, c)
  {
    ReachableInv(steps);
  }

  ghost predicate NoOpenCall(s: State, m: string) {
    forall c {:trigger s.calls[c]} :: 0 <= c < |s.calls| && s.calls[c].mount == m ==> !s.calls[c].Open()
  }

  predicate StartsOn(s: State, step: Step, m: string)
    requires Enabled(s, step)
  {
    step.Start? && PointOf(s, step.i) == m
  }

  /** No step of the run creates a call on m. */
  predicate NoStartOn(s: State, steps: seq<Step>, m: string)
    requires ValidRun(s, steps)
    decreases |steps|
  {
    steps != [] ==>
      && NoStartOn(s, steps[..|steps| - 1], m)
      && !StartsOn(Exec(s, steps[..|steps| - 1]), steps[|steps| - 1], m)
  }

  lemma QuietStep(s: State, step: Step, m: string)
    requires Inv(s) && Enabled(s, step)
    requires NoOpenCall(s, m) && !UnmarkPending(s, m) && !StartsOn(s, step, m)
    ensures NoOpenCall(Apply(s, step), m) && !UnmarkPending(Apply(s, step), m)
  {
    if step.Close? {
      assert ScrapeInv(s, step.i) && CallInv(s, s.scrapes[step.i].pc.call);
    }
  }

  /** Once no call on m has an open channel, m is unmarked and stays unmarked
      until a new call on m is made: no surviving watcher can mark it, however
      late its timer fires and whichever ready branch its select takes. */
  lemma {:induction false} QuietMountStaysUnmarked(steps: seq<Step>, more: seq<Step>, m: string)
    requires ValidRun(INIT, steps)
    requires ValidRun(Exec(INIT, steps), more) && NoStartOn(Exec(INIT, steps), more, m)
    requires NoOpenCall(Exec(INIT, steps), m) && !UnmarkPending(Exec(INIT, steps), m)
    ensures m !in Exec(Exec(INIT, steps), more).stuck
    ensures NoOpenCall(Exec(Exec(INIT, steps), more), m) && !UnmarkPending(Exec(Exec(INIT, steps), more), m)
    decreases |more|
  {
    var s := Exec(INIT, steps);
    ReachableInv(steps);
    if more != [] {
      var before := more[..|more| - 1];
      QuietMountStaysUnmarked(steps, before, m);
      RunKeepsInv(s, before);
      QuietStep(Exec(s, before), more[|more| - 1], m);
    }
    RunKeepsInv(s, more);
  }

  /** Go panics when a channel is closed twice; no run gets there. */
  lemma ChannelIsClosedOnce(steps: seq<Step>, i: nat)
    requires ValidRun(INIT, steps) && Enabled(Exec(INIT, steps), Close(i))
    ensures var s := Exec(INIT, steps);
      && s.calls[s.scrapes[i].pc.call].closes == 0
      && Apply(s, Close(i)).calls[s.scrapes[i].pc.call].closes == 1
  {
    ReachableInv(steps);
    var s := Exec(INIT, steps);
    assert ScrapeInv(s, i) && CallInv(s, s.scrapes[i].pc.call);
  }

  /** A channel is open exactly while the scrape that made it has not come
      back through its close; a scrape has at most one open channel. */
  lemma OpenIffInFlight(steps: seq<Step>, c: nat)
    requires ValidRun(INIT, steps) && c < |Exec(INIT, steps).calls|
    ensures var s := Exec(INIT, steps); var k := s.calls[c];
      k.owner < |s.scrapes| && (k.Open() <==> s.scrapes[k.owner].pc.Owns(c))
    ensures var s := Exec(INIT, steps);
      forall d {:trigger s.calls[d]} :: 0 <= d < |s.calls| && d != c && s.calls[d].owner == s.calls[c].owner ==>
        !(s.calls[c].Open() && s.calls[d].Open())
  {
    ReachableInv(steps);
    var s := Exec(INIT, steps);
    assert CallInv(s, c);
    forall d {:trigger s.calls[d]} | 0 <= d < |s.calls| && d != c && s.calls[d].owner == s.calls[c].owner
      ensures !(s.calls[c].Open() && s.calls[d].Open())
    {
      assert CallInv(s, d);
    }
  }

  // ----- exactly when a mount is marked

  predicate Marks(s: State, step: Step, m: string)
    requires Enabled(s, step)
  {
    step.Recheck? && s.calls[step.c].mount == m && s.calls[step.c].Open()
  }

  predicate Unmarks(s: State, step: Step, m: string)
    requires Enabled(s, step)
  {
    step.Unmark? && PointOf(s, step.i) == m
  }

  lemma {:induction false} PrefixIsValid(s: State, steps: seq<Step>, k: nat)
    requires ValidRun(s, steps) && k <= |steps|
    ensures ValidRun(s, steps[..k])
    ensures k < |steps| ==> Enabled(Exec(s, steps[..k]), steps[k])
    decreases |steps|
  {
    if k < |steps| {
      var before := steps[..|steps| - 1];
      PrefixIsValid(s, before, k);
      assert before[..k] == steps[..k];
    } else {
      assert steps[..k] == steps;
    }
  }

  lemma MarkedAfterStep(s: State, step: Step, m: string)
    requires Enabled(s, step)
    ensures m in Apply(s, step).stuck <==> Marks(s, step, m) || (m in s.stuck && !Unmarks(s, step, m))
  {
  }

  ghost predicate MarksAt(s: State, steps: seq<Step>, m: string, k: nat)
    requires ValidRun(s, steps) && k < |steps|
  {
    PrefixIsValid(s, steps, k);
    Marks(Exec(s, steps[..k]), steps[k], m)
  }

  ghost predicate UnmarksAt(s: State, steps: seq<Step>, m: string, k: nat)
    requires ValidRun(s, steps) && k < |steps|
  {
    PrefixIsValid(s, steps, k);
    Unmarks(Exec(s, steps[..k]), steps[k], m)
  }

  /** Step k of the run marks m and no later step unmarks it. */
  ghost predicate LastMark(s: State, steps: seq<Step>, m: string, k: nat)
    requires ValidRun(s, steps)
  {
    && k < |steps| && MarksAt(s, steps, m, k)
    && forall j | k < j < |steps| :: !UnmarksAt(s, steps, m, j)
  }

  /** A mount is marked exactly when some watcher timed out on it with its
      channel open and no call on it has come back since. */
  lemma {:induction false} MarkedIffLastMark(steps: seq<Step>, m: string)
    requires ValidRun(INIT, steps)
    ensures m in Exec(INIT, steps).stuck <==> exists k :: LastMark(INIT, steps, m, k)
    decreases |steps|
  {
    if steps != [] {
      var n := |steps| - 1;
      var before := steps[..n];
      MarkedIffLastMark(before, m);
      var u := Exec(INIT, before);
      MarkedAfterStep(u, steps[n], m);
      if Marks(u, steps[n], m) {
        assert LastMark(INIT, steps, m, n);
      } else {
        LastMarkKept(steps, m);
      }
    }
  }

  /** A scrape passes a mount over only behind a marking that no later step has
      taken back, and calls it only when there is none. */
  lemma LookupTellsTheRun(steps: seq<Step>, i: nat)
    requires ValidRun(INIT, steps)
    ensures var s := Exec(INIT, steps);
      && (Enabled(s, SeeMarked(i)) ==> exists k :: LastMark(INIT, steps, PointOf(s, i), k))
      && (Enabled(s, SeeClear(i)) ==> forall k :: !LastMark(INIT, steps, PointOf(s, i), k))
  {
    var s := Exec(INIT, steps);
    if ScrapeAt(s, i) {
      MarkedIffLastMark(steps, PointOf(s, i));
    }
  }

  lemma LastMarkKept(steps: seq<Step>, m: string)
    requires ValidRun(INIT, steps) && steps != []
    requires !Marks(Exec(INIT, steps[..|steps| - 1]), steps[|steps| - 1], m)
    ensures var n := |steps| - 1;
      (exists k :: LastMark(INIT, steps, m, k))
      <==> !Unmarks(Exec(INIT, steps[..n]), steps[n], m) && exists k :: LastMark(INIT, steps[..n], m, k)
  {
    var n := |steps| - 1;
    if k: nat :| LastMark(INIT, steps, m, k) {
      LastMarkExtends(INIT, steps, m, k);
    }
    if k: nat :| LastMark(INIT, steps[..n], m, k) {
      LastMarkExtends(INIT, steps, m, k);
    }
  }

  lemma AtIsKept(s: State, steps: seq<Step>, m: string, k: nat)
    requires ValidRun(s, steps) && k < |steps| - 1
    ensures MarksAt(s, steps, m, k) <==> MarksAt(s, steps[..|steps| - 1], m, k)
    ensures UnmarksAt(s, steps, m, k) <==> UnmarksAt(s, steps[..|steps| - 1], m, k)
  {
    assert steps[..|steps| - 1][..k] == steps[..k];
  }

  lemma LastMarkExtends(s: State, steps: seq<Step>, m: string, k: nat)
    requires ValidRun(s, steps) && k < |steps| - 1
    ensures var n := |steps| - 1;
      LastMark(s, steps, m, k) <==> LastMark(s, steps[..n], m, k) && !Unmarks(Exec(s, steps[..n]), steps[n], m)
  {
    var n := |steps| - 1;
    assert UnmarksAt(s, steps, m, n) <==> Unmarks(Exec(s, steps[..n]), steps[n], m);
    forall j: nat | j < n
      ensures MarksAt(s, steps, m, j) <==> MarksAt(s, steps[..n], m, j)
      ensures UnmarksAt(s, steps, m, j) <==> UnmarksAt(s, steps[..n], m, j)
    {
      AtIsKept(s, steps, m, j);
    }
  }

  /** The converse of MarkedMeansOpenMarker fails: a call may be in flight,
      after its own watcher marked the mount, and the mount be unmarked again,
      because a second scrape of the same mount succeeded. */
  lemma InFlightCallMayBeUnmarked(l: Labels) returns (steps: seq<Step>)
    ensures ValidRun(INIT, steps)
    ensures var s := Exec(INIT, steps);
      && l.mountPoint !in s.stuck
      && |s.calls| == 2 && s.calls[0].mount == l.mountPoint && s.calls[0].Open() && s.calls[0].marked
  {
    var k0, k1 := Call(l.mountPoint, 0, 0, false, Waiting, false), Call(l.mountPoint, 1, 0, false, Waiting, false);
    steps := TwoCalls(l);
    steps := FirstTimesOut(l, steps, k0, k1);
    steps := SecondRecovers(l, steps, k0.(fired := true, watcher := Exited, marked := true), k1);
  }

  lemma FirstTimesOut(l: Labels, before: seq<Step>, k0: Call, k1: Call) returns (steps: seq<Step>)
    requires ValidRun(INIT, before)
    requires k0 == Call(l.mountPoint, 0, 0, false, Waiting, false)
    requires Exec(INIT, before) == Pair(l, {}, NoOne, Calling(1), k0, k1)
    ensures ValidRun(INIT, steps)
    ensures Exec(INIT, steps) == Pair(l, {l.mountPoint}, NoOne, Calling(1), k0.(fired := true, watcher := Exited, marked := true), k1)
  {
    var k := k0.(fired := true);
    steps := Extend(INIT, before, Fire(0));
    FirstCallUpdate(l, {}, NoOne, k0, k1, k);
    steps := Extend(INIT, steps, TakeTimer(0));
    FirstCallUpdate(l, {}, NoOne, k, k1, k.(watcher := TimedOut));
    steps := FirstMarks(l, steps, k.(watcher := TimedOut), k1);
  }

  lemma FirstMarks(l: Labels, before: seq<Step>, k0: Call, k1: Call) returns (steps: seq<Step>)
    requires ValidRun(INIT, before)
    requires k0 == Call(l.mountPoint, 0, 0, true, TimedOut, false)
    requires Exec(INIT, before) == Pair(l, {}, NoOne, Calling(1), k0, k1)
    ensures ValidRun(INIT, steps)
    ensures Exec(INIT, steps) == Pair(l, {l.mountPoint}, NoOne, Calling(1), k0.(watcher := Exited, marked := true), k1)
  {
    steps := Extend(INIT, before, LockRecheck(0));
    FirstCallUpdate(l, {}, WatcherAgent(0), k0, k1, k0.(watcher := Rechecking));
    steps := Extend(INIT, steps, Recheck(0));
    var k := k0.(watcher := Leaving, marked := true);
    FirstCallUpdate(l, {l.mountPoint}, WatcherAgent(0), k0.(watcher := Rechecking), k1, k);
    steps := Extend(INIT, steps, WatcherUnlock(0));
    FirstCallUpdate(l, {l.mountPoint}, NoOne, k, k1, k.(watcher := Exited));
  }

  lemma FirstCallUpdate(l: Labels, stuck: set<string>, holder: Agent, k0: Call, k1: Call, k: Call)
    ensures var s := Pair(l, stuck, holder, Calling(1), k0, k1);
      s.(calls := s.calls[0 := k]) == Pair(l, stuck, holder, Calling(1), k, k1)
  {
    assert [k0, k1][0 := k] == [k, k1];
  }

  /** Two scrapes of the same mount, the first inside Statfs. */
  function Pair(l: Labels, stuck: set<string>, holder: Agent, pc: ScrapePc, k0: Call, k1: Call): State {
    State(stuck, holder, [Scrape([Mount(l, false)], 0, Calling(0), []), Scrape([Mount(l, false)], 0, pc, [])], [k0, k1])
  }

  lemma OneCall(l: Labels) returns (steps: seq<Step>)
    ensures ValidRun(INIT, steps)
    ensures Exec(INIT, steps) == State({}, NoOne, [Scrape([Mount(l, false)], 0, Calling(0), [])],
                                       [Call(l.mountPoint, 0, 0, false, Waiting, false)])
  {
    var mounts := [Mount(l, false)];
    steps := Extend(INIT, [], Arrive(mounts));
    steps := Extend(INIT, steps, LockCheck(0));
    steps := Extend(INIT, steps, SeeClear(0));
    steps := Extend(INIT, steps, Start(0));
  }

  lemma TwoCalls(l: Labels) returns (steps: seq<Step>)
    ensures ValidRun(INIT, steps)
    ensures Exec(INIT, steps) == Pair(l, {}, NoOne, Calling(1),
      Call(l.mountPoint, 0, 0, false, Waiting, false), Call(l.mountPoint, 1, 0, false, Waiting, false))
  {
    steps := OneCall(l);
    steps := Extend(INIT, steps, Arrive([Mount(l, false)]));
    steps := Extend(INIT, steps, LockCheck(1));
    steps := Extend(INIT, steps, SeeClear(1));
    steps := Extend(INIT, steps, Start(1));
  }

  lemma SecondRecovers(l: Labels, before: seq<Step>, k0: Call, k1: Call) returns (steps: seq<Step>)
    requires ValidRun(INIT, before)
    requires Exec(INIT, before) == Pair(l, {l.mountPoint}, NoOne, Calling(1), k0, k1)
    ensures ValidRun(INIT, steps)
    ensures Exec(INIT, steps) == Pair(l, {}, ScrapeAgent(1), Releasing(1, true), k0, k1.(closes := k1.closes + 1))
  {
    steps := SecondReturns(l, before, k0, k1);
    steps := SecondCloses(l, steps, k0, k1);
    steps := Extend(INIT, steps, Unmark(1));
  }

  lemma SecondCloses(l: Labels, before: seq<Step>, k0: Call, k1: Call) returns (steps: seq<Step>)
    requires ValidRun(INIT, before)
    requires Exec(INIT, before) == Pair(l, {l.mountPoint}, ScrapeAgent(1), Closing(1, true), k0, k1)
    ensures ValidRun(INIT, steps)
    ensures Exec(INIT, steps) == Pair(l, {l.mountPoint}, ScrapeAgent(1), Clearing(1, true), k0, k1.(closes := k1.closes + 1))
  {
    steps := Extend(INIT, before, Close(1));
  }

  lemma SecondReturns(l: Labels, before: seq<Step>, k0: Call, k1: Call) returns (steps: seq<Step>)
    requires ValidRun(INIT, before)
    requires Exec(INIT, before) == Pair(l, {l.mountPoint}, NoOne, Calling(1), k0, k1)
    ensures ValidRun(INIT, steps)
    ensures Exec(INIT, steps) == Pair(l, {l.mountPoint}, ScrapeAgent(1), Closing(1, true), k0, k1)
  {
    steps := Extend(INIT, before, Return(1, true));
    assert Exec(INIT, steps) == Pair(l, {l.mountPoint}, NoOne, Returned(1, true), k0, k1);
    steps := Extend(INIT, steps, LockClose(1));
  }

  lemma Extend(s: State, steps: seq<Step>, step: Step) returns (longer: seq<Step>)
    requires ValidRun(s, steps) && Enabled(Exec(s, steps), step)
    ensures ValidRun(s, longer) && longer == steps + [step]
    ensures Exec(s, longer) == Apply(Exec(s, steps), step)
  {
    longer := steps + [step];
    assert longer[..|longer| - 1] == steps;
  }

  // ----- the mutex is always released

  /** The next action of the goroutine that holds the mutex. */
  function HolderStep(s: State): Step
    requires s.holder.ScrapeAgent? ==> ScrapeAt(s, s.holder.scrape)
    requires s.holder.WatcherAgent? ==> s.holder.call < |s.calls|
  {
    match s.holder
    case NoOne => Arrive([])
    case ScrapeAgent(i) => (
      var pc := s.scrapes[i].pc;
      if pc.Checking? then (if PointOf(s, i) in s.stuck then SeeMarked(i) else SeeClear(i))
      else if pc.Closing? then Close(i)
      else if pc.Clearing? then Unmark(i)
      else Unlock(i))
    case WatcherAgent(c) => if s.calls[c].watcher.Rechecking? then Recheck(c) else WatcherUnlock(c)
  }

  /** How many actions the holder still takes before it unlocks. */
  function HoldRank(s: State): nat
    requires s.holder.ScrapeAgent? ==> ScrapeAt(s, s.holder.scrape)
    requires s.holder.WatcherAgent? ==> s.holder.call < |s.calls|
  {
    match s.holder
    case NoOne => 0
    case ScrapeAgent(i) => (
      var pc := s.scrapes[i].pc;
      if pc.Closing? then 3 else if pc.Clearing? then 2 else 1)
    case WatcherAgent(c) => if s.calls[c].watcher.Rechecking? then 2 else 1
  }

  ghost predicate HolderKnown(s: State) {
    && (s.holder.ScrapeAgent? ==> ScrapeAt(s, s.holder.scrape))
    && (s.holder.WatcherAgent? ==> s.holder.call < |s.calls|)
  }

  lemma HolderMoves(s: State)
    requires Inv(s) && !s.holder.NoOne?
    ensures HolderKnown(s) && 1 <= HoldRank(s) <= 3 && Enabled(s, HolderStep(s))
    ensures var t := Apply(s, HolderStep(s));
      HolderKnown(t) && if HoldRank(s) == 1 then t.holder.NoOne? else t.holder == s.holder && HoldRank(t) == HoldRank(s) - 1
  {
    match s.holder
    case ScrapeAgent(i) => assert ScrapeInv(s, i) && s.scrapes[i].pc.Critical();
    case WatcherAgent(c) => assert CallInv(s, c) && s.calls[c].watcher.Critical();
  }

  lemma OthersDoNotDisturb(s: State, other: Step)
    requires Inv(s) && !s.holder.NoOne? && HolderKnown(s)
    requires Enabled(s, other) && other != HolderStep(s)
    ensures var t := Apply(s, other);
      t.holder == s.holder && HolderKnown(t) && HoldRank(t) == HoldRank(s) && HolderStep(t) == HolderStep(s)
  {
    match s.holder
    case ScrapeAgent(i) => assert ScrapeInv(s, i) && s.scrapes[i].pc.Critical();
    case WatcherAgent(c) => assert CallInv(s, c) && s.calls[c].watcher.Critical();
  }

  /** Whoever holds the mutex can move, brings the unlock one action nearer by
      moving, and is never put off by anyone else's action: no interleaving
      keeps the mutex for more than three actions of its holder. */
  lemma HolderReleases(steps: seq<Step>, other: Step)
    requires ValidRun(INIT, steps) && !Exec(INIT, steps).holder.NoOne?
    ensures var s := Exec(INIT, steps);
      && HolderKnown(s) && 1 <= HoldRank(s) <= 3 && Enabled(s, HolderStep(s))
      && (var t := Apply(s, HolderStep(s));
          HolderKnown(t) && if HoldRank(s) == 1 then t.holder.NoOne? else t.holder == s.holder && HoldRank(t) == HoldRank(s) - 1)
      && (Enabled(s, other) && other != HolderStep(s) ==>
            (var t := Apply(s, other);
             t.holder == s.holder && HolderKnown(t) && HoldRank(t) == HoldRank(s) && HolderStep(t) == HolderStep(s)))
  {
    ReachableInv(steps);
    var s := Exec(INIT, steps);
    HolderMoves(s);
    if Enabled(s, other) && other != HolderStep(s) {
      OthersDoNotDisturb(s, other);
    }
  }

  /** Some goroutine has not finished. */
  ghost predicate Busy(s: State) {
    || (exists i: nat :: ScrapeAt(s, i))
    || (exists c | 0 <= c < |s.calls| :: !s.calls[c].watcher.Exited?)
  }

  /** No reachable state is a deadlock: while anything is unfinished, some
      action other than the arrival of a new scrape is possible. */
  lemma NoDeadlock(steps: seq<Step>) returns (step: Step)
    requires ValidRun(INIT, steps) && Busy(Exec(INIT, steps))
    ensures Enabled(Exec(INIT, steps), step) && !step.Arrive?
  {
    var s := Exec(INIT, steps);
    ReachableInv(steps);
    if !s.holder.NoOne? {
      HolderMoves(s);
      return HolderStep(s);
    }
    if i: nat :| ScrapeAt(s, i) {
      assert ScrapeInv(s, i) && !s.scrapes[i].pc.Critical();
      match s.scrapes[i].pc
      case Next => step := if s.scrapes[i].mounts[s.scrapes[i].pos].excluded then Skip(i) else LockCheck(i);
      case Clear => step := Start(i);
      case Calling(_) => step := Return(i, true);
      case Returned(_, _) => step := LockClose(i);
    } else {
      var c: nat :| c < |s.calls| && !s.calls[c].watcher.Exited?;
      assert !s.calls[c].watcher.Critical();
      step := if s.calls[c].watcher.TimedOut? then LockRecheck(c)
              else if s.calls[c].fired then TakeTimer(c)
              else Fire(c);
    }
  }

  /** Nothing can happen but what is outside the program: a new scrape, a
      Statfs coming back, a timer firing. */
  ghost predicate AllWait(s: State) {
    forall step :: Enabled(s, step) ==> step.Arrive? || step.Return? || step.Fire?
  }

  /** The only things the program ever waits for are hung Statfs calls and their
      timers: when all of it waits, the mutex is free, every scrape that has not
      finished is inside a Statfs, and every watcher that has not exited waits
      on an open channel and a timer that has not fired. */
  lemma OnlyStatfsIsWaitedFor(steps: seq<Step>)
    requires ValidRun(INIT, steps) && AllWait(Exec(INIT, steps))
    ensures var s := Exec(INIT, steps);
      && s.holder.NoOne?
      && (forall i: nat :: ScrapeAt(s, i) ==> s.scrapes[i].pc.Calling?)
      && (forall c {:trigger s.calls[c]} :: 0 <= c < |s.calls| && !s.calls[c].watcher.Exited? ==>
            s.calls[c].watcher.Waiting? && s.calls[c].Open() && !s.calls[c].fired)
  {
    var s := Exec(INIT, steps);
    ReachableInv(steps);
    if !s.holder.NoOne? {
      HolderMoves(s);
      assert false;
    }
    forall i: nat | ScrapeAt(s, i)
      ensures s.scrapes[i].pc.Calling?
    {
      ScrapeWaits(s, i);
    }
    forall c | 0 <= c < |s.calls| && !s.calls[c].watcher.Exited?
      ensures s.calls[c].watcher.Waiting? && s.calls[c].Open() && !s.calls[c].fired
    {
      assert !s.calls[c].watcher.Critical();
      assert !Enabled(s, LockRecheck(c)) && !Enabled(s, TakeSuccess(c)) && !Enabled(s, TakeTimer(c));
    }
  }

  lemma ScrapeWaits(s: State, i: nat)
    requires Inv(s) && AllWait(s) && s.holder.NoOne? && ScrapeAt(s, i)
    ensures s.scrapes[i].pc.Calling?
  {
    assert ScrapeInv(s, i) && !s.scrapes[i].pc.Critical();
    assert !Enabled(s, Skip(i)) && !Enabled(s, LockCheck(i)) && !Enabled(s, Start(i)) && !Enabled(s, LockClose(i));
  }

  // ----- progress

  /** How far a scrape is within its current mount. */
  function Stage(pc: ScrapePc): nat {
    match pc
    case Next => 0
    case Checking => 1
    case Clear => 2
    case Calling(_) => 7
    case Returned(_, _) => 8
    case Closing(_, _) => 9
    case Clearing(_, _) => 10
    case Releasing(_, _) => 11
  }

  /** How much a scrape still has to do, the watchers it will start included. */
  function ScrapeRank(sc: Scrape): nat {
    if sc.Active() then 12 * (|sc.mounts| - sc.pos) - Stage(sc.pc) else 0
  }

  function WatcherRank(k: Call): nat {
    match k.watcher
    case Waiting => 4
    case TimedOut => 3
    case Rechecking => 2
    case Leaving => 1
    case Exited => 0
  }

  function ScrapeRanks(scrapes: seq<Scrape>): nat {
    if scrapes == [] then 0 else ScrapeRanks(scrapes[..|scrapes| - 1]) + ScrapeRank(scrapes[|scrapes| - 1])
  }

  function WatcherRanks(calls: seq<Call>): nat {
    if calls == [] then 0 else WatcherRanks(calls[..|calls| - 1]) + WatcherRank(calls[|calls| - 1])
  }

  function Rank(s: State): nat {
    ScrapeRanks(s.scrapes) + WatcherRanks(s.calls)
  }

  lemma {:induction false} ScrapeRanksUpdate(scrapes: seq<Scrape>, i: nat, sc: Scrape)
    requires i < |scrapes|
    ensures ScrapeRanks(scrapes[i := sc]) == ScrapeRanks(scrapes) - ScrapeRank(scrapes[i]) + ScrapeRank(sc)
    decreases |scrapes|
  {
    var n := |scrapes| - 1;
    if i == n {
      assert scrapes[i := sc][..n] == scrapes[..n];
    } else {
      ScrapeRanksUpdate(scrapes[..n], i, sc);
      assert scrapes[i := sc][..n] == scrapes[..n][i := sc];
    }
  }

  lemma {:induction false} WatcherRanksUpdate(calls: seq<Call>, c: nat, k: Call)
    requires c < |calls|
    ensures WatcherRanks(calls[c := k]) == WatcherRanks(calls) - WatcherRank(calls[c]) + WatcherRank(k)
    decreases |calls|
  {
    var n := |calls| - 1;
    if c == n {
      assert calls[c := k][..n] == calls[..n];
    } else {
      WatcherRanksUpdate(calls[..n], c, k);
      assert calls[c := k][..n] == calls[..n][c := k];
    }
  }

  lemma ScrapeStepProgresses(s: State, step: Step, i: nat)
    requires Enabled(s, step)
    requires step == Skip(i) || step == LockCheck(i) || step == SeeMarked(i) || step == SeeClear(i)
      || (step.Return? && step.i == i) || step == LockClose(i) || step == Unmark(i) || step == Unlock(i)
    ensures Rank(Apply(s, step)) < Rank(s)
  {
    ScrapeRanksUpdate(s.scrapes, i, Apply(s, step).scrapes[i]);
  }

  lemma WatcherStepProgresses(s: State, step: Step, c: nat)
    requires Enabled(s, step)
    requires step == TakeSuccess(c) || step == TakeTimer(c) || step == LockRecheck(c) || step == Recheck(c) || step == WatcherUnlock(c)
    ensures Rank(Apply(s, step)) < Rank(s)
  {
    WatcherRanksUpdate(s.calls, c, Apply(s, step).calls[c]);
  }

  lemma StartProgresses(s: State, i: nat)
    requires Enabled(s, Start(i))
    ensures Rank(Apply(s, Start(i))) < Rank(s)
  {
    var t := Apply(s, Start(i));
    ScrapeRanksUpdate(s.scrapes, i, t.scrapes[i]);
    assert t.calls[..|s.calls|] == s.calls;
  }

  lemma CloseProgresses(s: State, i: nat)
    requires Enabled(s, Close(i))
    ensures Rank(Apply(s, Close(i))) < Rank(s)
  {
    var t, c := Apply(s, Close(i)), s.scrapes[i].pc.call;
    ScrapeRanksUpdate(s.scrapes, i, t.scrapes[i]);
    WatcherRanksUpdate(s.calls, c, t.calls[c]);
  }

  /** Every step but the arrival of a scrape and the firing of a timer brings the
      end of all scrapes and watchers nearer, and a timer does not put it off: as
      long as every Statfs comes back, what has been started comes to its end. */
  lemma EveryStepProgresses(s: State, step: Step)
    requires Enabled(s, step) && !step.Arrive?
    ensures if step.Fire? then Rank(Apply(s, step)) == Rank(s) else Rank(Apply(s, step)) < Rank(s)
  {
    match step
    case Start(i) => StartProgresses(s, i);
    case Close(i) => CloseProgresses(s, i);
    case Fire(c) => WatcherRanksUpdate(s.calls, c, Apply(s, step).calls[c]);
    case TakeSuccess(c) => WatcherStepProgresses(s, step, c);
    case TakeTimer(c) => WatcherStepProgresses(s, step, c);
    case LockRecheck(c) => WatcherStepProgresses(s, step, c);
    case Recheck(c) => WatcherStepProgresses(s, step, c);
    case WatcherUnlock(c) => WatcherStepProgresses(s, step, c);
    case Skip(i) => ScrapeStepProgresses(s, step, i);
    case LockCheck(i) => ScrapeStepProgresses(s, step, i);
    case SeeMarked(i) => ScrapeStepProgresses(s, step, i);
    case SeeClear(i) => ScrapeStepProgresses(s, step, i);
    case Return(i, _) => ScrapeStepProgresses(s, step, i);
    case LockClose(i) => ScrapeStepProgresses(s, step, i);
    case Unmark(i) => ScrapeStepProgresses(s, step, i);
    case Unlock(i) => ScrapeStepProgresses(s, step, i);
  }

  /** Nothing is left to do exactly when every scrape and every watcher has ended. */
  lemma RankIsZeroIff(s: State)
    ensures Rank(s) == 0 <==>
      (forall i :: 0 <= i < |s.scrapes| ==> !s.scrapes[i].Active()) && forall c :: 0 <= c < |s.calls| ==> s.calls[c].watcher.Exited?
  {
    ScrapeRanksZero(s.scrapes);
    WatcherRanksZero(s.calls);
  }

  lemma {:induction false} ScrapeRanksZero(scrapes: seq<Scrape>)
    ensures ScrapeRanks(scrapes) == 0 <==> forall i :: 0 <= i < |scrapes| ==> !scrapes[i].Active()
    decreases |scrapes|
  {
    if scrapes != [] {
      var n := |scrapes| - 1;
      ScrapeRanksZero(scrapes[..n]);
      assert forall i :: 0 <= i < n ==> scrapes[..n][i] == scrapes[i];
    }
  }

  lemma {:induction false} WatcherRanksZero(calls: seq<Call>)
    ensures WatcherRanks(calls) == 0 <==> forall c :: 0 <= c < |calls| ==> calls[c].watcher.Exited?
    decreases |calls|
  {
    if calls != [] {
      var n := |calls| - 1;
      WatcherRanksZero(calls[..n]);
      assert forall c :: 0 <= c < n ==> calls[..n][c] == calls[c];
    }
  }

  // ----- one call at a time

  /** No two calls on m are open at once. */
  ghost predicate OneOpenCall(s: State, m: string) {
    forall c, d {:trigger s.calls[c], s.calls[d]} :: 0 <= c < d < |s.calls| && s.calls[c].mount == m && s.calls[d].mount == m ==>
      !s.calls[c].Open() || !s.calls[d].Open()
  }

  /** In no state of the run are two calls on m open at once. */
  ghost predicate OneAtATime(s: State, steps: seq<Step>, m: string)
    requires ValidRun(s, steps)
    decreases |steps|
  {
    OneOpenCall(Exec(s, steps), m) && (steps != [] ==> OneAtATime(s, steps[..|steps| - 1], m))
  }

  ghost predicate OpenMarkerIsSeen(s: State, m: string) {
    forall c: nat :: OpenMarker(s, m, c) ==> m in s.stuck && !UnmarkPending(s, m)
  }

  lemma StepKeepsSeen(s: State, step: Step, m: string)
    requires Inv(s) && Enabled(s, step) && OneOpenCall(s, m) && OpenMarkerIsSeen(s, m)
    ensures OpenMarkerIsSeen(Apply(s, step), m)
  {
    var t := Apply(s, step);
    forall c: nat | OpenMarker(t, m, c)
      ensures m in t.stuck && !UnmarkPending(t, m)
    {
      assert c < |s.calls|;
      assert step == Recheck(c) || OpenMarker(s, m, c);
      if step.Close? {
        CloserIsOpen(s, step.i);
        assert s.calls[c].mount == m && s.calls[s.scrapes[step.i].pc.call].mount == PointOf(s, step.i);
      } else if step.Recheck? {
        assert s.calls[step.c].watcher.Critical();
      }
    }
  }

  lemma CloserIsOpen(s: State, i: nat)
    requires Inv(s) && Enabled(s, Close(i))
    ensures var c := s.scrapes[i].pc.call; s.calls[c].Open() && s.calls[c].mount == PointOf(s, i)
  {
    assert ScrapeInv(s, i) && CallInv(s, s.scrapes[i].pc.call);
  }

  /** As long as no two calls on m were ever open at once, m is marked exactly
      while a call on it is open that its own watcher has marked; the moment
      between a close and its unmark is the only exception. */
  lemma {:induction false} MarkedIffOpenMarker(steps: seq<Step>, m: string)
    requires ValidRun(INIT, steps) && OneAtATime(INIT, steps, m)
    ensures var s := Exec(INIT, steps);
      && OpenMarkerIsSeen(s, m)
      && (!UnmarkPending(s, m) ==> (m in s.stuck <==> exists c: nat :: OpenMarker(s, m, c)))
    decreases |steps|
  {
    if steps != [] {
      var before := steps[..|steps| - 1];
      MarkedIffOpenMarker(before, m);
      ReachableInv(before);
      StepKeepsSeen(Exec(INIT, before), steps[|steps| - 1], m);
    }
    ReachableInv(steps);
  }

  // ----- a marked mount is left alone

  function CallsOn(calls: seq<Call>, m: string): nat {
    if calls == [] then 0
    else CallsOn(calls[..|calls| - 1], m) + if calls[|calls| - 1].mount == m then 1 else 0
  }

  predicate Cleared(sc: Scrape, m: string) {
    sc.pc.Clear? && sc.Active() && sc.Point() == m
  }

  /** How many scrapes have passed the check of m without having started their call. */
  function ClearedOn(scrapes: seq<Scrape>, m: string): nat {
    if scrapes == [] then 0
    else ClearedOn(scrapes[..|scrapes| - 1], m) + if Cleared(scrapes[|scrapes| - 1], m) then 1 else 0
  }

  lemma {:induction false} ClearedUpdate(scrapes: seq<Scrape>, i: nat, sc: Scrape, m: string)
    requires i < |scrapes|
    ensures ClearedOn(scrapes[i := sc], m) + (if Cleared(scrapes[i], m) then 1 else 0)
         == ClearedOn(scrapes, m) + (if Cleared(sc, m) then 1 else 0)
    decreases |scrapes|
  {
    var n := |scrapes| - 1;
    if i == n {
      assert scrapes[i := sc][..n] == scrapes[..n];
    } else {
      ClearedUpdate(scrapes[..n], i, sc, m);
      assert scrapes[i := sc][..n] == scrapes[..n][i := sc];
    }
  }

  lemma {:induction false} CallsUpdate(calls: seq<Call>, c: nat, k: Call, m: string)
    requires c < |calls| && k.mount == calls[c].mount
    ensures CallsOn(calls[c := k], m) == CallsOn(calls, m)
    decreases |calls|
  {
    var n := |calls| - 1;
    if c == n {
      assert calls[c := k][..n] == calls[..n];
    } else {
      CallsUpdate(calls[..n], c, k, m);
      assert calls[c := k][..n] == calls[..n][c := k];
    }
  }

  /** m is marked in every state of the run. */
  predicate MarkedThroughout(s: State, steps: seq<Step>, m: string)
    requires ValidRun(s, steps)
    decreases |steps|
  {
    m in Exec(s, steps).stuck && (steps != [] ==> MarkedThroughout(s, steps[..|steps| - 1], m))
  }

  lemma StepPileUp(s: State, step: Step, m: string)
    requires Inv(s) && Enabled(s, step) && m in s.stuck
    ensures var t := Apply(s, step);
      CallsOn(t.calls, m) + ClearedOn(t.scrapes, m) == CallsOn(s.calls, m) + ClearedOn(s.scrapes, m)
  {
    var t := Apply(s, step);
    match step
    case Arrive(_) =>
      assert t.scrapes[..|s.scrapes|] == s.scrapes;
    case Start(i) =>
      ClearedUpdate(s.scrapes, i, t.scrapes[i], m);
      assert t.calls[..|s.calls|] == s.calls;
    case Close(i) =>
      ClearedUpdate(s.scrapes, i, t.scrapes[i], m);
      CallsUpdate(s.calls, s.scrapes[i].pc.call, t.calls[s.scrapes[i].pc.call], m);
    case Skip(i) => ClearedUpdate(s.scrapes, i, t.scrapes[i], m);
    case LockCheck(i) => ClearedUpdate(s.scrapes, i, t.scrapes[i], m);
    case SeeMarked(i) => ClearedUpdate(s.scrapes, i, t.scrapes[i], m);
    case SeeClear(i) => ClearedUpdate(s.scrapes, i, t.scrapes[i], m);
    case Return(i, _) => ClearedUpdate(s.scrapes, i, t.scrapes[i], m);
    case LockClose(i) => ClearedUpdate(s.scrapes, i, t.scrapes[i], m);
    case Unmark(i) => ClearedUpdate(s.scrapes, i, t.scrapes[i], m);
    case Unlock(i) => ClearedUpdate(s.scrapes, i, t.scrapes[i], m);
    case Fire(c) => CallsUpdate(s.calls, c, t.calls[c], m);
    case TakeSuccess(c) => CallsUpdate(s.calls, c, t.calls[c], m);
    case TakeTimer(c) => CallsUpdate(s.calls, c, t.calls[c], m);
    case LockRecheck(c) => CallsUpdate(s.calls, c, t.calls[c], m);
    case Recheck(c) => CallsUpdate(s.calls, c, t.calls[c], m);
    case WatcherUnlock(c) => CallsUpdate(s.calls, c, t.calls[c], m);
  }

  /** While a mount stays marked, the only calls made on it are those of
      scrapes that had passed its check before: nobody else piles up on it. */
  lemma {:induction false} MarkedMountIsLeftAlone(steps: seq<Step>, more: seq<Step>, m: string)
    requires ValidRun(INIT, steps)
    requires ValidRun(Exec(INIT, steps), more) && MarkedThroughout(Exec(INIT, steps), more, m)
    ensures var s, t := Exec(INIT, steps), Exec(Exec(INIT, steps), more);
      CallsOn(t.calls, m) + ClearedOn(t.scrapes, m) == CallsOn(s.calls, m) + ClearedOn(s.scrapes, m)
    decreases |more|
  {
    if more != [] {
      var s, before := Exec(INIT, steps), more[..|more| - 1];
      MarkedMountIsLeftAlone(steps, before, m);
      ReachableInv(steps);
      RunKeepsInv(s, before);
      StepPileUp(Exec(s, before), more[|more| - 1], m);
    }
  }

  // ----- what a scrape reports

  /** The labels of the mounts that are not excluded, in table order. */
  function Reported(mounts: seq<Mount>): seq<Labels> {
    if mounts == [] then []
    else
      var n := |mounts| - 1;
      Reported(mounts[..n]) + if mounts[n].excluded then [] else [mounts[n].labels]
  }

  function LabelsOf(stats: seq<Stat>): seq<Labels> {
    seq(|stats|, k requires 0 <= k < |stats| => stats[k].labels)
  }

  ghost predicate StatsInv(s: State) {
    forall i {:trigger s.scrapes[i]} :: 0 <= i < |s.scrapes| ==> ReportsSoFar(s.scrapes[i])
  }

  ghost predicate ReportsSoFar(sc: Scrape) {
    sc.pos <= |sc.mounts| && LabelsOf(sc.stats) == Reported(sc.mounts[..sc.pos])
  }

  lemma ReportedExtends(mounts: seq<Mount>, pos: nat)
    requires pos < |mounts|
    ensures Reported(mounts[..pos + 1]) == Reported(mounts[..pos]) + if mounts[pos].excluded then [] else [mounts[pos].labels]
  {
    assert mounts[..pos + 1][..pos] == mounts[..pos];
  }

  lemma DoneReports(sc: Scrape, deviceError: bool)
    requires sc.Active() && ReportsSoFar(sc) && !sc.mounts[sc.pos].excluded
    ensures ReportsSoFar(sc.Done(deviceError))
  {
    ReportedExtends(sc.mounts, sc.pos);
    assert LabelsOf(sc.Done(deviceError).stats) == LabelsOf(sc.stats) + [sc.mounts[sc.pos].labels];
  }

  lemma StepKeepsStats(s: State, step: Step)
    requires Inv(s) && StatsInv(s) && Enabled(s, step)
    ensures StatsInv(Apply(s, step))
  {
    var t := Apply(s, step);
    forall i {:trigger t.scrapes[i]} | 0 <= i < |t.scrapes|
      ensures ReportsSoFar(t.scrapes[i])
    {
      if i < |s.scrapes| {
        var a := s.scrapes[i];
        assert ScrapeInv(s, i) && ReportsSoFar(a);
        if step == Skip(i) {
          ReportedExtends(a.mounts, a.pos);
        } else if step == SeeMarked(i) || step == Unlock(i) {
          DoneReports(a, t.scrapes[i].stats[|a.stats|].deviceError);
        }
      }
    }
  }

  /** A scrape that has finished reports every mount that is not excluded
      exactly once and in table order, whatever the other goroutines did. */
  lemma {:induction false} ScrapeReportsEveryMount(steps: seq<Step>)
    requires ValidRun(INIT, steps)
    ensures StatsInv(Exec(INIT, steps))
    ensures forall i {:trigger Exec(INIT, steps).scrapes[i]} :: 0 <= i < |Exec(INIT, steps).scrapes| ==>
      (var sc := Exec(INIT, steps).scrapes[i]; !sc.Active() ==> LabelsOf(sc.stats) == Reported(sc.mounts))
    decreases |steps|
  {
    var s := Exec(INIT, steps);
    if steps != [] {
      var before := steps[..|steps| - 1];
      ScrapeReportsEveryMount(before);
      ReachableInv(before);
      StepKeepsStats(Exec(INIT, before), steps[|steps| - 1]);
    }
    forall i {:trigger s.scrapes[i]} | 0 <= i < |s.scrapes| && !s.scrapes[i].Active()
      ensures LabelsOf(s.scrapes[i].stats) == Reported(s.scrapes[i].mounts)
    {
      assert s.scrapes[i].mounts[..s.scrapes[i].pos] == s.scrapes[i].mounts;
    }
  }

  // ----- which of the reported mounts have failed, told from the steps alone

  /** How many mounts scrape i has finished with. */
  function Finished(steps: seq<Step>, i: nat): nat {
    if steps == [] then 0
    else
      var last := steps[|steps| - 1];
      Finished(steps[..|steps| - 1], i) + if last == Skip(i) || last == SeeMarked(i) || last == Unlock(i) then 1 else 0
  }

  /** The mount lists of the scrapes in the order of their arrival. */
  function Arrived(steps: seq<Step>): seq<seq<Mount>> {
    if steps == [] then []
    else
      var last := steps[|steps| - 1];
      Arrived(steps[..|steps| - 1]) + if last.Arrive? then [last.mounts] else []
  }

  /** At step k scrape i, standing at mount p, finds the mount point m marked or
      has its Statfs call fail. */
  ghost predicate FailsAt(steps: seq<Step>, k: nat, i: nat, p: nat, m: string)
    requires ValidRun(INIT, steps) && k < |steps|
  {
    PrefixIsValid(INIT, steps, k);
    && Finished(steps[..k], i) == p
    && (steps[k] == Return(i, false) || (steps[k] == SeeMarked(i) && m in Exec(INIT, steps[..k]).stuck))
  }

  ghost predicate Failed(steps: seq<Step>, i: nat, p: nat, m: string)
    requires ValidRun(INIT, steps)
  {
    exists k: nat :: k < |steps| && FailsAt(steps, k, i, p, m)
  }

  lemma FailedExtends(steps: seq<Step>, i: nat, p: nat, m: string)
    requires ValidRun(INIT, steps) && steps != []
    ensures var n := |steps| - 1;
      Failed(steps, i, p, m) <==> Failed(steps[..n], i, p, m) || FailsAt(steps, n, i, p, m)
  {
    var n := |steps| - 1;
    forall k: nat | k < n
      ensures FailsAt(steps, k, i, p, m) <==> FailsAt(steps[..n], k, i, p, m)
    {
      assert steps[..n][..k] == steps[..k];
    }
  }

  /** The scrape is behind its Statfs call, which has failed. */
  predicate HasFailed(pc: ScrapePc) {
    (pc.Returned? || pc.Closing? || pc.Clearing? || pc.Releasing?) && !pc.ok
  }

  /** The entries of scrape i for the mounts it has finished with: one for each
      that is not excluded, a device error exactly if it has failed. */
  ghost predicate EntriesTell(steps: seq<Step>, i: nat, sc: Scrape)
    requires ValidRun(INIT, steps)
  {
    && sc.pos <= |sc.mounts| && |sc.stats| == |Reported(sc.mounts[..sc.pos])|
    && forall p: nat {:trigger sc.mounts[p]} :: p < sc.pos && !sc.mounts[p].excluded ==>
         var e := |Reported(sc.mounts[..p])|;
         && e < |sc.stats| && sc.stats[e].labels == sc.mounts[p].labels
         && (sc.stats[e].deviceError <==> Failed(steps, i, p, sc.mounts[p].labels.mountPoint))
  }

  ghost predicate OutcomeInv(steps: seq<Step>, i: nat, sc: Scrape)
    requires ValidRun(INIT, steps)
  {
    && sc.pos == Finished(steps, i)
    && EntriesTell(steps, i, sc)
    && (sc.Active() ==> (Failed(steps, i, sc.pos, sc.Point()) <==> HasFailed(sc.pc)))
    && (forall p: nat, m :: sc.pos < p ==> !Failed(steps, i, p, m))
  }

  /** Before its arrival. */
  ghost predicate NothingYet(steps: seq<Step>, i: nat)
    requires ValidRun(INIT, steps)
  {
    Finished(steps, i) == 0 && forall p: nat, m :: !Failed(steps, i, p, m)
  }

  ghost predicate OutcomesInv(steps: seq<Step>)
    requires ValidRun(INIT, steps)
  {
    var s := Exec(INIT, steps);
    && |Arrived(steps)| == |s.scrapes|
    && (forall i: nat {:trigger s.scrapes[i]} :: i < |s.scrapes| ==>
          s.scrapes[i].mounts == Arrived(steps)[i] && OutcomeInv(steps, i, s.scrapes[i]))
    && (forall i: nat :: |s.scrapes| <= i ==> NothingYet(steps, i))
  }

  lemma ReportedLength(mounts: seq<Mount>, p: nat, q: nat)
    requires p < q <= |mounts| && !mounts[p].excluded
    ensures |Reported(mounts[..p])| < |Reported(mounts[..q])|
    decreases q
  {
    ReportedExtends(mounts, q - 1);
    if p < q - 1 {
      ReportedLength(mounts, p, q - 1);
    }
  }

  /** A step in which the scrape stays at its mount. */
  lemma OutcomeStays(steps: seq<Step>, i: nat, a: Scrape, b: Scrape)
    requires ValidRun(INIT, steps) && steps != []
    requires OutcomeInv(steps[..|steps| - 1], i, a)
    requires b.mounts == a.mounts && b.pos == a.pos && b.stats == a.stats && Finished(steps, i) == a.pos
    requires b.Active() ==> (HasFailed(b.pc) <==> HasFailed(a.pc) || FailsAt(steps, |steps| - 1, i, a.pos, a.Point()))
    ensures OutcomeInv(steps, i, b)
  {
    var n := |steps| - 1;
    forall p: nat, m
      ensures Failed(steps, i, p, m) <==> Failed(steps[..n], i, p, m) || FailsAt(steps, n, i, p, m)
    {
      FailedExtends(steps, i, p, m);
    }
    assert forall p: nat, m :: p != a.pos ==> !FailsAt(steps, n, i, p, m);
  }

  /** A step that ends the mount, with the entry it adds. */
  lemma OutcomeMoves(steps: seq<Step>, i: nat, a: Scrape, b: Scrape)
    requires ValidRun(INIT, steps) && steps != []
    requires OutcomeInv(steps[..|steps| - 1], i, a) && a.Active()
    requires b.mounts == a.mounts && b.pos == a.pos + 1 && b.pc.Next? && Finished(steps, i) == b.pos
    requires if a.mounts[a.pos].excluded then b.stats == a.stats
             else |b.stats| == |a.stats| + 1 && b.stats[..|a.stats|] == a.stats && b.stats[|a.stats|].labels == a.mounts[a.pos].labels
    requires !a.mounts[a.pos].excluded ==>
      (b.stats[|a.stats|].deviceError <==> HasFailed(a.pc) || FailsAt(steps, |steps| - 1, i, a.pos, a.Point()))
    ensures OutcomeInv(steps, i, b)
  {
    var n := |steps| - 1;
    forall p: nat, m
      ensures Failed(steps, i, p, m) <==> Failed(steps[..n], i, p, m) || FailsAt(steps, n, i, p, m)
    {
      FailedExtends(steps, i, p, m);
    }
    assert forall p: nat, m :: p != a.pos ==> !FailsAt(steps, n, i, p, m);
    ReportedExtends(a.mounts, a.pos);
    forall p: nat | p < b.pos && !b.mounts[p].excluded
      ensures var e := |Reported(b.mounts[..p])|;
        && e < |b.stats| && b.stats[e].labels == b.mounts[p].labels
        && (b.stats[e].deviceError <==> Failed(steps, i, p, b.mounts[p].labels.mountPoint))
    {
      if p < a.pos {
        ReportedLength(a.mounts, p, a.pos);
        assert b.stats[|Reported(a.mounts[..p])|] == a.stats[|Reported(a.mounts[..p])|];
      }
    }
  }

  predicate IsMoveOf(step: Step, i: nat) {
    step == Skip(i) || step == SeeMarked(i) || step == Unlock(i)
  }

  lemma StepKeepsOutcome(steps: seq<Step>, i: nat)
    requires ValidRun(INIT, steps) && steps != []
    requires var s := Exec(INIT, steps[..|steps| - 1]); Inv(s) && i < |s.scrapes| && OutcomeInv(steps[..|steps| - 1], i, s.scrapes[i])
    ensures i < |Exec(INIT, steps).scrapes| && OutcomeInv(steps, i, Exec(INIT, steps).scrapes[i])
    ensures Exec(INIT, steps).scrapes[i].mounts == Exec(INIT, steps[..|steps| - 1]).scrapes[i].mounts
  {
    var n := |steps| - 1;
    var s, t, step := Exec(INIT, steps[..n]), Exec(INIT, steps), steps[n];
    var a, b := s.scrapes[i], t.scrapes[i];
    assert ScrapeInv(s, i);
    if IsMoveOf(step, i) {
      OutcomeMoves(steps, i, a, b);
    } else {
      OutcomeStays(steps, i, a, b);
    }
  }

  lemma StepKeepsNothing(steps: seq<Step>, i: nat)
    requires ValidRun(INIT, steps) && steps != []
    requires |Exec(INIT, steps[..|steps| - 1]).scrapes| <= i && NothingYet(steps[..|steps| - 1], i)
    ensures NothingYet(steps, i)
  {
    forall p: nat, m
      ensures !Failed(steps, i, p, m)
    {
      FailedExtends(steps, i, p, m);
    }
  }

  lemma {:induction false} RunKeepsOutcomes(steps: seq<Step>)
    requires ValidRun(INIT, steps)
    ensures OutcomesInv(steps)
    decreases |steps|
  {
    var s := Exec(INIT, steps);
    if steps != [] {
      var n := |steps| - 1;
      var r := Exec(INIT, steps[..n]);
      RunKeepsOutcomes(steps[..n]);
      ReachableInv(steps[..n]);
      forall i: nat
        ensures i < |s.scrapes| ==> s.scrapes[i].mounts == Arrived(steps)[i] && OutcomeInv(steps, i, s.scrapes[i])
        ensures |s.scrapes| <= i ==> NothingYet(steps, i)
      {
        if i < |r.scrapes| {
          StepKeepsOutcome(steps, i);
        } else {
          StepKeepsNothing(steps, i);
        }
      }
    }
  }

  /** For every run and every scrape: it has the mounts it arrived with; of those
      it has finished with each that is not excluded has one entry, in order; and
      that entry is a device error exactly if the scrape, standing at that mount,
      found it marked or had its Statfs call come back failed. */
  lemma EntriesTellOutcomes(steps: seq<Step>, i: nat)
    requires ValidRun(INIT, steps) && i < |Exec(INIT, steps).scrapes|
    ensures i < |Arrived(steps)|
    ensures var sc := Exec(INIT, steps).scrapes[i];
      sc.mounts == Arrived(steps)[i] && sc.pos == Finished(steps, i) && EntriesTell(steps, i, sc)
  {
    RunKeepsOutcomes(steps);
    var s := Exec(INIT, steps);
    assert OutcomeInv(steps, i, s.scrapes[i]);
  }

  // ----- the critical sections and the loop, in place

  /** The success channel of one Statfs call. */
  class Channel {
    var closed: bool

    constructor ()
      ensures !closed
    {
      closed := false;
    }

    method Close()
      requires !closed
      modifies this
      ensures closed
    {
      closed := true;
    }
  }

  /** The answer of one Statfs call: whether the timeout passed first, and whether it succeeded. */
  datatype Answer = Answer(late: bool, ok: bool)

  /** The map `stuckMounts`; each method but the loop is one critical section. */
  class StuckMounts {
    var marked: set<string>

    constructor ()
      ensures marked == {}
    {
      marked := {};
    }

    method IsMarked(m: string) returns (found: bool)
      ensures found <==> m in marked
    {
      found := m in marked;
    }

    method Recover(m: string, success: Channel)
      requires !success.closed
      modifies this, success
      ensures success.closed && marked == old(marked) - {m}
    {
      success.Close();
      if m in marked {
        marked := marked - {m};
      }
    }

    method TimeOut(m: string, success: Channel)
      modifies this
      ensures marked == if success.closed then old(marked) else old(marked) + {m}
    {
      if !success.closed {
        marked := marked + {m};
      }
    }

    /** GetStats with no other scrape about: one entry per mount that is not
        excluded, and every mark it finds is the mark it leaves behind, also
        when a call outlives its timeout. */
    method GetStats(mounts: seq<Mount>, answers: seq<Answer>) returns (stats: seq<Stat>)
      requires |answers| == |mounts|
      modifies this
      ensures marked == old(marked)
      ensures stats == LoneStats(mounts, answers, old(marked))
    {
      stats := [];
      for i := 0 to |mounts|
        invariant marked == old(marked)
        invariant stats == LoneStats(mounts[..i], answers[..i], old(marked))
      {
        var labels := mounts[i].labels;
        assert mounts[..i + 1][..i] == mounts[..i] && answers[..i + 1][..i] == answers[..i];
        if mounts[i].excluded {
          continue;
        }
        var found := IsMarked(labels.mountPoint);
        if found {
          stats := stats + [Stat(labels, true)];
          continue;
        }
        var success := new Channel();
        if answers[i].late {
          TimeOut(labels.mountPoint, success);
        }
        Recover(labels.mountPoint, success);
        if answers[i].late {
          // A watcher that only now gets the mutex finds the channel closed.
          TimeOut(labels.mountPoint, success);
        }
        stats := stats + [Stat(labels, !answers[i].ok)];
      }
      assert mounts[..|mounts|] == mounts && answers[..|answers|] == answers;
    }
  }

  /** What a scrape on its own reports. */
  function LoneStats(mounts: seq<Mount>, answers: seq<Answer>, marked: set<string>): seq<Stat>
    requires |answers| == |mounts|
  {
    if mounts == [] then []
    else
      var n := |mounts| - 1;
      var l := mounts[n].labels;
      LoneStats(mounts[..n], answers[..n], marked)
      + if mounts[n].excluded then []
        else [Stat(l, l.mountPoint in marked || !answers[n].ok)]
  }

  /** A lone scrape and one of many report the same mounts in the same order. */
  lemma {:induction false} LoneStatsLabels(mounts: seq<Mount>, answers: seq<Answer>, marked: set<string>)
    requires |answers| == |mounts|
    ensures LabelsOf(LoneStats(mounts, answers, marked)) == Reported(mounts)
    decreases |mounts|
  {
    if mounts != [] {
      var n := |mounts| - 1;
      LoneStatsLabels(mounts[..n], answers[..n], marked);
    }
  }

  /** An entry of a lone scrape is a device error exactly if its mount point was
      marked at the start or its call did not succeed. */
  lemma {:induction false} LoneStatsTell(mounts: seq<Mount>, answers: seq<Answer>, marked: set<string>, p: nat)
    requires |answers| == |mounts| && p < |mounts| && !mounts[p].excluded
    ensures var stats, e := LoneStats(mounts, answers, marked), |Reported(mounts[..p])|;
      && |stats| == |Reported(mounts)| && e < |stats| && stats[e].labels == mounts[p].labels
      && (stats[e].deviceError <==> mounts[p].labels.mountPoint in marked || !answers[p].ok)
    decreases |mounts|
  {
    var n := |mounts| - 1;
    LoneStatsLabels(mounts, answers, marked);
    LoneStatsLabels(mounts[..n], answers[..n], marked);
    assert |LabelsOf(LoneStats(mounts, answers, marked))| == |LoneStats(mounts, answers, marked)|;
    assert |LabelsOf(LoneStats(mounts[..n], answers[..n], marked))| == |LoneStats(mounts[..n], answers[..n], marked)|;
    if p < n {
      LoneStatsTell(mounts[..n], answers[..n], marked, p);
      assert mounts[..n][..p] == mounts[..p];
    }
  }
}
