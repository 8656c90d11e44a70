/** The collector registry: `NewNodeCollector` selects the enabled collectors
    and builds each one at most once, sharing the instances between calls. */
module Registry {
  import opened Wrappers

  /** A collector instance; the serial number tells instances apart. */
  datatype Collector = Collector(name: string, serial: nat)

  datatype Error = Missing(name: string) | Disabled(name: string) | FactoryFailed(name: string)

  type Collectors = map<string, Collector>

  /** The table of initiated collectors and the log of factory successes. */
  datatype Table = Table(initiated: Collectors, builds: seq<string>)

  const EMPTY := Table(map[], [])

  /** The first filter, in order, that is not an enabled collector. */
  function FilterError(state: map<string, bool>, filters: seq<string>): Option<Error> {
    if filters == [] then None
    else if filters[0] !in state then Some(Missing(filters[0]))
    else if !state[filters[0]] then Some(Disabled(filters[0]))
    else FilterError(state, filters[1..])
  }

  lemma {:induction false} FilterErrorNone(state: map<string, bool>, filters: seq<string>)
    ensures FilterError(state, filters).None? <==> forall f :: f in filters ==> f in state && state[f]
  {
    if filters != [] {
      FilterErrorNone(state, filters[1..]);
      assert filters == [filters[0]] + filters[1..];
    }
  }

  /** Filter k is the first that is not an enabled collector, and e says why. */
  ghost predicate FirstBad(state: map<string, bool>, filters: seq<string>, k: nat, e: Error) {
    && k < |filters| && (forall j :: 0 <= j < k ==> filters[j] in state && state[filters[j]])
    && if filters[k] in state then !state[filters[k]] && e == Disabled(filters[k]) else e == Missing(filters[k])
  }

  /** The error is that of the first bad filter: missing when it is unknown,
      disabled when it is known. */
  lemma {:induction false} FilterErrorIsFirst(state: map<string, bool>, filters: seq<string>)
    ensures FilterError(state, filters).Some? ==> exists k: nat :: FirstBad(state, filters, k, FilterError(state, filters).value)
    decreases |filters|
  {
    if filters != [] {
      var rest := filters[1..];
      FilterErrorIsFirst(state, rest);
      if filters[0] !in state || !state[filters[0]] {
        assert FirstBad(state, filters, 0, FilterError(state, filters).value);
      } else if FilterError(state, rest).Some? {
        var k: nat :| FirstBad(state, rest, k, FilterError(state, rest).value);
        assert forall j :: 1 <= j <= k + 1 ==> filters[j] == rest[j - 1];
        assert FirstBad(state, filters, k + 1, FilterError(state, filters).value);
      }
    }
  }

  function Selected(state: map<string, bool>, filters: seq<string>): set<string> {
    set k | k in state && state[k] && (filters == [] || k in filters)
  }

  ghost predicate Extends(a: Collectors, b: Collectors) {
    forall k :: k in a ==> k in b && b[k] == a[k]
  }

  /** Every entry is the product of exactly one factory success. */
  ghost predicate Consistent(t: Table) {
    && (forall i, j :: 0 <= i < j < |t.builds| ==> t.builds[i] != t.builds[j])
    && (forall i :: 0 <= i < |t.builds| ==> t.builds[i] in t.initiated)
    && (forall k :: k in t.initiated ==>
          var c := t.initiated[k]; c.name == k && c.serial < |t.builds| && t.builds[c.serial] == k)
  }

  /** One call of NewNodeCollector: the flags, the filters and the factories
      that would fail, the table before and after, and what was returned. */
  datatype Call = Call(state: map<string, bool>, filters: seq<string>, fails: set<string>,
                       before: Table, after: Table, result: Result<Collectors, Error>)
  {
    /** What a call promises, whatever order the flag table was ranged over. */
    ghost predicate Correct() {
      match FilterError(state, filters)
      case Some(e) => after == before && result == Err(e)
      case None =>
        var wanted := Selected(state, filters);
        && Extends(before.initiated, after.initiated)
        && before.builds <= after.builds
        && (forall k :: k in after.initiated && k !in before.initiated ==> k in wanted && k !in fails)
        && (result.Ok? <==> forall k :: k in wanted && k in fails ==> k in before.initiated)
        && match result
           case Ok(collectors) =>
             && collectors.Keys == wanted
             && forall k :: k in wanted ==> k in after.initiated && collectors[k] == after.initiated[k]
           case Err(e) => e.FactoryFailed? && e.name in wanted && e.name in fails && e.name !in after.initiated
    }
  }

  class NodeRegistry {
    var collectorState: map<string, bool>
    var initiated: Collectors
    var builds: seq<string>

    constructor (state: map<string, bool>)
      ensures collectorState == state && Snapshot() == EMPTY
    {
      collectorState := state;
      initiated := map[];
      builds := [];
    }

    function Snapshot(): Table
      reads this
    {
      Table(initiated, builds)
    }

    /** A factory call: it succeeds with a new instance or it fails. */
    method Build(key: string, fails: set<string>) returns (r: Result<Collector, Error>)
      modifies this`builds
      ensures key in fails ==> r == Err(FactoryFailed(key)) && builds == old(builds)
      ensures key !in fails ==> r == Ok(Collector(key, |old(builds)|)) && builds == old(builds) + [key]
    {
      if key in fails {
        return Err(FactoryFailed(key));
      }
      r := Ok(Collector(key, |builds|));
      builds := builds + [key];
    }

    /** The memo: the instance in the table, or a new one that goes into it. */
    method Fetch(key: string, fails: set<string>) returns (r: Result<Collector, Error>)
      requires Consistent(Snapshot())
      modifies this`initiated, this`builds
      ensures Consistent(Snapshot()) && old(builds) <= builds
      ensures r.Err? <==> key !in old(initiated) && key in fails
      ensures r.Err? ==> r.error == FactoryFailed(key) && initiated == old(initiated)
      ensures r.Ok? ==> key in initiated && r.value == initiated[key]
      ensures r.Ok? && key in old(initiated) ==> initiated == old(initiated)
      ensures r.Ok? && key !in old(initiated) ==> initiated == old(initiated)[key := r.value]
    {
      if key in initiated {
        return Ok(initiated[key]);
      }
      r := Build(key, fails);
      if r.Ok? {
        initiated := initiated[key := r.value];
      }
    }

    /** The filters as a set, unless one of them is no enabled collector. */
    method CheckFilters(filters: seq<string>) returns (f: set<string>, bad: Option<Error>)
      ensures bad == FilterError(collectorState, filters)
      ensures bad.None? ==> forall k :: k in f <==> k in filters
      ensures bad.None? ==> (f == {} <==> filters == [])
    {
      f := {};
      for n := 0 to |filters|
        invariant FilterError(collectorState, filters) == FilterError(collectorState, filters[n..])
        invariant forall k :: k in f <==> k in filters[..n]
      {
        if filters[n] !in collectorState {
          return f, Some(Missing(filters[n]));
        }
        if !collectorState[filters[n]] {
          return f, Some(Disabled(filters[n]));
        }
        f := f + {filters[n]};
        assert filters[..n + 1] == filters[..n] + [filters[n]];
      }
      assert filters[..|filters|] == filters;
      assert f == {} <==> filters == [] by {
        if filters != [] {
          assert filters[0] in f;
        }
      }
      bad := None;
    }

    /** The range over the flag table: it stops at the first factory that fails. */
    method Gather(f: set<string>, fails: set<string>, ghost wanted: set<string>) returns (r: Result<Collectors, Error>)
      requires Consistent(Snapshot())
      requires forall k :: k in wanted <==> k in collectorState && collectorState[k] && (f == {} || k in f)
      modifies this`initiated, this`builds
      ensures Consistent(Snapshot()) && old(builds) <= builds && Extends(old(initiated), initiated)
      ensures forall k :: k in initiated && k !in old(initiated) ==> k in wanted && k !in fails
      ensures r.Ok? ==> r.value.Keys == wanted && forall k :: k in wanted ==> k in initiated && r.value[k] == initiated[k]
      ensures r.Err? ==> r.error.FactoryFailed? && r.error.name in wanted && r.error.name in fails && r.error.name !in initiated
    {
      var collectors: Collectors := map[];
      var todo := collectorState.Keys;
      while todo != {}
        invariant todo <= collectorState.Keys
        invariant Consistent(Snapshot()) && old(builds) <= builds && Extends(old(initiated), initiated)
        invariant forall k :: k in initiated && k !in old(initiated) ==> k in wanted && k !in fails
        invariant forall k :: k in collectors <==> k in wanted && k !in todo
        invariant forall k :: k in collectors ==> k in initiated && collectors[k] == initiated[k]
        decreases |todo|
      {
        var key := Pick(todo);
        todo := todo - {key};
        if !collectorState[key] || (f != {} && key !in f) {
          continue;
        }
        var got := Fetch(key, fails);
        if got.Err? {
          return Err(got.error);
        }
        collectors := collectors[key := got.value];
      }
      assert collectors.Keys == wanted;
      r := Ok(collectors);
    }

    method NewNodeCollector(filters: seq<string>, fails: set<string>) returns (r: Result<Collectors, Error>)
      requires Consistent(Snapshot())
      modifies this`initiated, this`builds
      ensures Consistent(Snapshot())
      ensures Call(collectorState, filters, fails, old(Snapshot()), Snapshot(), r).Correct()
    {
      var f, bad := CheckFilters(filters);
      if bad.Some? {
        return Err(bad.value);
      }
      FilterErrorNone(collectorState, filters);
      r := Gather(f, fails, Selected(collectorState, filters));
    }
  }

  // ----- any number of calls, failing ones included

  ghost predicate ValidTrace(calls: seq<Call>) {
    && (forall k :: 0 <= k < |calls| ==> calls[k].Correct() && Consistent(calls[k].after))
    && (forall k :: 0 <= k < |calls| ==> calls[k].before == if k == 0 then EMPTY else calls[k - 1].after)
  }

  /** The table only grows and no entry is ever replaced. */
  lemma {:induction false} TableOnlyGrows(calls: seq<Call>, j: nat, k: nat)
    requires ValidTrace(calls) && j <= k < |calls|
    ensures Extends(calls[j].after.initiated, calls[k].after.initiated)
    ensures calls[j].after.builds <= calls[k].after.builds
    decreases k
  {
    if j < k {
      TableOnlyGrows(calls, j, k - 1);
      assert calls[k].Correct() && calls[k].before == calls[k - 1].after;
    }
  }

  /** Whoever asks for a collector, and however many calls failed in between,
      gets the one instance of it; different names get different instances. */
  lemma InstancesAreShared(calls: seq<Call>, j: nat, k: nat, a: string, b: string)
    requires ValidTrace(calls) && j <= k < |calls|
    requires calls[j].result.Ok? && a in calls[j].result.value
    requires calls[k].result.Ok? && b in calls[k].result.value
    ensures calls[j].result.value[a] == calls[k].result.value[b] <==> a == b
  {
    TableOnlyGrows(calls, j, k);
    assert calls[j].Correct() && calls[k].Correct() && Consistent(calls[k].after);
    assert a in calls[j].after.initiated;
  }

  /** Over a whole trace every factory succeeds at most once, and exactly for
      the names in the table. */
  lemma FactoriesSucceedAtMostOnce(calls: seq<Call>, k: nat)
    requires ValidTrace(calls) && k < |calls|
    ensures var t := calls[k].after;
      && |t.builds| == |t.initiated|
      && (forall name :: name in t.initiated <==> name in t.builds)
      && multiset(t.builds) == multiset(t.initiated.Keys)
  {
    var t := calls[k].after;
    assert Consistent(t);
    assert forall name :: name in t.builds ==> exists i :: 0 <= i < |t.builds| && t.builds[i] == name;
    assert t.initiated.Keys == set name | name in t.builds;
    DistinctIsSet(t.builds);
  }

  lemma {:induction false} DistinctIsSet(s: seq<string>)
    requires forall i, j :: 0 <= i < j < |s| ==> s[i] != s[j]
    ensures multiset(s) == multiset(set x | x in s)
    ensures |s| == |set x | x in s|
    decreases |s|
  {
    if s != [] {
      var n := |s| - 1;
      DistinctIsSet(s[..n]);
      assert s == s[..n] + [s[n]];
      assert (set x | x in s) == (set x | x in s[..n]) + {s[n]};
    }
  }

  /** A call returns exactly the enabled collectors, cut down to the filters
      when there are any; it succeeds exactly when all filters name enabled
      collectors and no factory still to be called for them fails. */
  lemma SuccessReturnsTheSelection(c: Call)
    requires c.Correct()
    ensures c.result.Ok? <==>
      && (forall f :: f in c.filters ==> f in c.state && c.state[f])
      && (forall k :: k in Selected(c.state, c.filters) && k in c.fails ==> k in c.before.initiated)
    ensures c.result.Ok? && c.filters != [] ==> c.result.value.Keys == set f | f in c.filters
    ensures c.result.Ok? && c.filters == [] ==> c.result.value.Keys == set k | k in c.state && c.state[k]
  {
    FilterErrorNone(c.state, c.filters);
    if c.result.Ok? && c.filters != [] {
      assert forall f :: f in c.filters ==> f in Selected(c.state, c.filters);
    }
  }

  /** A failed call keeps what it built before failing: once every factory
      works, a repetition of it succeeds and reuses those instances. */
  lemma RetrySucceeds(first: Call, retry: Call)
    requires first.Correct() && retry.Correct()
    requires first.result.Err? && first.result.error.FactoryFailed?
    requires retry.state == first.state && retry.filters == first.filters
    requires retry.before == first.after && retry.fails == {}
    ensures retry.result.Ok? && retry.result.value.Keys == Selected(first.state, first.filters)
    ensures forall k :: k in first.after.initiated && k in retry.result.value ==>
      retry.result.value[k] == first.after.initiated[k]
  {
    if FilterError(first.state, first.filters).Some? {
      FilterErrorIsNotFactory(first.state, first.filters);
      assert false;
    }
  }

  lemma {:induction false} FilterErrorIsNotFactory(state: map<string, bool>, filters: seq<string>)
    ensures FilterError(state, filters).Some? ==> !FilterError(state, filters).value.FactoryFailed?
    decreases |filters|
  {
    if filters != [] {
      FilterErrorIsNotFactory(state, filters[1..]);
    }
  }
}
