/** The per-CPU counter cache of the cpu collector.

    Every scrape merges a fresh /proc/stat snapshot into a cache that outlives
    it: small backward jumps are absorbed, a large backward jump of the idle
    counter resets the CPU, and CPUs that went offline are dropped.  Counters
    are real numbers. */
module CpuCache {
  import opened Wrappers

  datatype CPUStat = CPUStat(
    user: real, nice: real, system: real, idle: real, iowait: real,
    irq: real, softIRQ: real, steal: real, guest: real, guestNice: real)

  datatype Counter = User | Nice | System | Idle | Iowait | IRQ | SoftIRQ | Steal | Guest | GuestNice

  type Snapshot = map<int, CPUStat>

  const ZERO := CPUStat(0.0, 0.0, 0.0, 0.0, 0.0, 0.0, 0.0, 0.0, 0.0, 0.0)

  const JUMP_BACK_SECONDS := 3.0

  function Get(s: CPUStat, c: Counter): real {
    match c
    case User => s.user
    case Nice => s.nice
    case System => s.system
    case Idle => s.idle
    case Iowait => s.iowait
    case IRQ => s.irq
    case SoftIRQ => s.softIRQ
    case Steal => s.steal
    case Guest => s.guest
    case GuestNice => s.guestNice
  }

  function Max(x: real, y: real): real { if y >= x then y else x }

  /** The idle counter fell so far that the cached values are given up. */
  predicate Resets(cached: CPUStat, n: CPUStat) {
    cached.idle - n.idle >= JUMP_BACK_SECONDS
  }

  function MergeStat(cached: CPUStat, n: CPUStat): CPUStat {
    var b := if Resets(cached, n) then ZERO else cached;
    CPUStat(Max(b.user, n.user), Max(b.nice, n.nice), Max(b.system, n.system), Max(b.idle, n.idle),
            Max(b.iowait, n.iowait), Max(b.irq, n.irq), Max(b.softIRQ, n.softIRQ), Max(b.steal, n.steal),
            Max(b.guest, n.guest), Max(b.guestNice, n.guestNice))
  }

  /** A missing map entry reads as the zero value. */
  function Lookup(cache: Snapshot, i: int): CPUStat {
    if i in cache then cache[i] else ZERO
  }

  function Merge(cache: Snapshot, snapshot: Snapshot): Snapshot {
    map i | i in snapshot :: MergeStat(Lookup(cache, i), snapshot[i])
  }

  datatype Sample = Sample(cpu: int, counter: Counter, value: real)

  /** The counters emitted per CPU, in order. */
  function Emitted(guest: bool): seq<Counter> {
    [User, Nice, System, Idle, Iowait, IRQ, SoftIRQ, Steal] + if guest then [Guest, GuestNice] else []
  }

  class CpuCollector {
    var cpuStats: Snapshot

    constructor ()
      ensures cpuStats == map[]
    {
      cpuStats := map[];
    }

    /** One counter: a reading that fell is ignored. */
    static method KeepLarger(cached: real, reading: real) returns (kept: real)
      ensures kept == Max(cached, reading)
    {
      kept := cached;
      if reading >= cached {
        kept := reading;
      }
    }

    /** The body of the merge loop: one reading against one cached value. */
    static method Absorb(cached: CPUStat, n: CPUStat) returns (s: CPUStat)
      ensures s == MergeStat(cached, n)
    {
      var b := cached;
      if b.idle - n.idle >= JUMP_BACK_SECONDS {
        b := ZERO;
      }
      var idle := KeepLarger(b.idle, n.idle);
      var user := KeepLarger(b.user, n.user);
      var nice := KeepLarger(b.nice, n.nice);
      var system := KeepLarger(b.system, n.system);
      var iowait := KeepLarger(b.iowait, n.iowait);
      var irq := KeepLarger(b.irq, n.irq);
      var softIRQ := KeepLarger(b.softIRQ, n.softIRQ);
      var steal := KeepLarger(b.steal, n.steal);
      var guest := KeepLarger(b.guest, n.guest);
      var guestNice := KeepLarger(b.guestNice, n.guestNice);
      s := CPUStat(user, nice, system, idle, iowait, irq, softIRQ, steal, guest, guestNice);
    }

    /** The merge loop, over the CPUs in any order. */
    method MergeReadings(newStats: Snapshot)
      modifies this
      ensures MergedBut(old(cpuStats), newStats, {}, cpuStats)
    {
      ghost var base := cpuStats;
      var todo := newStats.Keys;
      while todo != {}
        invariant todo <= newStats.Keys
        invariant MergedBut(base, newStats, todo, cpuStats)
        decreases |todo|
      {
        var i := Pick(todo);
        var s := Absorb(Lookup(cpuStats, i), newStats[i]);
        MergeOneKeeps(base, newStats, todo, cpuStats, i);
        todo := todo - {i};
        cpuStats := cpuStats[i := s];
      }
    }

    /** Drops the offline CPUs, looking for them only when the two sizes differ. */
    method DropOffline(newStats: Snapshot)
      requires newStats.Keys <= cpuStats.Keys
      modifies this
      ensures cpuStats.Keys == newStats.Keys
      ensures forall i :: i in newStats ==> cpuStats[i] == old(cpuStats)[i]
    {
      if |newStats| != |cpuStats| {
        var keys := cpuStats.Keys;
        while keys != {}
          invariant forall i :: i in keys ==> i in cpuStats
          invariant forall i :: i in newStats ==> i in cpuStats && cpuStats[i] == old(cpuStats)[i]
          invariant forall i :: i in cpuStats ==> i in newStats || i in keys
          decreases |keys|
        {
          var i := Pick(keys);
          keys := keys - {i};
          cpuStats := DropOne(cpuStats, newStats, i);
        }
        assert forall i :: i in cpuStats.Keys <==> i in newStats.Keys;
      } else {
        SubsetSize(newStats.Keys, cpuStats.Keys);
      }
    }

    method UpdateCPUStats(newStats: Snapshot)
      modifies this
      ensures cpuStats == Merge(old(cpuStats), newStats)
    {
      MergeReadings(newStats);
      assert forall i :: i in newStats.Keys ==> i in cpuStats.Keys;
      DropOffline(newStats);
    }

    /** Emits every counter of every cached CPU, once each. */
    method Emit(guest: bool) returns (out: seq<Sample>)
      ensures Shows(out, cpuStats, cpuStats.Keys, guest)
      ensures ShowsEveryCounter(out, cpuStats, guest)
    {
      out := [];
      var todo := cpuStats.Keys;
      while todo != {}
        invariant todo <= cpuStats.Keys
        invariant Shows(out, cpuStats, cpuStats.Keys - todo, guest)
        decreases |todo|
      {
        var i := Pick(todo);
        ShowsOneMore(out, cpuStats, cpuStats.Keys - todo, guest, i);
        assert cpuStats.Keys - (todo - {i}) == cpuStats.Keys - todo + {i};
        todo := todo - {i};
        out := out + Row(i, cpuStats[i], guest);
      }
      assert cpuStats.Keys - todo == cpuStats.Keys;
      ShowsAllCounters(out, cpuStats, guest);
    }
  }

  // ----- the three loops, one CPU at a time

  /** One turn of the merge loop. */
  function MergeOne(cache: Snapshot, s: Snapshot, i: int): Snapshot
    requires i in s
  {
    cache[i := MergeStat(Lookup(cache, i), s[i])]
  }

  /** One turn of the pruning. */
  function DropOne(cache: Snapshot, s: Snapshot, i: int): Snapshot {
    if i in s then cache else cache - {i}
  }

  /** One turn of the emission. */
  function Row(i: int, stat: CPUStat, guest: bool): seq<Sample> {
    var counters := Emitted(guest);
    seq(|counters|, k requires 0 <= k < |counters| => Sample(i, counters[k], Get(stat, counters[k])))
  }

  /** The merge of s into base is done, but for the CPUs in todo. */
  ghost predicate MergedBut(base: Snapshot, s: Snapshot, todo: set<int>, cache: Snapshot) {
    && (forall i :: i in s && i !in todo ==> i in cache && cache[i] == MergeStat(Lookup(base, i), s[i]))
    && (forall i :: i in todo || i !in s ==> (i in cache <==> i in base) && Lookup(cache, i) == Lookup(base, i))
  }

  lemma MergeOneKeeps(base: Snapshot, s: Snapshot, todo: set<int>, cache: Snapshot, i: int)
    requires MergedBut(base, s, todo, cache) && i in todo && i in s
    ensures MergedBut(base, s, todo - {i}, MergeOne(cache, s, i))
  {
  }

  /** The merge of s into base is done, and so is the pruning, but for the CPUs in todo. */
  ghost predicate PrunedBut(base: Snapshot, s: Snapshot, todo: set<int>, cache: Snapshot) {
    && s.Keys <= cache.Keys <= s.Keys + todo
    && (forall i :: i in s ==> cache[i] == MergeStat(Lookup(base, i), s[i]))
  }

  lemma DropOneKeeps(base: Snapshot, s: Snapshot, todo: set<int>, cache: Snapshot, i: int)
    requires PrunedBut(base, s, todo, cache) && todo <= cache.Keys && i in todo
    ensures PrunedBut(base, s, todo - {i}, DropOne(cache, s, i)) && todo - {i} <= DropOne(cache, s, i).Keys
  {
  }

  /** After the merge loop a comparison of the sizes tells whether to prune. */
  lemma SameSizeIsMerged(base: Snapshot, s: Snapshot, cache: Snapshot)
    requires MergedBut(base, s, {}, cache)
    ensures PrunedBut(base, s, cache.Keys, cache)
    ensures |s| == |cache| <==> cache == Merge(base, s)
  {
    var merged := Merge(base, s);
    assert forall i :: i in s.Keys ==> i in cache.Keys && cache[i] == merged[i];
    SubsetSize(s.Keys, cache.Keys);
    assert merged.Keys == s.Keys;
  }

  /** The samples are those of the given CPUs of the cache: all counters, once each. */
  ghost predicate Shows(out: seq<Sample>, cache: Snapshot, cpus: set<int>, guest: bool) {
    && cpus <= cache.Keys
    && (forall k :: 0 <= k < |out| ==>
          out[k].cpu in cpus && out[k].counter in Emitted(guest) && out[k].value == Get(cache[out[k].cpu], out[k].counter))
    && (forall i, c :: i in cpus && c in Emitted(guest) ==> Sample(i, c, Get(cache[i], c)) in out)
    && |out| == |cpus| * |Emitted(guest)|
  }

  lemma ShowsOneMore(out: seq<Sample>, cache: Snapshot, cpus: set<int>, guest: bool, i: int)
    requires Shows(out, cache, cpus, guest) && i in cache && i !in cpus
    ensures Shows(out + Row(i, cache[i], guest), cache, cpus + {i}, guest)
  {
    var counters, row := Emitted(guest), Row(i, cache[i], guest);
    forall c | c in counters
      ensures Sample(i, c, Get(cache[i], c)) in row
    {
      var k :| 0 <= k < |counters| && counters[k] == c;
      assert row[k] in row;
    }
    assert |cpus + {i}| == |cpus| + 1;
    assert (|cpus| + 1) * |counters| == |cpus| * |counters| + |counters|;
  }

  /** The samples of one CPU, counter by counter: eight, and two more exactly when
      the guest counters are asked for. */
  ghost predicate ShowsCPU(out: seq<Sample>, i: int, stat: CPUStat, guest: bool) {
    && Sample(i, User, stat.user) in out && Sample(i, Nice, stat.nice) in out
    && Sample(i, System, stat.system) in out && Sample(i, Idle, stat.idle) in out
    && Sample(i, Iowait, stat.iowait) in out && Sample(i, IRQ, stat.irq) in out
    && Sample(i, SoftIRQ, stat.softIRQ) in out && Sample(i, Steal, stat.steal) in out
    && (Sample(i, Guest, stat.guest) in out <==> guest)
    && (Sample(i, GuestNice, stat.guestNice) in out <==> guest)
  }

  ghost predicate ShowsEveryCounter(out: seq<Sample>, cache: Snapshot, guest: bool) {
    && |out| == (if guest then 10 else 8) * |cache|
    && forall i :: i in cache ==> ShowsCPU(out, i, cache[i], guest)
  }

  lemma EmittedHolds(guest: bool)
    ensures var e := Emitted(guest);
      && User in e && Nice in e && System in e && Idle in e && Iowait in e && IRQ in e && SoftIRQ in e && Steal in e
      && (Guest in e <==> guest) && (GuestNice in e <==> guest)
      && |e| == if guest then 10 else 8
  {
    var e := Emitted(guest);
    assert e[0] == User && e[1] == Nice && e[2] == System && e[3] == Idle;
    assert e[4] == Iowait && e[5] == IRQ && e[6] == SoftIRQ && e[7] == Steal;
    assert guest ==> e[8] == Guest && e[9] == GuestNice;
  }

  lemma ShownIff(out: seq<Sample>, cache: Snapshot, guest: bool, i: int, c: Counter)
    requires Shows(out, cache, cache.Keys, guest) && i in cache
    ensures c in Emitted(guest) <==> Sample(i, c, Get(cache[i], c)) in out
  {
    if Sample(i, c, Get(cache[i], c)) in out {
      var k :| 0 <= k < |out| && out[k] == Sample(i, c, Get(cache[i], c));
    }
  }

  lemma ShowsOneCPU(out: seq<Sample>, cache: Snapshot, guest: bool, i: int)
    requires Shows(out, cache, cache.Keys, guest) && i in cache
    ensures ShowsCPU(out, i, cache[i], guest)
  {
    EmittedHolds(guest);
    ShownIff(out, cache, guest, i, User);
    ShownIff(out, cache, guest, i, Nice);
    ShownIff(out, cache, guest, i, System);
    ShownIff(out, cache, guest, i, Idle);
    ShownIff(out, cache, guest, i, Iowait);
    ShownIff(out, cache, guest, i, IRQ);
    ShownIff(out, cache, guest, i, SoftIRQ);
    ShownIff(out, cache, guest, i, Steal);
    ShownIff(out, cache, guest, i, Guest);
    ShownIff(out, cache, guest, i, GuestNice);
  }

  lemma ShowsAllCounters(out: seq<Sample>, cache: Snapshot, guest: bool)
    requires Shows(out, cache, cache.Keys, guest)
    ensures ShowsEveryCounter(out, cache, guest)
  {
    EmittedHolds(guest);
    forall i | i in cache
      ensures ShowsCPU(out, i, cache[i], guest)
    {
      ShowsOneCPU(out, cache, guest, i);
    }
  }

  // ----- the cache as a function of its history

  /** The cache after a sequence of snapshots. */
  function Cache(h: seq<Snapshot>): Snapshot {
    if h == [] then map[] else Merge(Cache(h[..|h| - 1]), h[|h| - 1])
  }

  /** The snapshot at which CPU i was last reset: it appeared (again), or its
      idle counter fell by the limit or more below everything seen since the
      reset before. */
  ghost function EpochStart(h: seq<Snapshot>, i: int): (e: nat)
    requires h != [] && i in h[|h| - 1]
    ensures e < |h| && forall k :: e <= k < |h| ==> i in h[k]
    decreases |h|, 0
  {
    var n := |h| - 1;
    if n == 0 || i !in h[n - 1] then n
    else
      var e := EpochStart(h[..n], i);
      assert forall k :: e <= k < n ==> h[..n][k] == h[k];
      if RunningMax(h[..n], e, i, Idle) - h[n][i].idle >= JUMP_BACK_SECONDS then n else e
  }

  /** The largest reading of a counter from snapshot `from` on, and at least 0. */
  ghost function RunningMax(h: seq<Snapshot>, from: nat, i: int, c: Counter): real
    requires from <= |h| && forall k :: from <= k < |h| ==> i in h[k]
    decreases |h|
  {
    if from == |h| then 0.0
    else Max(RunningMax(h[..|h| - 1], from, i, c), Get(h[|h| - 1][i], c))
  }

  /** After any sequence of snapshots the cache holds exactly the CPUs of the
      last one, and each of the ten counters of each CPU is the running maximum
      since that CPU's last reset. */
  lemma {:induction false} CacheIsRunningMax(h: seq<Snapshot>)
    requires h != []
    ensures Cache(h).Keys == h[|h| - 1].Keys
    ensures forall i, c :: i in Cache(h) ==> Get(Cache(h)[i], c) == RunningMax(h, EpochStart(h, i), i, c)
    decreases |h|
  {
    var n := |h| - 1;
    var before := h[..n];
    if n > 0 {
      CacheIsRunningMax(before);
    }
    forall i, c | i in Cache(h)
      ensures Get(Cache(h)[i], c) == RunningMax(h, EpochStart(h, i), i, c)
    {
      var cached := Lookup(Cache(before), i);
      assert Cache(h)[i] == MergeStat(cached, h[n][i]);
      if n == 0 || i !in h[n - 1] {
        assert cached == ZERO;
        assert h[..n][..n] == before;
        assert RunningMax(h, n, i, c) == Max(0.0, Get(h[n][i], c));
      } else {
        assert Get(cached, Idle) == RunningMax(before, EpochStart(before, i), i, Idle);
        assert Get(cached, c) == RunningMax(before, EpochStart(before, i), i, c);
        if EpochStart(h, i) == n {
          assert RunningMax(h, n, i, c) == Max(0.0, Get(h[n][i], c));
        }
      }
    }
  }

  /** The running maximum bounds every reading since the reset and, for
      readings that are not negative, is one of them. */
  lemma {:induction false} RunningMaxIsMaximum(h: seq<Snapshot>, from: nat, i: int, c: Counter)
    requires from < |h| && forall k :: from <= k < |h| ==> i in h[k]
    ensures forall k :: from <= k < |h| ==> Get(h[k][i], c) <= RunningMax(h, from, i, c)
    ensures (forall k :: from <= k < |h| ==> Get(h[k][i], c) >= 0.0) ==>
      exists k :: from <= k < |h| && Get(h[k][i], c) == RunningMax(h, from, i, c)
    decreases |h|
  {
    var n := |h| - 1;
    if from < n {
      RunningMaxIsMaximum(h[..n], from, i, c);
      assert forall k :: from <= k < n ==> h[..n][k] == h[k];
      if (forall k :: from <= k < |h| ==> Get(h[k][i], c) >= 0.0) && RunningMax(h, from, i, c) != Get(h[n][i], c) {
        var k :| from <= k < n && Get(h[..n][k][i], c) == RunningMax(h[..n], from, i, c);
        assert Get(h[k][i], c) == RunningMax(h, from, i, c);
      }
    }
  }

  lemma {:induction false} CacheIsNotNegative(h: seq<Snapshot>)
    ensures forall i, c :: i in Cache(h) ==> Get(Cache(h)[i], c) >= 0.0
  {
    if h != [] {
      CacheIsNotNegative(h[..|h| - 1]);
      forall i, c | i in Cache(h)
        ensures Get(Cache(h)[i], c) >= 0.0
      {
        var cached := Lookup(Cache(h[..|h| - 1]), i);
        assert Get(cached, c) >= 0.0 && Get(ZERO, c) == 0.0;
        MergeBounds(cached, h[|h| - 1][i], c);
      }
    }
  }

  lemma MergeBounds(cached: CPUStat, n: CPUStat, c: Counter)
    ensures Get(MergeStat(cached, n), c) == Max(if Resets(cached, n) then 0.0 else Get(cached, c), Get(n, c))
  {
  }

  /** The cached idle value never lags the reported one, and leads it by less
      than the limit exactly when the report is above minus the limit, which
      every real reading is. */
  lemma IdleLead(h: seq<Snapshot>, i: int)
    requires h != [] && i in h[|h| - 1]
    ensures i in Cache(h)
    ensures var lead := Cache(h)[i].idle - h[|h| - 1][i].idle;
      lead >= 0.0 && (lead < 3.0 <==> h[|h| - 1][i].idle > -3.0)
  {
    CacheIsNotNegative(h[..|h| - 1]);
    var cached := Lookup(Cache(h[..|h| - 1]), i);
    assert Get(cached, Idle) >= 0.0;
  }

  /** For readings that are not negative, a CPU that stays online keeps all its
      counters from falling unless it is reset, and a fall of the idle counter
      is a reset. */
  lemma CountersFallOnlyOnReset(h: seq<Snapshot>, s: Snapshot, i: int)
    requires i in Cache(h) && i in s && s[i].idle >= 0.0
    ensures Cache(h + [s])[i].idle < Cache(h)[i].idle <==> Cache(h)[i].idle - s[i].idle >= 3.0
    ensures Cache(h)[i].idle - s[i].idle < 3.0 ==> forall c :: Get(Cache(h + [s])[i], c) >= Get(Cache(h)[i], c)
  {
    assert (h + [s])[..|h|] == h;
    CacheIsNotNegative(h);
    assert Get(Cache(h)[i], Idle) >= 0.0;
    forall c | !Resets(Cache(h)[i], s[i])
      ensures Get(Cache(h + [s])[i], c) >= Get(Cache(h)[i], c)
    {
      MergeBounds(Cache(h)[i], s[i], c);
    }
  }

  ghost predicate Grows(a: Snapshot, b: Snapshot) {
    forall i, c :: i in a && i in b ==> Get(a[i], c) <= Get(b[i], c)
  }

  /** While the kernel's own counters never fall, the cache is transparent. */
  lemma {:induction false} GrowingReadingsAreCachedAsRead(h: seq<Snapshot>)
    requires h != []
    requires forall k, i, c :: 0 <= k < |h| && i in h[k] ==> Get(h[k][i], c) >= 0.0
    requires forall k :: 0 < k < |h| ==> Grows(h[k - 1], h[k])
    ensures Cache(h) == h[|h| - 1]
    decreases |h|
  {
    var n := |h| - 1;
    if n > 0 {
      GrowingReadingsAreCachedAsRead(h[..n]);
      assert Grows(h[n - 1], h[n]);
    }
    forall i | i in h[n]
      ensures Cache(h)[i] == h[n][i]
    {
      var cached := Lookup(Cache(h[..n]), i);
      forall c
        ensures Get(cached, c) <= Get(h[n][i], c)
      {
        assert Get(ZERO, c) == 0.0;
      }
      SameCounters(MergeStat(cached, h[n][i]), h[n][i], cached);
    }
  }

  lemma SameCounters(m: CPUStat, n: CPUStat, cached: CPUStat)
    requires m == MergeStat(cached, n) && forall c :: Get(cached, c) <= Get(n, c)
    ensures m == n
  {
    assert Get(cached, User) <= n.user && Get(cached, Nice) <= n.nice && Get(cached, System) <= n.system;
    assert Get(cached, Idle) <= n.idle && Get(cached, Iowait) <= n.iowait && Get(cached, IRQ) <= n.irq;
    assert Get(cached, SoftIRQ) <= n.softIRQ && Get(cached, Steal) <= n.steal;
    assert Get(cached, Guest) <= n.guest && Get(cached, GuestNice) <= n.guestNice;
  }

  // ----- concurrent scrapes

  ghost predicate NonNegative(s: Snapshot) {
    forall i, c :: i in s ==> Get(s[i], c) >= 0.0
  }

  /** The two readings of a CPU may be merged in either order: both reset it or
      neither does, and their idle counters are less than the limit apart. */
  predicate Compatible(cached: CPUStat, a: CPUStat, b: CPUStat) {
    && (Resets(cached, a) <==> Resets(cached, b))
    && -JUMP_BACK_SECONDS < a.idle - b.idle < JUMP_BACK_SECONDS
  }

  lemma StatMergesCommuteIff(cached: CPUStat, a: CPUStat, b: CPUStat)
    requires forall c :: Get(cached, c) >= 0.0 && Get(a, c) >= 0.0 && Get(b, c) >= 0.0
    ensures MergeStat(MergeStat(cached, a), b) == MergeStat(MergeStat(cached, b), a) <==> Compatible(cached, a, b)
  {
    var ab, ba := MergeStat(MergeStat(cached, a), b), MergeStat(MergeStat(cached, b), a);
    assert Get(cached, Idle) >= 0.0 && Get(a, Idle) >= 0.0 && Get(b, Idle) >= 0.0;
    if Compatible(cached, a, b) {
      forall c
        ensures Get(ab, c) == Get(ba, c)
      {
        MergeBounds(cached, a, c);
        MergeBounds(MergeStat(cached, a), b, c);
        MergeBounds(cached, b, c);
        MergeBounds(MergeStat(cached, b), a, c);
      }
      SameStat(ab, ba);
    } else {
      assert ab.idle != ba.idle;
    }
  }

  lemma SameStat(x: CPUStat, y: CPUStat)
    requires forall c :: Get(x, c) == Get(y, c)
    ensures x == y
  {
    assert Get(x, User) == x.user == y.user && Get(x, Nice) == x.nice == y.nice && Get(x, System) == x.system == y.system;
    assert Get(x, Idle) == x.idle == y.idle && Get(x, Iowait) == x.iowait == y.iowait && Get(x, IRQ) == x.irq == y.irq;
    assert Get(x, SoftIRQ) == x.softIRQ == y.softIRQ && Get(x, Steal) == x.steal == y.steal;
    assert Get(x, Guest) == x.guest == y.guest && Get(x, GuestNice) == x.guestNice == y.guestNice;
  }

  /** Two snapshots may be merged in either order exactly when they have the same
      CPUs and the two readings of every CPU are compatible. */
  lemma MergesCommuteIff(cache: Snapshot, a: Snapshot, b: Snapshot)
    requires NonNegative(cache) && NonNegative(a) && NonNegative(b)
    ensures Merge(Merge(cache, a), b) == Merge(Merge(cache, b), a)
      <==> a.Keys == b.Keys && forall i :: i in a.Keys && i in b.Keys ==> Compatible(Lookup(cache, i), a[i], b[i])
  {
    var ab, ba := Merge(Merge(cache, a), b), Merge(Merge(cache, b), a);
    assert ab.Keys == b.Keys && ba.Keys == a.Keys;
    forall i | i in a.Keys && i in b.Keys
      ensures ab[i] == ba[i] <==> Compatible(Lookup(cache, i), a[i], b[i])
    {
      assert Lookup(Merge(cache, a), i) == MergeStat(Lookup(cache, i), a[i]);
      assert Lookup(Merge(cache, b), i) == MergeStat(Lookup(cache, i), b[i]);
      assert forall c :: Get(ZERO, c) == 0.0;
      StatMergesCommuteIff(Lookup(cache, i), a[i], b[i]);
    }
  }

  ghost predicate NoReset(cache: Snapshot, s: Snapshot) {
    forall i :: i in s ==> !Resets(Lookup(cache, i), s[i])
  }

  /** In particular they may, whatever the sign of the readings, when neither
      order resets a CPU; with different CPU sets the order always shows. */
  lemma MergesCommute(cache: Snapshot, a: Snapshot, b: Snapshot)
    ensures Merge(Merge(cache, a), b) == Merge(Merge(cache, b), a) ==> a.Keys == b.Keys
    ensures
      && a.Keys == b.Keys
      && NoReset(cache, a) && NoReset(Merge(cache, a), b)
      && NoReset(cache, b) && NoReset(Merge(cache, b), a)
      ==> Merge(Merge(cache, a), b) == Merge(Merge(cache, b), a)
  {
    var ab, ba := Merge(Merge(cache, a), b), Merge(Merge(cache, b), a);
    assert ab.Keys == b.Keys && ba.Keys == a.Keys;
    if  && a.Keys == b.Keys
        && NoReset(cache, a) && NoReset(Merge(cache, a), b)
        && NoReset(cache, b) && NoReset(Merge(cache, b), a)
    {
      forall i | i in a
        ensures ab[i] == ba[i]
      {
        assert i in b;
        assert Lookup(Merge(cache, a), i) == MergeStat(Lookup(cache, i), a[i]);
        assert Lookup(Merge(cache, b), i) == MergeStat(Lookup(cache, i), b[i]);
        StatMergesCommute(Lookup(cache, i), a[i], b[i]);
      }
    }
  }

  lemma StatMergesCommute(cached: CPUStat, a: CPUStat, b: CPUStat)
    requires !Resets(cached, a) && !Resets(MergeStat(cached, a), b)
    requires !Resets(cached, b) && !Resets(MergeStat(cached, b), a)
    ensures MergeStat(MergeStat(cached, a), b) == MergeStat(MergeStat(cached, b), a)
  {
  }

  /** Of two scrapes that read a CPU 3 idle seconds or more apart, the older one
      merged last resets it and takes all its counters back to its own, whatever
      the cache held; merged first it takes nothing away. */
  lemma StaleMergeResets(cache: Snapshot, older: Snapshot, newer: Snapshot, i: int)
    requires NonNegative(cache) && NonNegative(older) && NonNegative(newer)
    requires i in older && i in newer && newer[i].idle - older[i].idle >= 3.0
    ensures Merge(Merge(cache, newer), older)[i] == older[i]
    ensures forall c :: Get(Merge(Merge(cache, older), newer)[i], c) >= Get(newer[i], c)
    ensures Merge(Merge(cache, newer), older) != Merge(Merge(cache, older), newer)
  {
    var cached := Lookup(cache, i);
    var n := MergeStat(cached, newer[i]);
    assert Lookup(Merge(cache, newer), i) == n && Lookup(Merge(cache, older), i) == MergeStat(cached, older[i]);
    MergeBounds(cached, newer[i], Idle);
    assert Resets(n, older[i]);
    forall c
      ensures Get(MergeStat(n, older[i]), c) == Get(older[i], c)
    {
      MergeBounds(n, older[i], c);
    }
    SameStat(MergeStat(n, older[i]), older[i]);
    forall c
      ensures Get(MergeStat(MergeStat(cached, older[i]), newer[i]), c) >= Get(newer[i], c)
    {
      MergeBounds(MergeStat(cached, older[i]), newer[i], c);
    }
    assert Get(newer[i], Idle) > Get(older[i], Idle);
  }

  // ----- any number of scrapes and one mutex

  datatype Pc =
    | MergeWanted                  // snapshot read, mutex wanted
    | Merging(todo: set<int>)      // holds the mutex, in the merge loop
    | Pruning(todo: set<int>)      // holds the mutex, dropping offline CPUs
    | Merged                       // holds the mutex, about to unlock
    | EmitWanted(at: nat)          // mutex released, wanted again
    | Emitting(at: nat, upTo: nat, todo: set<int>, out: seq<Sample>)
    | Shown(at: nat, upTo: nat, out: seq<Sample>)
  {
    predicate Writes() { Merging? || Pruning? || Merged? }

    predicate Critical() { Writes() || Emitting? }
  }

  /** A scrape with the snapshot it read; its merge is number `at`, and its
      emission begins after `upTo` merges. */
  datatype Scrape = Scrape(s: Snapshot, pc: Pc)

  /** The cache, the holder of its mutex, the snapshots merged so far and the scrapes. */
  datatype World = World(guest: bool, cache: Snapshot, holder: Option<nat>, h: seq<Snapshot>, scrapes: seq<Scrape>)

  datatype Step =
    | Arrive(s: Snapshot)
    | LockMerge(j: nat)
    | MergeCPU(j: nat, i: int)
    | EndMerge(j: nat)
    | PruneCPU(j: nat, i: int)
    | EndPrune(j: nat)
    | UnlockMerge(j: nat)
    | LockEmit(j: nat)
    | EmitCPU(j: nat, i: int)
    | UnlockEmit(j: nat)

  function PcOf(y: World, j: nat): Pc {
    if j < |y.scrapes| then y.scrapes[j].pc else Shown(0, 0, [])
  }

  predicate Enabled(y: World, step: Step) {
    match step
    case Arrive(_) => true
    case LockMerge(j) => PcOf(y, j).MergeWanted? && y.holder.None?
    // The loops may take the CPUs in any order.
    case MergeCPU(j, i) => PcOf(y, j).Merging? && i in PcOf(y, j).todo && i in y.scrapes[j].s
    case EndMerge(j) => PcOf(y, j).Merging? && PcOf(y, j).todo == {}
    case PruneCPU(j, i) => PcOf(y, j).Pruning? && i in PcOf(y, j).todo
    case EndPrune(j) => PcOf(y, j).Pruning? && PcOf(y, j).todo == {}
    case UnlockMerge(j) => PcOf(y, j).Merged?
    case LockEmit(j) => PcOf(y, j).EmitWanted? && y.holder.None?
    case EmitCPU(j, i) => PcOf(y, j).Emitting? && i in PcOf(y, j).todo && i in y.cache
    case UnlockEmit(j) => PcOf(y, j).Emitting? && PcOf(y, j).todo == {}
  }

  function SetPc(y: World, j: nat, pc: Pc): World
    requires j < |y.scrapes|
  {
    y.(scrapes := y.scrapes[j := y.scrapes[j].(pc := pc)])
  }

  function Apply(y: World, step: Step): World
    requires Enabled(y, step)
  {
    match step
    case Arrive(s) => y.(scrapes := y.scrapes + [Scrape(s, MergeWanted)])
    case LockMerge(j) => SetPc(y, j, Merging(y.scrapes[j].s.Keys)).(holder := Some(j))
    case MergeCPU(j, i) =>
      SetPc(y, j, Merging(PcOf(y, j).todo - {i})).(cache := MergeOne(y.cache, y.scrapes[j].s, i))
    case EndMerge(j) =>
      SetPc(y, j, if |y.scrapes[j].s| != |y.cache| then Pruning(y.cache.Keys) else Merged)
    case PruneCPU(j, i) =>
      SetPc(y, j, Pruning(PcOf(y, j).todo - {i})).(cache := DropOne(y.cache, y.scrapes[j].s, i))
    case EndPrune(j) => SetPc(y, j, Merged)
    case UnlockMerge(j) => SetPc(y, j, EmitWanted(|y.h|)).(holder := None, h := y.h + [y.scrapes[j].s])
    case LockEmit(j) => SetPc(y, j, Emitting(PcOf(y, j).at, |y.h|, y.cache.Keys, [])).(holder := Some(j))
    case EmitCPU(j, i) =>
      var pc := PcOf(y, j);
      SetPc(y, j, pc.(todo := pc.todo - {i}, out := pc.out + Row(i, y.cache[i], y.guest)))
    case UnlockEmit(j) => SetPc(y, j, Shown(PcOf(y, j).at, PcOf(y, j).upTo, PcOf(y, j).out)).(holder := None)
  }

  predicate ValidRun(guest: bool, steps: seq<Step>)
    decreases |steps|, 0
  {
    steps != [] ==>
      ValidRun(guest, steps[..|steps| - 1]) && Enabled(Exec(guest, steps[..|steps| - 1]), steps[|steps| - 1])
  }

  function Exec(guest: bool, steps: seq<Step>): World
    requires ValidRun(guest, steps)
    decreases |steps|, 1
  {
    if steps == [] then World(guest, map[], None, [], [])
    else Apply(Exec(guest, steps[..|steps| - 1]), steps[|steps| - 1])
  }

  ghost predicate MutexInv(y: World) {
    && (forall j {:trigger y.scrapes[j]} :: 0 <= j < |y.scrapes| ==> (y.scrapes[j].pc.Critical() <==> y.holder == Some(j)))
    && (y.holder.Some? ==> y.holder.value < |y.scrapes|)
  }

  /** Nobody is writing to the cache. */
  predicate Quiet(y: World) {
    y.holder.Some? ==> !PcOf(y, y.holder.value).Writes()
  }

  /** The emission of a cache state reached at or after the scrape's own merge. */
  ghost predicate ShowsOneState(guest: bool, h: seq<Snapshot>, s: Snapshot, at: nat, upTo: nat, out: seq<Sample>) {
    && at < upTo <= |h| && h[at] == s
    && Shows(out, Cache(h[..upTo]), h[upTo - 1].Keys, guest)
    && Cache(h[..upTo]).Keys == h[upTo - 1].Keys
  }

  ghost predicate ScrapeInv(y: World, sc: Scrape) {
    match sc.pc
    case MergeWanted => true
    case Merging(todo) => todo <= sc.s.Keys && MergedBut(Cache(y.h), sc.s, todo, y.cache)
    case Pruning(todo) => todo <= y.cache.Keys && PrunedBut(Cache(y.h), sc.s, todo, y.cache)
    case Merged => y.cache == Merge(Cache(y.h), sc.s)
    case EmitWanted(at) => at < |y.h| && y.h[at] == sc.s
    case Emitting(at, upTo, todo, out) =>
      && at < upTo == |y.h| && y.h[at] == sc.s
      && todo <= y.cache.Keys && Shows(out, y.cache, y.cache.Keys - todo, y.guest)
    case Shown(at, upTo, out) => ShowsOneState(y.guest, y.h, sc.s, at, upTo, out)
  }

  ghost predicate WorldInv(y: World) {
    && MutexInv(y)
    && (Quiet(y) ==> y.cache == Cache(y.h))
    && (forall j :: 0 <= j < |y.scrapes| ==> ScrapeInv(y, y.scrapes[j]))
  }

  lemma StepKeepsMutex(y: World, step: Step)
    requires MutexInv(y) && Enabled(y, step)
    ensures MutexInv(Apply(y, step))
  {
  }

  lemma CacheKeys(h: seq<Snapshot>)
    requires h != []
    ensures Cache(h).Keys == h[|h| - 1].Keys
  {
  }

  lemma StepKeepsCache(y: World, step: Step)
    requires WorldInv(y) && Enabled(y, step)
    ensures Quiet(Apply(y, step)) ==> Apply(y, step).cache == Cache(Apply(y, step).h)
  {
    if step.UnlockMerge? {
      UnlockMergeKeepsCache(y, step.j);
    } else if !step.Arrive? {
      assert y.scrapes[step.j].pc.Critical() ==> y.holder == Some(step.j);
    }
  }

  lemma UnlockMergeKeepsCache(y: World, j: nat)
    requires WorldInv(y) && Enabled(y, UnlockMerge(j))
    ensures y.cache == Cache(y.h + [y.scrapes[j].s])
  {
    assert ScrapeInv(y, y.scrapes[j]) && (y.h + [y.scrapes[j].s])[..|y.h|] == y.h;
  }

  /** The scrape that moves, in its merge. */
  lemma MergerKeepsScrape(y: World, step: Step)
    requires WorldInv(y) && Enabled(y, step)
    requires step.LockMerge? || step.MergeCPU? || step.EndMerge? || step.PruneCPU? || step.EndPrune? || step.UnlockMerge?
    ensures step.j < |y.scrapes| && ScrapeInv(Apply(y, step), Apply(y, step).scrapes[step.j])
  {
    assert ScrapeInv(y, y.scrapes[step.j]);
    match step
    case MergeCPU(j, i) => MergeCPUKeepsScrape(y, j, i);
    case EndMerge(j) => EndMergeKeepsScrape(y, j);
    case PruneCPU(j, i) => PruneCPUKeepsScrape(y, j, i);
    case EndPrune(j) => EndPruneKeepsScrape(y, j);
    case _ =>
  }

  lemma MergeCPUKeepsScrape(y: World, j: nat, i: int)
    requires WorldInv(y) && Enabled(y, MergeCPU(j, i))
    ensures ScrapeInv(Apply(y, MergeCPU(j, i)), Apply(y, MergeCPU(j, i)).scrapes[j])
  {
    var sc := y.scrapes[j];
    assert ScrapeInv(y, sc);
    MergeOneKeeps(Cache(y.h), sc.s, sc.pc.todo, y.cache, i);
  }

  lemma EndMergeKeepsScrape(y: World, j: nat)
    requires WorldInv(y) && Enabled(y, EndMerge(j))
    ensures ScrapeInv(Apply(y, EndMerge(j)), Apply(y, EndMerge(j)).scrapes[j])
  {
    assert ScrapeInv(y, y.scrapes[j]) && y.scrapes[j].pc.todo == {};
    SameSizeIsMerged(Cache(y.h), y.scrapes[j].s, y.cache);
  }

  lemma PruneCPUKeepsScrape(y: World, j: nat, i: int)
    requires WorldInv(y) && Enabled(y, PruneCPU(j, i))
    ensures ScrapeInv(Apply(y, PruneCPU(j, i)), Apply(y, PruneCPU(j, i)).scrapes[j])
  {
    var sc := y.scrapes[j];
    assert ScrapeInv(y, sc);
    DropOneKeeps(Cache(y.h), sc.s, sc.pc.todo, y.cache, i);
  }

  lemma EndPruneKeepsScrape(y: World, j: nat)
    requires WorldInv(y) && Enabled(y, EndPrune(j))
    ensures ScrapeInv(Apply(y, EndPrune(j)), Apply(y, EndPrune(j)).scrapes[j])
  {
    assert ScrapeInv(y, y.scrapes[j]);
    assert y.cache.Keys == y.scrapes[j].s.Keys;
  }

  /** The scrape that moves, in its emission. */
  lemma EmitterKeepsScrape(y: World, step: Step)
    requires WorldInv(y) && Enabled(y, step)
    requires step.LockEmit? || step.EmitCPU? || step.UnlockEmit?
    ensures step.j < |y.scrapes| && ScrapeInv(Apply(y, step), Apply(y, step).scrapes[step.j])
  {
    match step
    case LockEmit(j) =>
      assert ScrapeInv(y, y.scrapes[j]) && y.cache.Keys - y.cache.Keys == {};
    case EmitCPU(j, i) => EmitCPUKeepsScrape(y, j, i);
    case UnlockEmit(j) => UnlockEmitKeepsScrape(y, j);
  }

  lemma EmitCPUKeepsScrape(y: World, j: nat, i: int)
    requires WorldInv(y) && Enabled(y, EmitCPU(j, i))
    ensures ScrapeInv(Apply(y, EmitCPU(j, i)), Apply(y, EmitCPU(j, i)).scrapes[j])
  {
    var pc := y.scrapes[j].pc;
    assert ScrapeInv(y, y.scrapes[j]);
    ShowsOneMore(pc.out, y.cache, y.cache.Keys - pc.todo, y.guest, i);
    assert y.cache.Keys - (pc.todo - {i}) == y.cache.Keys - pc.todo + {i};
  }

  lemma UnlockEmitKeepsScrape(y: World, j: nat)
    requires WorldInv(y) && Enabled(y, UnlockEmit(j))
    ensures ScrapeInv(Apply(y, UnlockEmit(j)), Apply(y, UnlockEmit(j)).scrapes[j])
  {
    var pc := y.scrapes[j].pc;
    assert ScrapeInv(y, y.scrapes[j]) && pc.Critical() && Quiet(y);
    assert y.h[..pc.upTo] == y.h && y.cache.Keys - pc.todo == y.cache.Keys;
    CacheKeys(y.h);
  }

  /** The scrapes that do not move. */
  lemma OthersKeepScrape(y: World, step: Step, j: nat)
    requires WorldInv(y) && Enabled(y, step) && j < |y.scrapes| && (step.Arrive? || step.j != j)
    ensures ScrapeInv(Apply(y, step), y.scrapes[j])
  {
    var z, sc := Apply(y, step), y.scrapes[j];
    assert ScrapeInv(y, sc);
    if !step.Arrive? {
      assert y.scrapes[step.j].pc.Critical() ==> !sc.pc.Critical();
    }
    if sc.pc.Shown? {
      assert z.h[..sc.pc.upTo] == y.h[..sc.pc.upTo];
    }
  }

  lemma StepKeepsWorld(y: World, step: Step)
    requires WorldInv(y) && Enabled(y, step)
    ensures WorldInv(Apply(y, step))
  {
    var z := Apply(y, step);
    StepKeepsMutex(y, step);
    StepKeepsCache(y, step);
    forall j | 0 <= j < |z.scrapes|
      ensures ScrapeInv(z, z.scrapes[j])
    {
      if j < |y.scrapes| && (step.Arrive? || step.j != j) {
        OthersKeepScrape(y, step, j);
      } else if !step.Arrive? {
        if step.LockEmit? || step.EmitCPU? || step.UnlockEmit? {
          EmitterKeepsScrape(y, step);
        } else {
          MergerKeepsScrape(y, step);
        }
      }
    }
  }

  lemma {:induction false} RunKeepsWorld(guest: bool, steps: seq<Step>)
    requires ValidRun(guest, steps)
    ensures WorldInv(Exec(guest, steps)) && Exec(guest, steps).guest == guest
    decreases |steps|
  {
    if steps != [] {
      var n := |steps| - 1;
      RunKeepsWorld(guest, steps[..n]);
      StepKeepsWorld(Exec(guest, steps[..n]), steps[n]);
    }
  }

  function ArrivalOf(step: Step): seq<Snapshot> {
    if step.Arrive? then [step.s] else []
  }

  function MergerOf(step: Step): seq<nat> {
    if step.UnlockMerge? then [step.j] else []
  }

  /** The snapshots that the scrapes came with, in the order of their arrival. */
  function Arrived(steps: seq<Step>): seq<Snapshot> {
    if steps == [] then [] else Arrived(steps[..|steps| - 1]) + ArrivalOf(steps[|steps| - 1])
  }

  /** The scrapes that have merged, in the order of their unlocking. */
  function Mergers(steps: seq<Step>): seq<nat> {
    if steps == [] then [] else Mergers(steps[..|steps| - 1]) + MergerOf(steps[|steps| - 1])
  }

  ghost predicate HasArrived(scrapes: seq<Scrape>, arrived: seq<Snapshot>) {
    |scrapes| == |arrived| && forall j :: 0 <= j < |scrapes| ==> scrapes[j].s == arrived[j]
  }

  ghost predicate HasMerged(h: seq<Snapshot>, mergers: seq<nat>, arrived: seq<Snapshot>) {
    |h| == |mergers| && forall k :: 0 <= k < |h| ==> mergers[k] < |arrived| && h[k] == arrived[mergers[k]]
  }

  lemma StepArrives(y: World, step: Step, arrived: seq<Snapshot>)
    requires Enabled(y, step) && HasArrived(y.scrapes, arrived)
    ensures HasArrived(Apply(y, step).scrapes, arrived + ArrivalOf(step))
  {
  }

  lemma StepMerges(y: World, step: Step, arrived: seq<Snapshot>, mergers: seq<nat>)
    requires Enabled(y, step) && HasArrived(y.scrapes, arrived) && HasMerged(y.h, mergers, arrived)
    ensures HasMerged(Apply(y, step).h, mergers + MergerOf(step), arrived + ArrivalOf(step))
  {
  }

  lemma {:induction false} RunArrivesAndMerges(guest: bool, steps: seq<Step>)
    requires ValidRun(guest, steps)
    ensures var y := Exec(guest, steps);
      HasArrived(y.scrapes, Arrived(steps)) && HasMerged(y.h, Mergers(steps), Arrived(steps))
    decreases |steps|
  {
    if steps != [] {
      var before, step := steps[..|steps| - 1], steps[|steps| - 1];
      RunArrivesAndMerges(guest, before);
      StepArrives(Exec(guest, before), step, Arrived(before));
      StepMerges(Exec(guest, before), step, Arrived(before), Mergers(before));
    }
  }

  /** Scrapes and merges are those of the run: every scrape has the snapshot it
      arrived with, and the merges are the snapshots of the scrapes that merged. */
  lemma HistoryTellsTheRun(guest: bool, steps: seq<Step>)
    requires ValidRun(guest, steps)
    ensures var y := Exec(guest, steps);
      && |y.scrapes| == |Arrived(steps)| && (forall j :: 0 <= j < |y.scrapes| ==> y.scrapes[j].s == Arrived(steps)[j])
      && |y.h| == |Mergers(steps)| && (forall k :: 0 <= k < |y.h| ==>
            Mergers(steps)[k] < |y.scrapes| && y.h[k] == Arrived(steps)[Mergers(steps)[k]])
  {
    RunArrivesAndMerges(guest, steps);
  }

  lemma EmissionShowsOneState(guest: bool, steps: seq<Step>, j: nat)
    requires ValidRun(guest, steps) && j < |Exec(guest, steps).scrapes|
    requires Exec(guest, steps).scrapes[j].pc.Shown?
    ensures var y := Exec(guest, steps); var pc := y.scrapes[j].pc;
      ShowsOneState(guest, y.h, y.scrapes[j].s, pc.at, pc.upTo, pc.out)
  {
    RunKeepsWorld(guest, steps);
    var y := Exec(guest, steps);
    assert ScrapeInv(y, y.scrapes[j]);
  }

  /** Under any interleaving of merges, prunings and emissions CPU by CPU, what a
      scrape emits is one single cache state: all counters of all CPUs after some
      prefix of the merges that includes the scrape's own. */
  lemma EmissionIsOneCacheState(guest: bool, steps: seq<Step>, j: nat)
    requires ValidRun(guest, steps) && j < |Exec(guest, steps).scrapes|
    requires Exec(guest, steps).scrapes[j].pc.Shown?
    ensures var y := Exec(guest, steps); var pc := y.scrapes[j].pc;
      && ShowsOneState(guest, y.h, y.scrapes[j].s, pc.at, pc.upTo, pc.out)
      && ShowsEveryCounter(pc.out, Cache(y.h[..pc.upTo]), guest)
  {
    EmissionShowsOneState(guest, steps, j);
    var y := Exec(guest, steps);
    var pc := y.scrapes[j].pc;
    ShowsAllCounters(pc.out, Cache(y.h[..pc.upTo]), guest);
  }

  /** No CPU is ever emitted from a cache that is half merged or not yet pruned. */
  lemma NoEmissionSeesHalfAMerge(guest: bool, steps: seq<Step>, j: nat, i: int)
    requires ValidRun(guest, steps) && Enabled(Exec(guest, steps), EmitCPU(j, i))
    ensures var y := Exec(guest, steps);
      y.h != [] && y.cache == Cache(y.h) && y.cache.Keys == y.h[|y.h| - 1].Keys
  {
    RunKeepsWorld(guest, steps);
    var y := Exec(guest, steps);
    assert ScrapeInv(y, y.scrapes[j]) && y.scrapes[j].pc.Critical();
    CacheKeys(y.h);
  }

  ghost function AnyOf(s: set<int>): (i: int)
    requires s != {}
    ensures i in s
  {
    assert (forall i :: i !in s) ==> s == {};
    var i :| i in s;
    i
  }

  /** While a scrape has not finished, some step other than an arrival is possible. */
  lemma NoDeadlock(guest: bool, steps: seq<Step>, j: nat) returns (step: Step)
    requires ValidRun(guest, steps) && j < |Exec(guest, steps).scrapes|
    requires !Exec(guest, steps).scrapes[j].pc.Shown?
    ensures Enabled(Exec(guest, steps), step) && !step.Arrive?
  {
    RunKeepsWorld(guest, steps);
    var y := Exec(guest, steps);
    var k := if y.holder.Some? then y.holder.value else j;
    var sc := y.scrapes[k];
    assert ScrapeInv(y, sc) && (y.holder.Some? ==> sc.pc.Critical());
    match sc.pc
    case MergeWanted => step := LockMerge(k);
    case Merging(todo) => step := if todo == {} then EndMerge(k) else MergeCPU(k, AnyOf(todo));
    case Pruning(todo) => step := if todo == {} then EndPrune(k) else PruneCPU(k, AnyOf(todo));
    case Merged => step := UnlockMerge(k);
    case EmitWanted(_) => step := LockEmit(k);
    case Emitting(_, _, todo, _) => step := if todo == {} then UnlockEmit(k) else EmitCPU(k, AnyOf(todo));
  }

  /** A scrape whose merge was not followed by another before it emitted shows
      exactly the CPUs it read, each idle value less than the limit above its
      own reading unless that is negative. */
  lemma UndisturbedScrapeShowsItsCpus(guest: bool, steps: seq<Step>, j: nat)
    requires ValidRun(guest, steps) && j < |Exec(guest, steps).scrapes|
    requires var pc := Exec(guest, steps).scrapes[j].pc; pc.Shown? && pc.upTo == pc.at + 1
    ensures var sc := Exec(guest, steps).scrapes[j];
      && (forall x :: x in sc.pc.out ==> x.cpu in sc.s)
      && (forall i :: i in sc.s && sc.s[i].idle >= 0.0 ==>
            exists x :: x in sc.pc.out && x.cpu == i && x.counter == Idle && 0.0 <= x.value - sc.s[i].idle < 3.0)
  {
    EmissionShowsOneState(guest, steps, j);
    var y := Exec(guest, steps);
    OwnCPUsShown(guest, y.h, y.scrapes[j].s, y.scrapes[j].pc.at, y.scrapes[j].pc.out);
  }

  lemma OwnCPUsShown(guest: bool, h: seq<Snapshot>, s: Snapshot, at: nat, out: seq<Sample>)
    requires ShowsOneState(guest, h, s, at, at + 1, out)
    ensures forall x :: x in out ==> x.cpu in s
    ensures forall i :: i in s && s[i].idle >= 0.0 ==>
      exists x :: x in out && x.cpu == i && x.counter == Idle && 0.0 <= x.value - s[i].idle < 3.0
  {
    ShownCPUs(guest, h, s, at, out);
    forall i | i in s && s[i].idle >= 0.0
      ensures exists x :: x in out && x.cpu == i && x.counter == Idle && 0.0 <= x.value - s[i].idle < 3.0
    {
      var x := ShownIdle(guest, h, s, at, out, i);
    }
  }

  lemma ShownCPUs(guest: bool, h: seq<Snapshot>, s: Snapshot, at: nat, out: seq<Sample>)
    requires ShowsOneState(guest, h, s, at, at + 1, out)
    ensures forall x :: x in out ==> x.cpu in s
  {
  }

  lemma ShownIdle(guest: bool, h: seq<Snapshot>, s: Snapshot, at: nat, out: seq<Sample>, i: int) returns (x: Sample)
    requires ShowsOneState(guest, h, s, at, at + 1, out) && i in s && s[i].idle >= 0.0
    ensures x in out && x.cpu == i && x.counter == Idle && 0.0 <= x.value - s[i].idle < 3.0
  {
    var state := Cache(h[..at + 1]);
    ShowsOneCPU(out, state, guest, i);
    IdleLead(h[..at + 1], i);
    x := Sample(i, Idle, state[i].idle);
  }
}
