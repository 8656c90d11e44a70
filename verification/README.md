# Verified models of the node_exporter collectors that hold state

Most collectors of node_exporter read a kernel file and forward numbers. This
project models the ones that do more: collectors with shared state and
concurrency, caches that outlive a scrape, algorithms that must not depend on
the order of a Go map, and parsers that have an inverse. Each module follows one
source file.

| module | models |
|---|---|
| `Watchdog` | the stuck-mount watchdog: any number of concurrent scrapes, one watcher with a timer and a success channel per `Statfs` call, one shared map behind a mutex |
| `MountParser` | the mount table parser with its escape decoding |
| `CpuCache` | the per-CPU counter cache with its reset rule and offline pruning, and concurrent scrapes of it |
| `Registry`, `Collect` | the memoised collector registry, and the fan-out over goroutines with a WaitGroup |
| `Hwmon` | the sensor file-name pattern with backtracking, and the table filled and read back through it |
| `Netdev` | the in-place legacy renaming of device statistics |
| `Btrfs` | the mount scan with its shortcut and the sparse device scan |
| `Ipvs` | the canonical label list and the group-by through a joined string key |
| `Netstat` | the parsers of netstat/snmp and snmp6 |
| `Ethtool` | the metric-name pipeline, the elimination of duplicate names, and the table of descriptions |
| `Logind` | session counts over a cross product |
| `Strings`, `MapSums`, `Wrappers` | the Go library functions the collectors call, sums over maps modulo 2^64, small shared types |

The two protocols (`Watchdog`, `Collect`) and the concurrent scrapes in
`CpuCache` are step machines: a constructor of `Step` is one indivisible action
of one goroutine or of the environment, `Enabled` says when it can happen, and
a run is any sequence of enabled steps, so every theorem about runs holds for
every interleaving. Go maps are ranged over with `Pick`, which returns some
element, so every theorem holds for every iteration order. Code that changes a
map in place is a class whose methods are proved against a specification
function; the properties are then proved of that function.

What kernel calls, ioctls and D-Bus answer is an input. Counters of the cpu
collector are real numbers; 64-bit counters wrap modulo 2^64. A timer firing is
a step that may happen at any time. User-supplied patterns are arbitrary
predicates.

## Results that differ from what one might expect

- A mount is not marked as stuck exactly while one of its calls is in flight.
  A second scrape of the same mount that succeeds takes the mark away although
  the first call still hangs (`Watchdog.InFlightCallMayBeUnmarked`). What does
  hold exactly is `Watchdog.MarkedIffLastMark` for every run, and
  `Watchdog.MarkedIffOpenMarker` while the calls on a mount never overlap.
- The parser decodes the two escapes that the comment at
  `collector/filesystem_linux.go:170-171` quotes from fstab(5). The kernel's table
  has more: newline and backslash are escaped too, in devices also `#`, and white
  space of other kinds is not escaped although it ends a field. So a mount point
  comes back wrong exactly when it has a backslash or white space other than
  blanks and tabs, and a device also with `#` or any white space
  (`MountParser.KernelTableRoundTripIff`, `MountParser.NoBreakSpaceIsLost`).
- Two scrapes merged into the cpu cache out of order do not merely lose a little:
  when a CPU's readings are 3 idle seconds or more apart, the older one resets the
  CPU to itself (`CpuCache.StaleMergeResets`). `CpuCache.MergesCommuteIff` says
  exactly when the order does not matter.
- The full names in the ethtool table are unique per scrape, the names emitted
  are not: statistics `rx_bytes` and `rx_bytes_total` come out under one name
  (`Ethtool.RxBytesClash`); `Ethtool.EmittedNamesDifferIff` says exactly when
  emitted names differ.
- Cleaning a metric name does not leave a single underscore for every run of
  invalid characters and underscores: underscores on both sides go with one block
  of invalid characters only, so `a _ b` becomes `a__b`
  (`Ethtool.TwoBlocksKeepTwo`). It is a single one exactly for one block
  (`Ethtool.SingleUnderscoreIff`).
- The joined IPVS key is exact for every label list the parser accepts, although
  the separator is not excluded from the mark: one component with dashes cannot
  make two keys equal, two could (`Ipvs.KeysAreExactIff`). Addresses are printed
  by Go and the protocol is one of the literals TCP, UDP and FWM, so neither has
  a dash.
- The shortcut of the btrfs mount scan passes over a filesystem's first success
  exactly when that is on the device of an earlier filesystem's first success
  (`Btrfs.ShortcutAgreesIff`). The device scan does not end for the largest
  possible `MaxID` unless a probe fails or `NumDevices` is positive and an id
  exists (`Btrfs.ScanEndsIff`); if it ends after its counter has wrapped, it
  lists devices more than once (`Btrfs.WrappedScanRepeats`).
- A netstat names line that is empty or starts with a blank makes the Go code
  slice out of range; the model returns `Panic` there, and `Netstat.PanicsIff`
  says exactly when.

## Model

| member | source | states |
|---|---|---|
| `Watchdog.RunKeepsInv` | collector/filesystem_linux.go:62-88 | every step of every goroutine keeps the invariant: the mutex holder is the one in a critical section, a channel is open exactly between its making and its close, and every mark has an open marker |
| `Watchdog.MarkedMeansOpenMarker` | collector/filesystem_linux.go:124-142 | in every reachable state a marked mount has a call whose channel is open and whose own watcher marked it; the one exception is the instant inside the critical section between close and delete |
| `Watchdog.QuietMountStaysUnmarked` | collector/filesystem_linux.go:127-141 | once no call on a mount has an open channel, the mount is unmarked and stays so until a new call is made, however late a timer fires and whichever ready select branch is taken |
| `Watchdog.MarkedIffLastMark` | collector/filesystem_linux.go:81-88 | a mount is marked exactly when some watcher timed out on it with its channel open and no call on it has come back since |
| `Watchdog.MarkedIffOpenMarker` | collector/filesystem_linux.go:76-88 | as long as no two calls on a mount were ever open at once, it is marked exactly while a call on it is open that its own watcher marked, outside the instant between close and delete |
| `Watchdog.InFlightCallMayBeUnmarked` | collector/filesystem_linux.go:83-87 | a concrete run: a call is in flight and its watcher did mark the mount, yet the mount is unmarked because a second scrape succeeded |
| `Watchdog.ChannelIsClosedOnce` | collector/filesystem_linux.go:82 | no run closes a success channel twice |
| `Watchdog.OpenIffInFlight` | collector/filesystem_linux.go:76-82 | a channel is open exactly while the scrape that made it has not closed it, and a scrape never has two open ones |
| `Watchdog.HolderReleases` | collector/filesystem_linux.go:62-88 | the mutex holder always has an enabled action, each brings the unlock nearer, at most three are needed, and no action of anybody else disturbs this |
| `Watchdog.NoDeadlock` | collector/filesystem_linux.go:124-142 | while anything is unfinished some action other than a new scrape is possible, be it only a `Statfs` coming back or a timer firing; the next row says when it is only that |
| `Watchdog.OnlyStatfsIsWaitedFor` | collector/filesystem_linux.go:76-142 | whenever nothing but a new scrape, a returning `Statfs` or a firing timer can happen, the mutex is free, every unfinished scrape is inside `Statfs`, and every live watcher waits on an open channel and an unfired timer |
| `Watchdog.EveryStepProgresses` | collector/filesystem_linux.go:53-142 | every step but the arrival of a scrape and the firing of a timer brings the end of all scrapes and watchers present strictly nearer, and a timer does not put it off |
| `Watchdog.RankIsZeroIff` | collector/filesystem_linux.go:53-142 | the measure is used up exactly when every scrape has finished and every watcher has exited |
| `Watchdog.MarkedMountIsLeftAlone` | collector/filesystem_linux.go:62-77 | while a mount stays marked, the only calls made on it are those of scrapes that had passed its check before |
| `Watchdog.ScrapeReportsEveryMount` | collector/filesystem_linux.go:52-119 | a finished scrape reports every mount that is not excluded exactly once and in table order, whatever the other goroutines did |
| `Watchdog.EntriesTellOutcomes` | collector/filesystem_linux.go:62-119 | told from the steps of the run alone: the entry of a mount is a device error exactly when its scrape, standing at that mount, found it marked or had its `Statfs` call fail |
| `Watchdog.LookupTellsTheRun` | collector/filesystem_linux.go:62-71 | a scrape passes a mount over only if some step marked it and none has unmarked it since, and calls it only if there is no such step |
| `Watchdog.WatcherDoesItsDuty` | collector/filesystem_linux.go:127-141 | a watcher acts only on a closed channel or a fired timer, and never ends with its call in flight and its mount not marked by it |
| `Watchdog.FiredIffStep` | collector/filesystem_linux.go:125-130 | a timer counts as fired exactly if firing it was a step of the run |
| `Watchdog.StuckMounts.Recover` | collector/filesystem_linux.go:81-88 | closes a channel that is open and removes exactly that mount's mark |
| `Watchdog.StuckMounts.GetStats` | collector/filesystem_linux.go:47-119 | a lone scrape reports as specified and leaves every mark as it found it, also when calls outlive their timeout |
| `Watchdog.LoneStatsLabels` | collector/filesystem_linux.go:53-117 | a lone scrape reports the same mounts in the same order as one of many |
| `Watchdog.LoneStatsTell` | collector/filesystem_linux.go:63-97 | each entry of a lone scrape is a device error exactly when its mount point was marked at the start or its call failed |
| `MountParser.ParseFilesystemLabels` | collector/filesystem_linux.go:159-184 | succeeds exactly when every line has four fields, then with one entry per line; otherwise reports the first bad line |
| `MountParser.StrippedMeans` | collector/paths.go:48-57 | a path under the rootfs is the rootfs and what is left, the rootfs itself becomes "/", and any other non-empty path is kept |
| `MountParser.UnescapeIsOnePass` | collector/filesystem_linux.go:170-173 | replacing `\040` and then `\011` equals decoding both in one pass, for every string |
| `MountParser.DecodeEscape` | collector/filesystem_linux.go:170-173 | decoding an escaped string equals decoding the string |
| `MountParser.MountPointRoundTripIff` | collector/filesystem_linux.go:170-173 | a mount point survives escaping and decoding exactly when it does not contain an escape sequence itself |
| `MountParser.ParseRendered` | collector/filesystem_linux.go:162-181 | parsing a table of any writable fields gives one entry per line in order, for every rootfs |
| `MountParser.TableRoundTripIff` | collector/filesystem_linux.go:159-184 | with rootfs "/" and any way of escaping devices and mount points that leaves no white space, the table comes back unchanged exactly when every device comes back undecoded and every mount point decoded |
| `MountParser.ParsedAreReturnable` | collector/filesystem_linux.go:163-181 | whatever the text, no field of an entry is empty, and of all white space only blanks and tabs get into a mount point |
| `MountParser.MountTableRoundTripIff` | collector/filesystem_linux.go:159-184 | for a writer that escapes only space and tab, and any mounts whatever: exactly when every field is non-empty, white space occurs only in mount points and only as blanks and tabs, and no mount point contains an escape sequence |
| `MountParser.KernelRoundTripIff` | collector/filesystem_linux.go:170-173 | for the four escapes of the kernel a mount point is read back as it was exactly when it has neither a backslash nor a newline |
| `MountParser.KernelTableRoundTripIff` | collector/filesystem_linux.go:159-184 | for the kernel's own table of any mounts whatever, type and options taken as written: exactly when, likewise, no field is empty and white space occurs only as blanks and tabs of mount points, no mount point has a backslash, and no device a backslash or `#` |
| `MountParser.NoBreakSpaceIsLost` | collector/filesystem_linux.go:164 | of a mount point with a no-break space, which nothing escapes, the tail becomes the field that is read as the type |
| `CpuCache.CpuCollector.MergeReadings` | collector/cpu_linux.go:357-428 | the loop merges every CPU of the snapshot once, in any order, and touches no other |
| `CpuCache.CpuCollector.DropOffline` | collector/cpu_linux.go:430-436 | although it looks only when the two sizes differ, the cache then holds exactly the online CPUs, unchanged |
| `CpuCache.CpuCollector.UpdateCPUStats` | collector/cpu_linux.go:351-437 | the new cache is the merge of the old one with the snapshot |
| `CpuCache.CpuCollector.Emit` | collector/cpu_linux.go:328-345 | emits of every cached CPU user, nice, system, idle, iowait, irq, softirq and steal once each, guest and guest nice exactly if asked for, all with the cached values, and nothing else |
| `CpuCache.ShowsAllCounters` | collector/cpu_linux.go:328-345 | whatever shows all CPUs of a cache has each of those counters by name, eight or ten samples per CPU |
| `CpuCache.CacheIsRunningMax` | collector/cpu_linux.go:351-437 | after any history the cache has the CPUs of the last snapshot, and each of the ten counters is the running maximum since that CPU's last reset |
| `CpuCache.RunningMaxIsMaximum` | collector/cpu_linux.go:368-426 | that running maximum bounds every reading since the reset and, for readings not negative, is one of them |
| `CpuCache.CacheIsNotNegative` | collector/cpu_linux.go:361-371 | no cached counter is ever negative |
| `CpuCache.IdleLead` | collector/cpu_linux.go:361-371 | cached idle never lags the reported one and leads it by less than 3 exactly when the report is above -3 |
| `CpuCache.CountersFallOnlyOnReset` | collector/cpu_linux.go:361-426 | for readings not negative the cached idle falls exactly on a reset, and without one no counter falls |
| `CpuCache.GrowingReadingsAreCachedAsRead` | collector/cpu_linux.go:358-428 | while the kernel's counters never fall the cache shows them as they are |
| `CpuCache.MergesCommuteIff` | collector/cpu_linux.go:351-437 | for readings not negative two merges commute exactly when the CPU sets are equal and, for every CPU, both readings reset it or neither does and their idle counters are less than 3 apart |
| `CpuCache.MergesCommute` | collector/cpu_linux.go:351-428 | for readings of any sign: they commute for equal CPU sets when neither order resets a CPU, and never for different CPU sets |
| `CpuCache.StaleMergeResets` | collector/cpu_linux.go:363-366 | for any cache and CPU: of two readings 3 idle seconds or more apart the older one merged last resets the CPU to exactly itself, while merged first it takes nothing from the newer one |
| `CpuCache.RunKeepsWorld` | collector/cpu_linux.go:318-437 | every step of any number of scrapes that lock, merge CPU by CPU, compare sizes, prune CPU by CPU, unlock, lock again and emit CPU by CPU keeps: only the mutex holder is inside, a writer has done exactly its part of the merge, and while nobody writes the cache is the merge of all snapshots so far |
| `CpuCache.HistoryTellsTheRun` | collector/cpu_linux.go:319-354 | told from the steps alone: every scrape works on the snapshot it arrived with, and the merges so far are those of the scrapes that unlocked, in that order |
| `CpuCache.EmissionIsOneCacheState` | collector/cpu_linux.go:318-348 | under any interleaving of those steps a scrape emits all eight counters of all CPUs, or all ten with guests, once each, of one single cache state, reached at or after its own merge |
| `CpuCache.NoEmissionSeesHalfAMerge` | collector/cpu_linux.go:326-345 | no CPU is emitted from a cache that is half merged or not yet pruned |
| `CpuCache.NoDeadlock` | collector/cpu_linux.go:353-437 | while a scrape is unfinished some step other than an arrival is possible |
| `CpuCache.SameSizeIsMerged` | collector/cpu_linux.go:430-436 | after the merge loop the two sizes are equal exactly when nothing is left to prune |
| `CpuCache.UndisturbedScrapeShowsItsCpus` | collector/cpu_linux.go:324-328 | a scrape with no other merge before its emission emits only CPUs it read, and for each of them whose idle reading is not negative an idle value less than 3 above that reading |
| `Registry.NodeRegistry.CheckFilters` | collector/collector.go:108-118 | the filters as a set, or the error of the first one that is missing or disabled |
| `Registry.FilterErrorIsFirst` | collector/collector.go:109-118 | that error is of the first filter that is not an enabled collector: missing if it is unknown, disabled if it is known |
| `Registry.NodeRegistry.Fetch` | collector/collector.go:126-135 | returns the instance in the table, building it only if it is not there and recording it only on success |
| `Registry.NodeRegistry.Gather` | collector/collector.go:119-137 | in any map order: on success exactly the wanted collectors, all shared with the table; on failure the name of a wanted factory that failed |
| `Registry.NodeRegistry.NewNodeCollector` | collector/collector.go:107-138 | every call, failing ones included, keeps the table consistent and is `Correct` |
| `Registry.TableOnlyGrows` | collector/collector.go:120-137 | over any trace of calls the table only grows and no entry is replaced |
| `Registry.InstancesAreShared` | collector/collector.go:126-135 | two calls return the same instance exactly for the same name |
| `Registry.FactoriesSucceedAtMostOnce` | collector/collector.go:126-135 | over any trace each factory succeeds at most once, and exactly for the names in the table |
| `Registry.SuccessReturnsTheSelection` | collector/collector.go:107-138 | a call succeeds exactly when all filters are enabled collectors and no factory it still needs fails, and returns exactly the selection |
| `Registry.RetrySucceeds` | collector/collector.go:129-135 | after a factory failure a repetition with working factories succeeds and reuses what was built |
| `Collect.RunKeepsInv` | collector/collector.go:147-178 | every step keeps: the WaitGroup counts the goroutines not done, and each goroutine has sent exactly what its position says |
| `Collect.WaitGroupCounts` | collector/collector.go:148-156 | the WaitGroup never goes negative and equals the number of goroutines not done |
| `Collect.CollectReportsEveryCollector` | collector/collector.go:147-178 | on return every collector has sent its own metrics, then one duration, then one success that is 1 exactly when Update returned nil; nothing else was sent and nothing will be |
| `Collect.ReportsTellTheRun` | collector/collector.go:159-178 | told from the steps alone: what the channel got from a collector is the metrics its Update sent, in that order, its duration, and a success that is 1 exactly if the one result of its Update was nil |
| `Collect.NoDeadlock` | collector/collector.go:150-156 | before it returns some step other than a further metric is possible |
| `Collect.EveryStepProgresses` | collector/collector.go:150-177 | every step but an Update's own sends brings the return one nearer |
| `Hwmon.FindMatchIsLeftmostFirst` | collector/hwmon_linux.go:35 | the search finds a match exactly when the pattern has one, and finds the one a greedy backtracking matcher tries first |
| `Hwmon.ExplodeInvertsPrintingIff` | collector/hwmon_linux.go:102-127 | for a digit-free type, exploding type + number + "_" + property gives the parts back exactly when the number fits an int and the property is non-empty without newline |
| `Hwmon.ExplodeWithoutProperty` | collector/hwmon_linux.go:103-127 | type + number alone gives type and number back, or is rejected when the number does not fit |
| `Hwmon.KeysAreInjective` | collector/hwmon_linux.go:143 | bucket names of digit-free types are injective |
| `Hwmon.ListedTypesAreDigitFree` | collector/hwmon_linux.go:38-42 | every listed sensor type is non-empty and has no digit |
| `Hwmon.SensorTable.AddValueFile` | collector/hwmon_linux.go:66-78 | an unreadable file changes nothing, a readable one sets exactly one entry |
| `Hwmon.TrimmedMiddle` | collector/hwmon_linux.go:71 | what is stored is the middle of the content: only newlines are cut off, and none is left at either end |
| `Hwmon.SensorTable.CollectSensorData` | collector/hwmon_linux.go:129-149 | the nested map after scanning a directory in order |
| `Hwmon.EntryIsLastFile` | collector/hwmon_linux.go:72-78 | whatever the table held before, an entry is the trimmed content of the last readable file of that sensor and property, and without such a file what it was |
| `Hwmon.TwoDirectories` | collector/hwmon_linux.go:157-167 | of the two directories of a chip the second decides wherever it has a readable file, and else the first |
| `Hwmon.ReparseRecoversType` | collector/hwmon_linux.go:191 | exploding a bucket name gives the type and number of every file in that bucket, and two files share a bucket exactly when both agree |
| `Hwmon.EveryBucketHasAFile` | collector/hwmon_linux.go:141-144 | every bucket was there before or stems from a readable file of a listed type |
| `Hwmon.ListedFileIsStored` | collector/hwmon_linux.go:129-149 | a readable file named after any of the thirteen types, a number and a property is stored under type and number and under the property |
| `Netdev.DeviceStats.Pop` | collector/netdev_common.go:229-233 | returns the value and whether it was there, and removes exactly that key |
| `Netdev.DeviceStats.Popz` | collector/netdev_common.go:235-241 | returns the value or 0 and removes exactly that key |
| `Netdev.DeviceStats.Rename` | collector/netdev_common.go:194-196 | one single-source rule |
| `Netdev.DeviceStats.ReceiveDrop` | collector/netdev_common.go:197-199 | the rule that folds missed errors in |
| `Netdev.DeviceStats.ReceiveFrame` | collector/netdev_common.go:203-205 | the rule that folds four counters, modulo 2^64 |
| `Netdev.DeviceStats.TransmitCarrier` | collector/netdev_common.go:224-226 | the transmit rule that folds four counters, modulo 2^64 |
| `Netdev.DeviceStats.Legacy` | collector/netdev_common.go:193-227 | the in-place rewrite is the ten rules in order; renaming "multicast" a second time does nothing |
| `Netdev.SequenceIsSimultaneous` | collector/netdev_common.go:193-227 | the pops in sequence equal one simultaneous rename-and-fold read off the original map, for every key |
| `Netdev.RulesAreDisjoint` | collector/netdev_common.go:193-227 | no name occurs twice in the rules |
| `Netdev.LegacyIsIdempotent` | collector/netdev_common.go:193-227 | rewriting twice is rewriting once |
| `Netdev.RewriteConserves` | collector/netdev_common.go:193-227 | for every map the new sum plus what was overwritten is the old sum modulo 2^64 |
| `Netdev.SumPreservedIff` | collector/netdev_common.go:193-227 | the sum is preserved exactly when the overwritten targets add up to 0; no target next to its source suffices |
| `Netdev.KeyAfter` | collector/netdev_common.go:193-227 | which keys the rewritten map has |
| `Netdev.NetlinkNames` | collector/netdev_linux.go:68-99 | a netlink map has no clash and becomes exactly the legacy names |
| `Netdev.NetlinkValues` | collector/netdev_common.go:193-227 | the ten values of a rewritten netlink map, every name written out: six counters under their own legacy names, missed errors in receive_drop, and the two sums of four, modulo 2^64 |
| `Netdev.UntouchedValues` | collector/netdev_common.go:193-227 | packets, bytes, compressed and nohandler keep names and values |
| `Netdev.ProcfsNames` | collector/netdev_linux.go:126-143 | a procfs map has no clash and becomes exactly the legacy names |
| `Netdev.BothSourcesConserve` | collector/netdev_linux.go:68-143 | for either source nothing of the sum is lost |
| `Netdev.BothSourcesAgree` | collector/netdev_linux.go:68-143 | both sources give the same names, but for the one netlink adds |
| `Btrfs.GetIoctlDeviceStats` | collector/btrfs_linux.go:175-213 | for every input with which the loop ends, the wrapping 64-bit counter included: fails exactly when an id fails before the wanted number is found, with that id's error; otherwise the existing ids in ascending order, cut at `NumDevices` if positive, or repeated up to it once the counter has wrapped |
| `Btrfs.ScanEndsIff` | collector/btrfs_linux.go:178 | the loop ends exactly when `MaxID` is not the largest integer, or some probe fails, or `NumDevices` is positive and some id exists |
| `Btrfs.ScanLeavesWith` | collector/btrfs_linux.go:178-212 | after however many rounds it is left, it is left with that result |
| `Btrfs.WrappedScanRepeats` | collector/btrfs_linux.go:178-209 | with the largest `MaxID` and more `NumDevices` than existing ids the devices are listed twice, so the ids do not ascend |
| `Btrfs.ExistingIdsAreAll` | collector/btrfs_linux.go:178-206 | the reference list holds exactly the existing ids, strictly ascending |
| `Btrfs.CutIsHarmless` | collector/btrfs_linux.go:207-209 | without failing probes the result is the full list exactly when `NumDevices` is 0 or the number of existing ids, or is larger and the counter does not wrap to an existing id |
| `Btrfs.LargestMaxIdNeverEnds` | collector/btrfs_linux.go:178 | in particular, with the largest `MaxID` and no existing id the loop is in its body after any number of rounds |
| `Btrfs.GetIoctlStats` | collector/btrfs_linux.go:103-173 | the scan over mounts with both early exits |
| `Btrfs.KeepFirstIsFirst` | collector/btrfs_linux.go:150-170 | the scan without shortcut keeps, per filesystem, its first full success |
| `Btrfs.ShortcutAgreesIff` | collector/btrfs_linux.go:116-170 | the scan with the shortcut agrees with the scan without on every prefix of the mount list exactly when no filesystem's first success is on the device of an earlier first success |
| `Btrfs.ScanOnOwnDevices` | collector/btrfs_linux.go:112-170 | in that case the devices done are exactly those of the first successes |
| `Btrfs.ShortcutIsHarmless` | collector/btrfs_linux.go:121-124 | in particular when all mounts of one device report one id |
| `Btrfs.ShortcutNeedsOneFilesystemPerDevice` | collector/btrfs_linux.go:121-124 | the smallest input of the other kind: two ids on one device, the second filesystem is lost |
| `Btrfs.ScanReportsOnlySuccesses` | collector/btrfs_linux.go:103-173 | in any case nothing extra is reported, and what is missing is on a device already done |
| `Btrfs.ReportedIsProbed` | collector/btrfs_linux.go:112-170 | every filesystem reported is on some mount of type btrfs, with the devices that mount answered with |
| `Btrfs.ProbedIsReported` | collector/btrfs_linux.go:112-170 | every mount of type btrfs that answers has its filesystem reported or its device done |
| `Ipvs.ParseIpvsLabels` | collector/ipvs_linux.go:205-232 | accepts exactly lists of known labels and orders them canonically; otherwise the unknown ones, sorted |
| `Ipvs.AcceptedListIsCanonical` | collector/ipvs_linux.go:215-231 | an accepted list written out and parsed again is accepted and unchanged, and holds exactly the listed labels |
| `Ipvs.LabelVector` | collector/ipvs_linux.go:169-187 | the label values of one backend in label order; under all six labels address (empty for `<nil>`), port, remote address, remote port, protocol and mark, each from its own field |
| `Ipvs.FullVector` | collector/ipvs_linux.go:165-187 | that vector, field by field |
| `Ipvs.Aggregate` | collector/ipvs_linux.go:162-195 | the two maps after the loop |
| `Ipvs.GroupIsTotal` | collector/ipvs_linux.go:188-193 | a group exists exactly if a backend has its key, and holds the wrapped totals of exactly those backends |
| `Ipvs.VectorFitsGroup` | collector/ipvs_linux.go:194-197 | when at most one chosen label can carry a dash, the label values kept for a group are those of every backend in it |
| `Ipvs.JoinIsInjective` | collector/ipvs_linux.go:188 | joining with "-" is injective on equally long vectors without dashes |
| `Ipvs.JoinIsInjectiveAt` | collector/ipvs_linux.go:188 | it stays injective when one and the same component may carry dashes |
| `Ipvs.GroupingIsExact` | collector/ipvs_linux.go:188 | when at most one chosen label can carry a dash, two backends share a group exactly when they agree on every chosen label |
| `Ipvs.KeysAreExactIff` | collector/ipvs_linux.go:188-194 | for any set of text labels that may carry dashes and any duplicate-free choice: the keys are exact for all such backends exactly when at most one label of the set is chosen |
| `Ipvs.AcceptedListIsExact` | collector/ipvs_linux.go:162-195 | so for every accepted label list the keys are exact, addresses and protocol being free of dashes and the mark being arbitrary |
| `Ipvs.GroupsAreByFields` | collector/ipvs_linux.go:165-194 | told of the record alone: for every accepted list two backends share a group exactly when the fields of the chosen labels are equal, no address and `<nil>` being one |
| `Ipvs.DashMergesGroups` | collector/ipvs_linux.go:188 | any two chosen labels that could both carry a dash admit two backends that differ in both and share a group |
| `Ipvs.GroupsConserve` | collector/ipvs_linux.go:189-201 | for every label list, dashes or not, the totals over groups equal the totals over backends modulo 2^64 |
| `Netstat.ReadFields` | collector/netstat_linux.go:154-156 | one pair of lines: names to values, the last value of a repeated name |
| `Netstat.ParseNetStats` | collector/netstat_linux.go:137-160 | line pairs to nested map, with the mismatch error, the lone last line and the slice panic |
| `Netstat.FailsAtFirstBadPair` | collector/netstat_linux.go:143-157 | fails exactly when a pair lacks a protocol or its counts differ, with the error of the first such pair |
| `Netstat.PanicsIff` | collector/netstat_linux.go:148 | slices out of range exactly when the first bad pair has a names line that is empty or starts with a blank |
| `Netstat.MismatchIff` | collector/netstat_linux.go:150-153 | reports a mismatch for a protocol exactly when the first bad pair has that protocol |
| `Netstat.EmptyLinePanics` | collector/netstat_linux.go:143-148 | a text that starts with an empty line panics, whatever follows |
| `Netstat.ParseRendered` | collector/netstat_linux.go:143-157 | parsing a printed table gives its nested map, for all fields without blanks or line ends |
| `Netstat.NetStatsRoundTrip` | collector/netstat_linux.go:137-160 | for distinct protocols and fields every value is found under its protocol and name, and nothing else is |
| `Netstat.ParseSNMP6Stats` | collector/netstat_linux.go:178-201 | the nested map after all lines |
| `Netstat.NestingIsLossless` | collector/netstat_linux.go:190-197 | flattening the nested map gives exactly the last-wins map of all lines whose key has a 6, entry by entry in both directions |
| `Netstat.LastWinsMeans` | collector/netstat_linux.go:184-197 | that map holds the keys with a 6 of all lines with two fields or more, each with the second field of its last line |
| `Ethtool.SanitizedChars` | collector/helper.go:35-50 | only letters, digits and underscores are left, and a letter or digit is left exactly if there was one |
| `Ethtool.BlockIsReplaced` | collector/helper.go:35-50 | a block of invalid characters, the underscores on both sides included, becomes one underscore; the part before is kept |
| `Ethtool.RunIsReplaced` | collector/helper.go:35-50 | a run of invalid characters and underscores becomes one underscore for every block of invalid characters in it |
| `Ethtool.SingleUnderscoreIff` | collector/helper.go:35-50 | so it becomes a single underscore exactly if it holds one block |
| `Ethtool.TwoBlocksKeepTwo` | collector/helper.go:35-50 | in `a _ b` two underscores are left |
| `Ethtool.CleanIsKept` | collector/helper.go:35-50 | a name without invalid characters is kept |
| `Ethtool.LowerAt` | collector/ethtool_linux.go:209 | every capital becomes the small letter of the same position, all else is kept |
| `Ethtool.TrimmedFront` | collector/ethtool_linux.go:209 | only underscores are cut off, at the front only, and all of them |
| `Ethtool.BlockMakesDuplicate` | collector/ethtool_linux.go:208-213 | a statistic spelled with one block of invalid characters and the one spelled with an underscore in its place have the same full name |
| `Ethtool.FQNameIsValid` | collector/ethtool_linux.go:208-213 | every full name is lower-case name characters behind the prefix, and empty exactly for statistics without letter or digit |
| `Ethtool.ReplaceIsPerField` | collector/ethtool_linux.go:46-47 | for every name, replacing a token is replacing the fields between underscores that equal it, except one right behind a replaced one |
| `Ethtool.FQNamePerField` | collector/ethtool_linux.go:208-213 | the full name of every statistic with a letter or digit is the prefix and the fields of its cleaned name, the rx fields and then the tx fields spelled out |
| `Ethtool.ReceivedName` | collector/ethtool_linux.go:208-213 | a leading "rx" is spelled out and the rest kept, if no field of the rest is a token |
| `Ethtool.TransmittedName` | collector/ethtool_linux.go:208-213 | likewise for a leading "tx" |
| `Ethtool.NameTable` | collector/ethtool_linux.go:390-406 | in any order of the statistics: each name maps to its only source, or to a tombstone if it has several |
| `Ethtool.TableIsUnique` | collector/ethtool_linux.go:390-406 | that determines the table: all iteration orders give the same one |
| `Ethtool.EmittedIffOnlySource` | collector/ethtool_linux.go:415-420 | a name is emitted for a statistic exactly when it is its name and no other included statistic has that name |
| `Ethtool.EthtoolCollector.constructor` | collector/ethtool_linux.go:106-194 | a new collector has the pre-populated entries and is valid |
| `Ethtool.TotalsExtendTheName` | collector/ethtool_linux.go:106-141 | each counter in that table is described under the name it would get by itself, with `_total` behind it, and with the device as its only label |
| `Ethtool.LinkEntries` | collector/ethtool_linux.go:144-193 | the ten link entries with their names and labels |
| `Ethtool.PrepopulatedKeys` | collector/ethtool_linux.go:106-193 | the seventeen keys |
| `Ethtool.EthtoolCollector.EntryWithCreate` | collector/ethtool_linux.go:434-447 | never changes an existing entry, and keeps every entry that was not pre-populated named after its key |
| `Ethtool.EthtoolCollector.EmitName` | collector/ethtool_linux.go:415-427 | one turn of the emitting loop: nothing for a tombstone, else one sample under the description of the statistic |
| `Ethtool.EthtoolCollector.EmitAll` | collector/ethtool_linux.go:415-428 | the emitting loop: one sample per name with one source, all earlier entries unchanged |
| `Ethtool.EthtoolCollector.UpdateStats` | collector/ethtool_linux.go:390-428 | what is emitted depends neither on the iteration order nor on what earlier scrapes left in the table; in every reachable state the entries are valid |
| `Ethtool.EmissionOfKept` | collector/ethtool_linux.go:415-427 | one sample per statistic kept, in order, with its own value and description |
| `Ethtool.KeptAreDifferent` | collector/ethtool_linux.go:409-420 | no two statistics kept have the same full name |
| `Ethtool.EmissionIsExact` | collector/ethtool_linux.go:390-428 | a device yields exactly one sample for every included, named statistic whose full name no other included one has, and no other sample |
| `Ethtool.EmittedNamesDifferIff` | collector/ethtool_linux.go:422-426 | the names of one emission all differ exactly when no emitted statistic has the full name under which another, pre-populated one is emitted |
| `Ethtool.PrepopulatedNamesDiffer` | collector/ethtool_linux.go:106-193 | the pre-populated entries have different names, as the previous row asks |
| `Ethtool.DeviceNamesDifferIff` | collector/ethtool_linux.go:106-193 | so for a real collector and a device the emitted names all differ exactly when no emitted statistic has the full name of a pre-populated emitted one |
| `Ethtool.TotalsClash` | collector/ethtool_linux.go:107-111 | an entry pre-populated under a token-free total clashes with the statistic called that total |
| `Ethtool.RxBytesClash` | collector/ethtool_linux.go:107-111 | a device with `rx_bytes` and `rx_bytes_total` gets two samples under one name |
| `Logind.KnownStringOrOther` | collector/logind_linux.go:140-148 | the value itself if it is in the list, else "other" |
| `Logind.GetSession` | collector/logind_linux.go:237-271 | nothing exactly if a property is unreadable; else seat and remote as read, and type and class as read if they are listed and "other" if not |
| `Logind.CollectMetrics` | collector/logind_linux.go:103-138 | the samples of the cross product, each with the number of retrieved sessions equal to its cell |
| `Logind.SingleSession` | collector/logind_linux.go:103-138 | if one entry alone is readable, with a listed seat, remote value, type and class, the sample with those four labels counts 1 and every other sample 0 |
| `Logind.TypeBlock` | collector/logind_linux.go:124-135 | the samples for one remote value |
| `Logind.ClassBlock` | collector/logind_linux.go:125-135 | the samples for one type |
| `Logind.SeatRow` | collector/logind_linux.go:126-132 | the samples for one class |
| `Logind.CountCells` | collector/logind_linux.go:123-126 | a known session is in exactly as many cells as its seat is listed, if its remote value is asked for, else in none |
| `Logind.CountedBothWays` | collector/logind_linux.go:123-132 | summing sessions over cells equals summing cells over sessions |
| `Logind.EmittedCountsAddUp` | collector/logind_linux.go:103-138 | for every list of seats the emitted counts add up to the sessions counted once per listing of their seat, and the number of samples is fixed |
| `Logind.DistinctSeatsCountOnce` | collector/logind_linux.go:123-126 | with duplicate-free seats that is the number of retrieved sessions with a listed seat and a remote value of "true" or "false" |

## Left out

- Watchdog.StuckMounts.GetStats: models one scrape alone, in place, and of each entry the labels and the device error but not the sizes, inode counts and read-only flag; concurrent scrapes are the step machine of the same module, because Dafny methods run one at a time.
- Watchdog.StuckMounts.Recover: the mutex itself is not a field here; mutual exclusion is modelled and proved in the step machine.
- Watchdog.NoDeadlock: does not promise that a hung `Statfs` ever comes back, because nothing in the code does.
- Btrfs.GetIoctlDeviceStats: requires exactly that the loop ends; for all other inputs it does not (`Btrfs.ScanEndsIff`).
- Btrfs.ShortcutIsHarmless: goes one way; the exact condition is `Btrfs.ShortcutAgreesIff`, about every prefix of the scan, because a filesystem lost at one mount can be found again at a later one.
- CpuCache.MergesCommute: goes one way for readings of any sign; the exact condition, for readings not negative, is `CpuCache.MergesCommuteIff`.
- Sizes, inode counts and the read-only flag from `Statfs`, and the choice between `/proc/1/mounts` and `/proc/mounts`.
- The line limit of `bufio.Scanner` and read errors in the middle of a file; Unicode and invalid UTF-8 beyond one character per position.
- IEEE rounding, NaN and the conversion of counters to float64.
- The help text of metric descriptions, and the panics of the Prometheus client when a description has a different number of labels or an empty name.
- Link modes, speeds and driver info of the ethtool collector, and its two device filters.
- `cleanMetricName` and the choice of unit per sensor type in the hwmon collector: they would only add easy members.
- The first-wins loops of the cpu thermal throttle, filesystem, ARP and bonding collectors, and collectors that copy struct fields to metrics: easy members.
- Merging the three netstat maps, `getNetListen` and everything that runs a shell command.
- D-Bus, netlink, ioctl, sysctl, NVML and procfs calls, HTTP serving, flags and logging.
