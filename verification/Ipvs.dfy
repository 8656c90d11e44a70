/** The IPVS collector: the label list from the command line, and the sums of
    the backends grouped by the chosen labels through one joined string key. */
module Ipvs {
  import opened Wrappers
  import opened Strings
  import opened MapSums

  const FULL_LABELS: seq<string> := [
    "local_address", "local_port", "remote_address", "remote_port", "proto", "local_mark"
  ]

  // ----- the label list

  /** The labels of `all` that are wanted, in the order of `all`. */
  function Choose(all: seq<string>, wanted: set<string>): seq<string> {
    if all == [] then []
    else
      var n := |all| - 1;
      Choose(all[..n], wanted) + if all[n] in wanted then [all[n]] else []
  }

  /** The names in a comma-separated list; empty parts do not count. */
  function ListedNames(labelString: string): set<string> {
    set l | l in Split(labelString, ',') && l != ""
  }

  function Unknown(labelString: string): set<string> {
    set l | l in ListedNames(labelString) && l !in FULL_LABELS
  }

  method ParseIpvsLabels(labelString: string) returns (r: Result<seq<string>, seq<string>>)
    ensures r.Ok? <==> forall l :: l in Split(labelString, ',') && l != "" ==> l in FULL_LABELS
    ensures r.Ok? ==> r.value == Choose(FULL_LABELS, ListedNames(labelString))
    ensures r.Err? ==> r.error == SortedKeys(Unknown(labelString))
  {
    var labels := Split(labelString, ',');
    var labelSet: set<string> := {};
    for n := 0 to |labels|
      invariant forall l :: l in labelSet <==> l in labels[..n] && l != ""
    {
      assert labels[..n + 1] == labels[..n] + [labels[n]];
      if labels[n] != "" {
        labelSet := labelSet + {labels[n]};
      }
    }
    assert labels[..|labels|] == labels;
    ghost var listed := labelSet;
    assert listed == ListedNames(labelString);
    var results := [];
    for n := 0 to |FULL_LABELS|
      invariant results == Choose(FULL_LABELS[..n], listed)
      invariant forall l :: l in labelSet <==> l in listed && l !in FULL_LABELS[..n]
    {
      assert FULL_LABELS[..n + 1] == FULL_LABELS[..n] + [FULL_LABELS[n]];
      assert FULL_LABELS[..n + 1][..n] == FULL_LABELS[..n];
      LabelsDiffer(n);
      if FULL_LABELS[n] in labelSet {
        results := results + [FULL_LABELS[n]];
      }
      labelSet := labelSet - {FULL_LABELS[n]};
    }
    assert FULL_LABELS[..|FULL_LABELS|] == FULL_LABELS;
    assert labelSet == Unknown(labelString);
    if |labelSet| > 0 {
      var keys := SortKeys(labelSet);
      assert exists l :: l in labelSet;
      return Err(keys);
    }
    assert forall l :: l !in labelSet;
    r := Ok(results);
  }

  lemma LabelsDiffer(n: nat)
    requires n < |FULL_LABELS|
    ensures FULL_LABELS[n] !in FULL_LABELS[..n]
  {
    assert forall i, j :: 0 <= i < j < |FULL_LABELS| ==> FULL_LABELS[i] != FULL_LABELS[j];
  }

  lemma {:induction false} ChooseKeepsWanted(all: seq<string>, wanted: set<string>)
    ensures forall l :: l in Choose(all, wanted) <==> l in all && l in wanted
    decreases |all|
  {
    if all != [] {
      var n := |all| - 1;
      ChooseKeepsWanted(all[..n], wanted);
      assert all == all[..n] + [all[n]];
    }
  }

  lemma {:induction false} ChooseSame(all: seq<string>, a: set<string>, b: set<string>)
    requires forall l :: l in all ==> (l in a <==> l in b)
    ensures Choose(all, a) == Choose(all, b)
    decreases |all|
  {
    if all != [] {
      ChooseSame(all[..|all| - 1], a, b);
    }
  }

  lemma NoCommaInLabels()
    ensures forall l :: l in FULL_LABELS ==> l != "" && Without(l, ',')
  {
  }

  /** An accepted list is canonical: written out and parsed again it is accepted
      and unchanged, whatever order, repetitions or blanks it was given with. */
  lemma AcceptedListIsCanonical(labelString: string)
    requires Unknown(labelString) == {}
    ensures var accepted := Choose(FULL_LABELS, ListedNames(labelString));
      && (forall l :: l in accepted <==> l in ListedNames(labelString))
      && Unknown(Join(accepted, ',')) == {}
      && Choose(FULL_LABELS, ListedNames(Join(accepted, ','))) == accepted
  {
    var listed := ListedNames(labelString);
    var accepted := Choose(FULL_LABELS, listed);
    ChooseKeepsWanted(FULL_LABELS, listed);
    assert forall l :: l in listed ==> l in FULL_LABELS by {
      assert forall l :: l in listed && l !in FULL_LABELS ==> l in Unknown(labelString);
    }
    NoCommaInLabels();
    if accepted == [] {
      assert Split("", ',') == [""];
      assert ListedNames(Join(accepted, ',')) == {};
    } else {
      assert forall k :: 0 <= k < |accepted| ==> accepted[k] in accepted;
      SplitJoin(accepted, ',');
    }
    ChooseSame(FULL_LABELS, ListedNames(Join(accepted, ',')), listed);
  }

  // ----- grouping

  /** A backend; addresses as the library prints them, "<nil>" for none. */
  datatype Backend = Backend(
    localAddress: string, localPort: nat, remoteAddress: string, remotePort: nat, proto: string, localMark: string,
    activeConn: U64, inactConn: U64, weight: U64)

  datatype Status = Status(activeConn: U64, inactConn: U64, weight: U64)

  const NO_STATUS := Status(0, 0, 0)

  function LabelValue(b: Backend, name: string): string {
    if name == "local_address" then (if b.localAddress != "<nil>" then b.localAddress else "")
    else if name == "local_port" then Decimal(b.localPort)
    else if name == "remote_address" then b.remoteAddress
    else if name == "remote_port" then Decimal(b.remotePort)
    else if name == "proto" then b.proto
    else if name == "local_mark" then b.localMark
    else ""
  }

  function Values(b: Backend, labels: seq<string>): seq<string> {
    seq(|labels|, i requires 0 <= i < |labels| => LabelValue(b, labels[i]))
  }

  function GroupKey(b: Backend, labels: seq<string>): string {
    Join(Values(b, labels), '-')
  }

  function Plus(s: Status, b: Backend): Status {
    Status(Add64(s.activeConn, b.activeConn), Add64(s.inactConn, b.inactConn), Add64(s.weight, b.weight))
  }

  /** The totals of the backends with a given key. */
  function GroupTotal(backends: seq<Backend>, labels: seq<string>, key: string): Status {
    if backends == [] then NO_STATUS
    else
      var n := |backends| - 1;
      var before := GroupTotal(backends[..n], labels, key);
      if GroupKey(backends[n], labels) == key then Plus(before, backends[n]) else before
  }

  function Groups(backends: seq<Backend>, labels: seq<string>): map<string, Status> {
    if backends == [] then map[]
    else
      var n := |backends| - 1;
      var before, key := Groups(backends[..n], labels), GroupKey(backends[n], labels);
      before[key := Plus(if key in before then before[key] else NO_STATUS, backends[n])]
  }

  /** The label values kept per key: those of its last backend. */
  function LastVectors(backends: seq<Backend>, labels: seq<string>): map<string, seq<string>> {
    if backends == [] then map[]
    else
      var n := |backends| - 1;
      LastVectors(backends[..n], labels)[GroupKey(backends[n], labels) := Values(backends[n], labels)]
  }

  method Aggregate(backends: seq<Backend>, labels: seq<string>)
    returns (sums: map<string, Status>, labelValues: map<string, seq<string>>)
    ensures sums == Groups(backends, labels)
    ensures labelValues == LastVectors(backends, labels)
  {
    sums := map[];
    labelValues := map[];
    for n := 0 to |backends|
      invariant sums == Groups(backends[..n], labels)
      invariant labelValues == LastVectors(backends[..n], labels)
    {
      assert backends[..n + 1][..n] == backends[..n];
      var kv := LabelVector(backends[n], labels);
      var key := Join(kv, '-');
      assert key == GroupKey(backends[n], labels);
      var status := if key in sums then sums[key] else NO_STATUS;
      status := status.(activeConn := Add64(status.activeConn, backends[n].activeConn));
      status := status.(inactConn := Add64(status.inactConn, backends[n].inactConn));
      status := status.(weight := Add64(status.weight, backends[n].weight));
      sums := sums[key := status];
      labelValues := labelValues[key := kv];
    }
    assert backends[..|backends|] == backends;
  }

  /** The inner loop: the label values of one backend. */
  method LabelVector(b: Backend, labels: seq<string>) returns (kv: seq<string>)
    ensures kv == Values(b, labels)
    ensures labels == ["local_address", "local_port", "remote_address", "remote_port", "proto", "local_mark"] ==>
      kv == [if b.localAddress == "<nil>" then "" else b.localAddress, Decimal(b.localPort),
             b.remoteAddress, Decimal(b.remotePort), b.proto, b.localMark]
  {
    FullVector(b);
    kv := [];
    for i := 0 to |labels|
      invariant |kv| == i
      invariant forall k :: 0 <= k < i ==> kv[k] == LabelValue(b, labels[k])
    {
      kv := kv + [LabelValue(b, labels[i])];
    }
  }

  /** Each group holds the totals, modulo 2^64, of exactly its backends. */
  lemma {:induction false} GroupIsTotal(backends: seq<Backend>, labels: seq<string>, key: string)
    ensures key in Groups(backends, labels) <==> exists n :: 0 <= n < |backends| && GroupKey(backends[n], labels) == key
    ensures key in Groups(backends, labels) ==> Groups(backends, labels)[key] == GroupTotal(backends, labels, key)
    ensures key !in Groups(backends, labels) ==> GroupTotal(backends, labels, key) == NO_STATUS
    decreases |backends|
  {
    if backends != [] {
      var n := |backends| - 1;
      GroupIsTotal(backends[..n], labels, key);
      if key in Groups(backends[..n], labels) {
        var k :| 0 <= k < n && GroupKey(backends[..n][k], labels) == key;
        assert GroupKey(backends[k], labels) == key;
      }
      assert forall k :: 0 <= k < n ==> backends[..n][k] == backends[k];
    }
  }

  lemma {:induction false} VectorKeys(backends: seq<Backend>, labels: seq<string>)
    ensures LastVectors(backends, labels).Keys == Groups(backends, labels).Keys
    decreases |backends|
  {
    if backends != [] {
      VectorKeys(backends[..|backends| - 1], labels);
    }
  }

  /** The label values kept for a group are those of all its backends, when at
      most one chosen label can carry a dash. */
  lemma {:induction false} VectorFitsGroup(backends: seq<Backend>, labels: seq<string>, d: set<string>, k: nat)
    requires k < |backends| && forall j :: 0 <= j < |backends| ==> DashesOnlyIn(backends[j], d)
    requires AtMostOneOf(labels, d)
    ensures LastVectors(backends, labels).Keys == Groups(backends, labels).Keys
    ensures var key := GroupKey(backends[k], labels);
      key in LastVectors(backends, labels) && LastVectors(backends, labels)[key] == Values(backends[k], labels)
    decreases |backends|
  {
    var n := |backends| - 1;
    VectorKeys(backends, labels);
    if GroupKey(backends[n], labels) == GroupKey(backends[k], labels) {
      GroupingIsExact(backends[n], backends[k], labels, d);
      AgreeIffValues(backends[n], backends[k], labels);
    } else {
      VectorFitsGroup(backends[..n], labels, d, k);
    }
  }

  ghost predicate DashFree(values: seq<string>) {
    forall k :: 0 <= k < |values| ==> Without(values[k], '-')
  }

  /** Joining is injective on vectors of one length without dashes. */
  lemma JoinIsInjective(a: seq<string>, b: seq<string>)
    requires |a| == |b| && DashFree(a) && DashFree(b)
    ensures Join(a, '-') == Join(b, '-') <==> a == b
  {
    if a != [] {
      SplitJoin(a, '-');
      SplitJoin(b, '-');
    }
  }

  /** All parts but the one at p are without dashes. */
  ghost predicate DashFreeBut(values: seq<string>, p: nat) {
    forall k :: 0 <= k < |values| && k != p ==> Without(values[k], '-')
  }

  lemma SplitFirst(x: string, rest: seq<string>)
    requires rest != []
    ensures Split(Join([x] + rest, '-'), '-') == Split(x, '-') + Split(Join(rest, '-'), '-')
  {
    JoinConcat([x], rest, '-');
    SplitConcat(x, Join(rest, '-'), '-');
  }

  lemma {:induction false} SplitAt(parts: seq<string>, p: nat)
    requires p < |parts| && DashFreeBut(parts, p)
    ensures Split(Join(parts, '-'), '-') == parts[..p] + Split(parts[p], '-') + parts[p + 1..]
    decreases |parts|
  {
    if p > 0 {
      SplitPlain(parts[0], '-');
      assert forall k :: 1 <= k < |parts| ==> parts[1..][k - 1] == parts[k];
      SplitAt(parts[1..], p - 1);
      SplitAtStep(parts, p);
    } else if |parts| > 1 {
      SplitFirst(parts[0], parts[1..]);
      assert parts == [parts[0]] + parts[1..];
      SplitJoin(parts[1..], '-');
    }
  }

  lemma SplitAtStep(parts: seq<string>, p: nat)
    requires 0 < p < |parts| && Split(parts[0], '-') == [parts[0]]
    requires var rest := parts[1..];
      Split(Join(rest, '-'), '-') == rest[..p - 1] + Split(rest[p - 1], '-') + rest[p..]
    ensures Split(Join(parts, '-'), '-') == parts[..p] + Split(parts[p], '-') + parts[p + 1..]
  {
    var x, rest := parts[0], parts[1..];
    SplitFirst(x, rest);
    assert parts == [x] + rest;
    Shifted(x, rest, p, Split(parts[p], '-'));
  }

  lemma Shifted<T>(x: T, rest: seq<T>, p: nat, mid: seq<T>)
    requires 0 < p <= |rest|
    ensures [x] + (rest[..p - 1] + mid + rest[p..]) == ([x] + rest)[..p] + mid + ([x] + rest)[p + 1..]
  {
  }

  /** Joining stays injective when one and the same component may carry dashes. */
  lemma JoinIsInjectiveAt(a: seq<string>, b: seq<string>, p: nat)
    requires |a| == |b| && p < |a| && DashFreeBut(a, p) && DashFreeBut(b, p)
    ensures Join(a, '-') == Join(b, '-') <==> a == b
  {
    if Join(a, '-') == Join(b, '-') {
      SplitAt(a, p);
      SplitAt(b, p);
      SameMiddle(a[..p], Split(a[p], '-'), a[p + 1..], b[..p], Split(b[p], '-'), b[p + 1..]);
      SameSplit(a[p], b[p]);
      SameParts(a, b, p);
    }
  }

  lemma SameSplit(x: string, y: string)
    requires Split(x, '-') == Split(y, '-')
    ensures x == y
  {
    JoinSplit(x, '-');
    JoinSplit(y, '-');
  }

  lemma SameParts<T>(a: seq<T>, b: seq<T>, p: nat)
    requires p < |a| == |b| && a[..p] == b[..p] && a[p] == b[p] && a[p + 1..] == b[p + 1..]
    ensures a == b
  {
    assert a == a[..p] + [a[p]] + a[p + 1..] && b == b[..p] + [b[p]] + b[p + 1..];
  }

  lemma SameMiddle<T>(a: seq<T>, x: seq<T>, b: seq<T>, a': seq<T>, x': seq<T>, b': seq<T>)
    requires |a| == |a'| && |b| == |b'| && a + x + b == a' + x' + b'
    ensures a == a' && x == x' && b == b'
  {
    var s, n := a + x + b, |a| + |x|;
    assert s[..|a|] == a && s[|a|..n] == x && s[n..] == b;
    assert s[..|a|] == a' && s[|a|..n] == x' && s[n..] == b';
  }

  // ----- which labels can carry a dash

  /** The labels whose value is text; a port is printed in decimal. */
  const TEXT_LABELS: set<string> := {"local_address", "remote_address", "proto", "local_mark"}

  /** The backend has dashes at most in the labels of d. */
  ghost predicate DashesOnlyIn(b: Backend, d: set<string>) {
    forall l :: l in TEXT_LABELS && l !in d ==> Without(LabelValue(b, l), '-')
  }

  ghost predicate AtMostOneOf(labels: seq<string>, d: set<string>) {
    forall i, j :: 0 <= i < j < |labels| ==> labels[i] !in d || labels[j] !in d
  }

  ghost predicate Agree(a: Backend, b: Backend, labels: seq<string>) {
    forall l :: l in labels ==> LabelValue(a, l) == LabelValue(b, l)
  }

  lemma AgreeIffValues(a: Backend, b: Backend, labels: seq<string>)
    ensures Agree(a, b, labels) <==> Values(a, labels) == Values(b, labels)
  {
    if Values(a, labels) == Values(b, labels) {
      forall l | l in labels
        ensures LabelValue(a, l) == LabelValue(b, l)
      {
        var i :| 0 <= i < |labels| && labels[i] == l;
        assert Values(a, labels)[i] == Values(b, labels)[i];
      }
    }
  }

  lemma PortsAreDashFree(n: nat)
    ensures Without(Decimal(n), '-')
  {
    assert !IsDigit('-');
  }

  lemma DashFreeValues(b: Backend, labels: seq<string>, d: set<string>, p: nat)
    requires DashesOnlyIn(b, d) && forall k :: 0 <= k < |labels| && k != p ==> labels[k] !in d
    ensures DashFreeBut(Values(b, labels), p)
  {
    forall k | 0 <= k < |labels| && k != p
      ensures Without(Values(b, labels)[k], '-')
    {
      PortsAreDashFree(b.localPort);
      PortsAreDashFree(b.remotePort);
    }
  }

  /** With at most one chosen label that can carry a dash, two backends are in
      one group exactly when they agree on every chosen label. */
  lemma GroupingIsExact(a: Backend, b: Backend, labels: seq<string>, d: set<string>)
    requires DashesOnlyIn(a, d) && DashesOnlyIn(b, d) && AtMostOneOf(labels, d)
    ensures GroupKey(a, labels) == GroupKey(b, labels) <==> Agree(a, b, labels)
  {
    AgreeIffValues(a, b, labels);
    if labels != [] {
      var p: nat := 0;
      if k :| 0 <= k < |labels| && labels[k] in d {
        p := k;
      }
      DashFreeValues(a, labels, d, p);
      DashFreeValues(b, labels, d, p);
      JoinIsInjectiveAt(Values(a, labels), Values(b, labels), p);
    }
  }

  function WithText(b: Backend, name: string, v: string): Backend {
    if name == "local_address" then b.(localAddress := v)
    else if name == "remote_address" then b.(remoteAddress := v)
    else if name == "proto" then b.(proto := v)
    else b.(localMark := v)
  }

  lemma WithTextValue(b: Backend, name: string, v: string, l: string)
    requires name in TEXT_LABELS && v != "<nil>"
    ensures LabelValue(WithText(b, name, v), l) == if l == name then v else LabelValue(b, l)
  {
  }

  const BLANK := Backend("", 0, "", 0, "", "", 0, 0, 0)

  lemma BlankValue(l: string)
    ensures l in TEXT_LABELS ==> LabelValue(BLANK, l) == ""
    ensures Without(LabelValue(BLANK, l), '-')
  {
    DecimalValue(0);
    assert !IsDigit('-');
  }

  /** What stands between two components that have others in between. */
  function Between(middle: seq<string>): string {
    if middle == [] then "-" else "-" + Join(middle, '-') + "-"
  }

  lemma JoinBetween(x: string, middle: seq<string>, y: string)
    ensures Join([x] + middle + [y], '-') == x + Between(middle) + y
  {
    if middle == [] {
      assert [x] + middle + [y] == [x, y] && [x, y][1..] == [y];
    } else {
      JoinConcat([x] + middle, [y], '-');
      JoinConcat([x], middle, '-');
    }
  }

  /** Parts that join to the same can be exchanged within a list. */
  lemma JoinCongruent(pre: seq<string>, s: seq<string>, t: seq<string>, post: seq<string>)
    requires s != [] && t != [] && Join(s, '-') == Join(t, '-')
    ensures Join(pre + s + post, '-') == Join(pre + t + post, '-')
  {
    if pre != [] {
      JoinConcat(pre, s, '-');
      JoinConcat(pre, t, '-');
    } else {
      assert pre + s == s && pre + t == t;
    }
    if post != [] {
      JoinConcat(pre + s, post, '-');
      JoinConcat(pre + t, post, '-');
    } else {
      assert pre + s + post == pre + s && pre + t + post == pre + t;
    }
  }

  lemma ValuesOfText(labels: seq<string>, p: nat, v: string)
    requires Distinct(labels) && p < |labels| && labels[p] in TEXT_LABELS && v != "<nil>"
    ensures Values(WithText(BLANK, labels[p], v), labels) == Values(BLANK, labels)[p := v]
  {
    forall k | 0 <= k < |labels|
      ensures LabelValue(WithText(BLANK, labels[p], v), labels[k]) == Values(BLANK, labels)[p := v][k]
    {
      WithTextValue(BLANK, labels[p], v, labels[k]);
      assert k != p ==> labels[k] != labels[p];
    }
  }

  /** Two chosen labels that can carry a dash always admit two backends that
      differ in both, yet share a group: what stands between the two values is
      shifted from one to the other. */
  lemma DashMergesGroups(labels: seq<string>, i: nat, j: nat) returns (a: Backend, b: Backend)
    requires Distinct(labels) && i < j < |labels| && labels[i] in TEXT_LABELS && labels[j] in TEXT_LABELS
    ensures DashesOnlyIn(a, {labels[j]}) && DashesOnlyIn(b, {labels[i]})
    ensures GroupKey(a, labels) == GroupKey(b, labels)
    ensures LabelValue(a, labels[i]) != LabelValue(b, labels[i]) && LabelValue(a, labels[j]) != LabelValue(b, labels[j])
  {
    var blank := Values(BLANK, labels);
    var v := Between(blank[i + 1..j]);
    assert v[0] == '-';
    a, b := WithText(BLANK, labels[j], v), WithText(BLANK, labels[i], v);
    forall l
      ensures LabelValue(a, l) == if l == labels[j] then v else LabelValue(BLANK, l)
      ensures LabelValue(b, l) == if l == labels[i] then v else LabelValue(BLANK, l)
      ensures Without(LabelValue(BLANK, l), '-') && (l in TEXT_LABELS ==> LabelValue(BLANK, l) == "")
    {
      WithTextValue(BLANK, labels[j], v, l);
      WithTextValue(BLANK, labels[i], v, l);
      BlankValue(l);
    }
    ValuesOfText(labels, j, v);
    ValuesOfText(labels, i, v);
    ShiftedJoin(blank, i, j);
  }

  lemma ShiftedJoin(parts: seq<string>, i: nat, j: nat)
    requires i < j < |parts| && parts[i] == "" && parts[j] == ""
    ensures var v := Between(parts[i + 1..j]);
      Join(parts[i := v], '-') == Join(parts[j := v], '-')
  {
    var pre, middle, post := parts[..i], parts[i + 1..j], parts[j + 1..];
    var v := Between(middle);
    assert parts[j := v] == pre + ([""] + middle + [v]) + post;
    assert parts[i := v] == pre + ([v] + middle + [""]) + post;
    JoinBetween("", middle, v);
    JoinBetween(v, middle, "");
    assert "" + v + v == v + v + "";
    JoinCongruent(pre, [""] + middle + [v], [v] + middle + [""], post);
  }

  /** Groups are exactly the classes of backends that agree on the chosen labels. */
  ghost predicate KeysAreExact(labels: seq<string>, d: set<string>) {
    forall a: Backend, b: Backend :: DashesOnlyIn(a, d) && DashesOnlyIn(b, d) ==>
      (GroupKey(a, labels) == GroupKey(b, labels) <==> Agree(a, b, labels))
  }

  /** For the backends that have dashes at most in the labels of d, the joined
      keys are exact exactly when at most one label of d is chosen. */
  lemma KeysAreExactIff(labels: seq<string>, d: set<string>)
    requires Distinct(labels) && d <= TEXT_LABELS
    ensures KeysAreExact(labels, d) <==> AtMostOneOf(labels, d)
  {
    if AtMostOneOf(labels, d) {
      forall a: Backend, b: Backend | DashesOnlyIn(a, d) && DashesOnlyIn(b, d)
        ensures GroupKey(a, labels) == GroupKey(b, labels) <==> Agree(a, b, labels)
      {
        GroupingIsExact(a, b, labels, d);
      }
    } else {
      var i: nat, j: nat :| i < j < |labels| && labels[i] in d && labels[j] in d;
      var a, b := DashMergesGroups(labels, i, j);
      assert DashesOnlyIn(a, d) && DashesOnlyIn(b, d);
      assert !Agree(a, b, labels) by { assert labels[i] in labels; }
    }
  }

  /** Addresses and protocols never have a dash; only a mark could.  So for every
      list of labels that the parser accepts, the keys are exact. */
  lemma AcceptedListIsExact(labelString: string)
    ensures KeysAreExact(Choose(FULL_LABELS, ListedNames(labelString)), {"local_mark"})
  {
    var labels := Choose(FULL_LABELS, ListedNames(labelString));
    FullLabelsAreDistinct();
    ChooseKeepsDistinct(FULL_LABELS, ListedNames(labelString));
    KeysAreExactIff(labels, {"local_mark"});
  }

  lemma FullLabelsAreDistinct()
    ensures Distinct(FULL_LABELS)
  {
  }

  lemma {:induction false} ChooseKeepsDistinct(all: seq<string>, wanted: set<string>)
    requires Distinct(all)
    ensures Distinct(Choose(all, wanted))
    decreases |all|
  {
    if all != [] {
      var n := |all| - 1;
      ChooseKeepsDistinct(all[..n], wanted);
      ChooseKeepsWanted(all[..n], wanted);
      var before := Choose(all[..n], wanted);
      assert forall k :: 0 <= k < |before| ==> before[k] in before;
      assert forall k :: 0 <= k < n ==> all[..n][k] == all[k] != all[n];
    }
  }

  // ----- the same, told of the fields of a backend

  function AddressOrNone(address: string): string {
    if address == "<nil>" then "" else address
  }

  /** Under the full list of labels: every field in its own place. */
  lemma FullVector(b: Backend)
    ensures Values(b, ["local_address", "local_port", "remote_address", "remote_port", "proto", "local_mark"])
         == [if b.localAddress == "<nil>" then "" else b.localAddress, Decimal(b.localPort),
             b.remoteAddress, Decimal(b.remotePort), b.proto, b.localMark]
    ensures FULL_LABELS == ["local_address", "local_port", "remote_address", "remote_port", "proto", "local_mark"]
  {
  }

  /** The two backends have the same value in each field whose label is chosen. */
  ghost predicate SameFields(a: Backend, b: Backend, labels: seq<string>) {
    && ("local_address" in labels ==> AddressOrNone(a.localAddress) == AddressOrNone(b.localAddress))
    && ("local_port" in labels ==> a.localPort == b.localPort)
    && ("remote_address" in labels ==> a.remoteAddress == b.remoteAddress)
    && ("remote_port" in labels ==> a.remotePort == b.remotePort)
    && ("proto" in labels ==> a.proto == b.proto)
    && ("local_mark" in labels ==> a.localMark == b.localMark)
  }

  lemma DecimalInjective(m: nat, n: nat)
    ensures Decimal(m) == Decimal(n) <==> m == n
  {
    DecimalValue(m);
    DecimalValue(n);
  }

  lemma AgreeIffSameFields(a: Backend, b: Backend, labels: seq<string>)
    requires forall l :: l in labels ==> l in FULL_LABELS
    ensures Agree(a, b, labels) <==> SameFields(a, b, labels)
  {
    DecimalInjective(a.localPort, b.localPort);
    DecimalInjective(a.remotePort, b.remotePort);
    FullVector(a);
    if SameFields(a, b, labels) {
      forall l | l in labels
        ensures LabelValue(a, l) == LabelValue(b, l)
      {
        assert l == FULL_LABELS[0] || l == FULL_LABELS[1] || l == FULL_LABELS[2]
            || l == FULL_LABELS[3] || l == FULL_LABELS[4] || l == FULL_LABELS[5];
      }
    }
    if Agree(a, b, labels) {
      assert forall l :: l in labels ==> LabelValue(a, l) == LabelValue(b, l);
    }
  }

  /** For every accepted list: two backends without dashes in addresses and
      protocol share a group exactly when the fields of the chosen labels, as they
      stand in the record, are equal. */
  lemma GroupsAreByFields(labelString: string, a: Backend, b: Backend)
    requires Without(a.localAddress, '-') && Without(a.remoteAddress, '-') && Without(a.proto, '-')
    requires Without(b.localAddress, '-') && Without(b.remoteAddress, '-') && Without(b.proto, '-')
    ensures var labels := Choose(FULL_LABELS, ListedNames(labelString));
      Join(Values(a, labels), '-') == Join(Values(b, labels), '-') <==> SameFields(a, b, labels)
  {
    var labels := Choose(FULL_LABELS, ListedNames(labelString));
    ChooseKeepsWanted(FULL_LABELS, ListedNames(labelString));
    AcceptedListIsExact(labelString);
    assert DashesOnlyIn(a, {"local_mark"}) && DashesOnlyIn(b, {"local_mark"});
    AgreeIffSameFields(a, b, labels);
  }

  // ----- conservation

  datatype Field = ActiveConn | InactConn | Weight

  function Of(s: Status, f: Field): U64 {
    match f
    case ActiveConn => s.activeConn
    case InactConn => s.inactConn
    case Weight => s.weight
  }

  function OfBackend(b: Backend, f: Field): U64 {
    match f
    case ActiveConn => b.activeConn
    case InactConn => b.inactConn
    case Weight => b.weight
  }

  function BackendSum(backends: seq<Backend>, f: Field): nat {
    if backends == [] then 0
    else BackendSum(backends[..|backends| - 1], f) + OfBackend(backends[|backends| - 1], f)
  }

  function Column(groups: map<string, Status>, f: Field): map<string, U64> {
    map key | key in groups :: Of(groups[key], f)
  }

  /** Whatever the labels, and dashes or not: what is emitted over all groups adds
      up to what the backends have, modulo 2^64. */
  lemma {:induction false} GroupsConserve(backends: seq<Backend>, labels: seq<string>, f: Field)
    ensures Same64(Sum(Column(Groups(backends, labels), f)), BackendSum(backends, f))
    decreases |backends|
  {
    if backends == [] {
      assert Column(map[], f) == map[];
    } else {
      var n := |backends| - 1;
      GroupsConserve(backends[..n], labels, f);
      var before, key := Groups(backends[..n], labels), GroupKey(backends[n], labels);
      var was := if key in before then Of(before[key], f) else 0;
      ColumnStep(before, key, backends[n], f);
      AddedOnce(Sum(Column(before, f)), was, OfBackend(backends[n], f), BackendSum(backends[..n], f));
    }
  }

  lemma ColumnStep(before: map<string, Status>, key: string, b: Backend, f: Field)
    ensures var was := if key in before then Of(before[key], f) else 0;
      Sum(Column(before[key := Plus(if key in before then before[key] else NO_STATUS, b)], f))
      == Sum(Column(before, f)) + Add64(was, OfBackend(b, f)) - was
  {
    var s := Plus(if key in before then before[key] else NO_STATUS, b);
    SumUpdate(Column(before, f), key, Of(s, f));
    assert Column(before[key := s], f) == Column(before, f)[key := Of(s, f)];
  }

  lemma AddedOnce(sum: int, was: U64, x: U64, total: int)
    requires Same64(sum, total)
    ensures Same64(sum + Add64(was, x) - was, total + x)
  {
  }
}
