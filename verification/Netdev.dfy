/** The legacy renaming of network device statistics: an in-place rewrite of
    one device's map, proved equal to one simultaneous rename-and-fold. */
module Netdev {
  import opened MapSums
  import opened Strings

  type Metrics = map<string, U64>

  /** When the first source is present, all sources are folded into the target. */
  datatype Rule = Rule(sources: seq<string>, target: string)

  const RULES: seq<Rule> := [
    Rule(["receive_errors"], "receive_errs"),
    Rule(["receive_dropped", "receive_missed_errors"], "receive_drop"),
    Rule(["receive_fifo_errors"], "receive_fifo"),
    Rule(["receive_frame_errors", "receive_length_errors", "receive_over_errors", "receive_crc_errors"], "receive_frame"),
    Rule(["multicast"], "receive_multicast"),
    Rule(["transmit_errors"], "transmit_errs"),
    Rule(["transmit_dropped"], "transmit_drop"),
    Rule(["transmit_fifo_errors"], "transmit_fifo"),
    Rule(["collisions"], "transmit_colls"),
    Rule(["transmit_carrier_errors", "transmit_aborted_errors", "transmit_heartbeat_errors", "transmit_window_errors"], "transmit_carrier")
  ]

  // ----- one rule after the other

  function At(m: Metrics, key: string): U64 {
    if key in m then m[key] else 0
  }

  function SumOf(m: Metrics, keys: seq<string>): nat {
    if keys == [] then 0 else At(m, keys[0]) + SumOf(m, keys[1..])
  }

  function Drop(m: Metrics, keys: seq<string>): Metrics {
    map k | k in m && k !in keys :: m[k]
  }

  predicate Active(m: Metrics, r: Rule) {
    r.sources != [] && r.sources[0] in m
  }

  function Apply(m: Metrics, r: Rule): Metrics {
    if Active(m, r) then Drop(m, r.sources)[r.target := SumOf(m, r.sources) % TWO_64] else m
  }

  function ApplyAll(m: Metrics, rules: seq<Rule>): Metrics {
    if rules == [] then m
    else Apply(ApplyAll(m, rules[..|rules| - 1]), rules[|rules| - 1])
  }

  lemma ApplyNext(m: Metrics, k: nat)
    requires k < |RULES|
    ensures ApplyAll(m, RULES[..k + 1]) == Apply(ApplyAll(m, RULES[..k]), RULES[k])
  {
    assert RULES[..k + 1][..k] == RULES[..k];
  }

  lemma ApplyOne(m: Metrics, s: string, t: string)
    ensures Apply(m, Rule([s], t)) == if s in m then (m - {s})[t := m[s]] else m
  {
    assert SumOf(m, [s]) == At(m, s) + SumOf(m, []);
    assert Drop(m, [s]) == m - {s};
  }

  lemma ApplyTwo(m: Metrics, a: string, b: string, t: string)
    requires a != b
    ensures Apply(m, Rule([a, b], t)) == if a in m then (m - {a} - {b})[t := Add64(m[a], At(m - {a}, b))] else m
  {
    assert [a, b][1..] == [b];
    assert SumOf(m, [b]) == At(m, b) + SumOf(m, []);
    assert Drop(m, [a, b]) == m - {a} - {b};
  }

  lemma SumOfFour(m: Metrics, a: string, b: string, c: string, d: string)
    ensures SumOf(m, [a, b, c, d]) == At(m, a) + At(m, b) + At(m, c) + At(m, d)
  {
    assert [a, b, c, d][1..] == [b, c, d] && [b, c, d][1..] == [c, d] && [c, d][1..] == [d];
    assert SumOf(m, [d]) == At(m, d) + SumOf(m, []);
    assert SumOf(m, [c, d]) == At(m, c) + SumOf(m, [d]);
    assert SumOf(m, [b, c, d]) == At(m, b) + SumOf(m, [c, d]);
  }

  lemma DropFour(m: Metrics, a: string, b: string, c: string, d: string)
    ensures Drop(m, [a, b, c, d]) == m - {a} - {b} - {c} - {d}
  {
  }

  lemma AddFour(w: U64, x: U64, y: U64, z: U64)
    ensures Add64(Add64(Add64(w, x), y), z) == (w + x + y + z) % TWO_64
  {
    AddWraps(w + x, y);
    AddWraps(w + x + y, z);
  }

  lemma AtFour(m: Metrics, a: string, b: string, c: string, d: string)
    requires a != b && a != c && a != d && b != c && b != d && c != d
    ensures At(m - {a}, b) == At(m, b) && At(m - {a} - {b}, c) == At(m, c) && At(m - {a} - {b} - {c}, d) == At(m, d)
  {
  }

  lemma ApplyFour(m: Metrics, a: string, b: string, c: string, d: string, t: string)
    requires a != b && a != c && a != d && b != c && b != d && c != d
    ensures Apply(m, Rule([a, b, c, d], t)) == if a in m then
        (m - {a} - {b} - {c} - {d})[t := Add64(Add64(Add64(m[a], At(m - {a}, b)), At(m - {a} - {b}, c)), At(m - {a} - {b} - {c}, d))]
      else m
  {
    var keys := [a, b, c, d];
    SumOfFour(m, a, b, c, d);
    AtFour(m, a, b, c, d);
    AddFour(At(m, a), At(m, b), At(m, c), At(m, d));
    DropFour(m, a, b, c, d);
    assert Apply(m, Rule(keys, t)) == if a in m then Drop(m, keys)[t := SumOf(m, keys) % TWO_64] else m;
  }

  // ----- the rewrite, in place

  class DeviceStats {
    var metrics: Metrics

    constructor (m: Metrics)
      ensures metrics == m
    {
      metrics := m;
    }

    method Pop(key: string) returns (value: U64, ok: bool)
      modifies this
      ensures ok <==> key in old(metrics)
      ensures value == At(old(metrics), key)
      ensures metrics == old(metrics) - {key}
    {
      ok := key in metrics;
      value := if ok then metrics[key] else 0;
      metrics := metrics - {key};
    }

    method Popz(key: string) returns (value: U64)
      modifies this
      ensures value == At(old(metrics), key)
      ensures metrics == old(metrics) - {key}
    {
      if key in metrics {
        value := metrics[key];
        metrics := metrics - {key};
        return;
      }
      assert metrics - {key} == metrics;
      value := 0;
    }

    /** A plain renaming: `if metric, ok := pop(metrics, s); ok { metrics[t] = metric }`. */
    method Rename(s: string, t: string)
      modifies this
      ensures metrics == Apply(old(metrics), Rule([s], t))
    {
      ApplyOne(metrics, s, t);
      var metric, ok := Pop(s);
      if ok {
        metrics := metrics[t := metric];
      } else {
        assert metrics == old(metrics);
      }
    }

    method ReceiveDrop()
      modifies this
      ensures metrics == Apply(old(metrics), RULES[1])
    {
      ApplyTwo(metrics, "receive_dropped", "receive_missed_errors", "receive_drop");
      var metric, ok := Pop("receive_dropped");
      if ok {
        var missed := Popz("receive_missed_errors");
        metrics := metrics["receive_drop" := Add64(metric, missed)];
      } else {
        assert metrics == old(metrics);
      }
    }

    method ReceiveFrame()
      modifies this
      ensures metrics == Apply(old(metrics), RULES[3])
    {
      ApplyFour(metrics, "receive_frame_errors", "receive_length_errors", "receive_over_errors", "receive_crc_errors", "receive_frame");
      var metric, ok := Pop("receive_frame_errors");
      if ok {
        var length := Popz("receive_length_errors");
        var over := Popz("receive_over_errors");
        var crc := Popz("receive_crc_errors");
        metrics := metrics["receive_frame" := Add64(Add64(Add64(metric, length), over), crc)];
      } else {
        assert metrics == old(metrics);
      }
    }

    method TransmitCarrier()
      modifies this
      ensures metrics == Apply(old(metrics), RULES[9])
    {
      ApplyFour(metrics, "transmit_carrier_errors", "transmit_aborted_errors", "transmit_heartbeat_errors", "transmit_window_errors", "transmit_carrier");
      var metric, ok := Pop("transmit_carrier_errors");
      if ok {
        var aborted := Popz("transmit_aborted_errors");
        var heartbeat := Popz("transmit_heartbeat_errors");
        var window := Popz("transmit_window_errors");
        metrics := metrics["transmit_carrier" := Add64(Add64(Add64(metric, aborted), heartbeat), window)];
      } else {
        assert metrics == old(metrics);
      }
    }

    /** The whole rewrite.  "multicast" is renamed twice; the second time finds
        nothing to do. */
    method Legacy()
      modifies this
      ensures metrics == ApplyAll(old(metrics), RULES)
    {
      ghost var m := metrics;
      assert RULES[..0] == [];
      Rename("receive_errors", "receive_errs");
      ApplyNext(m, 0);
      ReceiveDrop();
      ApplyNext(m, 1);
      Rename("receive_fifo_errors", "receive_fifo");
      ApplyNext(m, 2);
      ReceiveFrame();
      ApplyNext(m, 3);
      Rename("multicast", "receive_multicast");
      ApplyNext(m, 4);
      Rename("transmit_errors", "transmit_errs");
      ApplyNext(m, 5);
      Rename("transmit_dropped", "transmit_drop");
      ApplyNext(m, 6);
      Rename("transmit_fifo_errors", "transmit_fifo");
      ApplyNext(m, 7);
      RulesAreDisjoint();
      PrefixIsDisjoint(RULES, 8);
      SourceIsGone(m, RULES[..8], 4);
      Rename("multicast", "receive_multicast");
      Rename("collisions", "transmit_colls");
      ApplyNext(m, 8);
      TransmitCarrier();
      ApplyNext(m, 9);
      assert RULES[..10] == RULES;
    }
  }

  // ----- all rules at once

  function Names(r: Rule): seq<string> { r.sources + [r.target] }

  /** Every rule has a source, and no name occurs twice, in one rule or in two. */
  ghost predicate Disjoint(rules: seq<Rule>) {
    && (forall a :: 0 <= a < |rules| ==> rules[a].sources != [] && Distinct(Names(rules[a])))
    && (forall a, b, x :: 0 <= a < b < |rules| && x in Names(rules[a]) ==> x !in Names(rules[b]))
  }

  /** What the rewrite means for one key, told from the original map alone: the
      target of an active rule gets the sum of its sources, the sources of an
      active rule are gone, every other key is as before. */
  ghost predicate Folded(m: Metrics, rules: seq<Rule>, out: Metrics, k: string) {
    && (forall a :: 0 <= a < |rules| && Active(m, rules[a]) && rules[a].target == k ==>
          k in out && out[k] == SumOf(m, rules[a].sources) % TWO_64)
    && (forall a :: 0 <= a < |rules| && Active(m, rules[a]) && k in rules[a].sources ==> k !in out)
    && ((forall a :: 0 <= a < |rules| && Active(m, rules[a]) ==> k !in Names(rules[a])) ==>
          (k in out <==> k in m) && (k in m ==> out[k] == m[k]))
  }

  lemma {:induction false} SumOfAgrees(m: Metrics, n: Metrics, keys: seq<string>)
    requires forall k :: k in keys ==> (k in m <==> k in n) && (k in m ==> m[k] == n[k])
    ensures SumOf(m, keys) == SumOf(n, keys)
  {
    if keys != [] {
      SumOfAgrees(m, n, keys[1..]);
    }
  }

  /** The pops of `Legacy`, one after the other, do what one simultaneous rename
      and fold of the original map would do. */
  lemma {:induction false} SequenceIsSimultaneous(m: Metrics, rules: seq<Rule>, k: string)
    requires Disjoint(rules)
    ensures Folded(m, rules, ApplyAll(m, rules), k)
    decreases |rules|
  {
    if rules != [] {
      var n := |rules| - 1;
      var before, r := rules[..n], rules[n];
      assert forall a :: 0 <= a < n ==> before[a] == rules[a];
      assert Disjoint(before);
      var mid := ApplyAll(m, before);
      SequenceIsSimultaneous(m, before, k);
      forall x | x in Names(r)
        ensures (x in mid <==> x in m) && (x in m ==> mid[x] == m[x])
      {
        SequenceIsSimultaneous(m, before, x);
        assert Folded(m, before, mid, x);
      }
      assert r.sources[0] in Names(r);
      assert Active(mid, r) <==> Active(m, r);
      SumOfAgrees(mid, m, r.sources);
      LastRuleFolds(m, rules, mid, k);
    }
  }

  lemma LastRuleFolds(m: Metrics, rules: seq<Rule>, mid: Metrics, k: string)
    requires rules != [] && Disjoint(rules)
    requires var before, r := rules[..|rules| - 1], rules[|rules| - 1];
      && Folded(m, before, mid, k)
      && (Active(mid, r) <==> Active(m, r)) && SumOf(mid, r.sources) == SumOf(m, r.sources)
      && forall x :: x in Names(r) ==> (x in mid <==> x in m) && (x in m ==> mid[x] == m[x])
    ensures Folded(m, rules, Apply(mid, rules[|rules| - 1]), k)
  {
    var n := |rules| - 1;
    var r := rules[n];
    var out := Apply(mid, r);
    assert forall a :: 0 <= a < n ==> rules[..n][a] == rules[a];
    assert forall j :: 0 <= j < |r.sources| ==> r.sources[j] == Names(r)[j] != Names(r)[|r.sources|];
    assert r.target == Names(r)[|r.sources|] && r.target !in r.sources;
    if Active(m, r) && k in Names(r) {
      assert forall a :: 0 <= a < n ==> k !in Names(rules[a]);
      assert forall a :: 0 <= a < n && rules[a].target == k ==> k in Names(rules[a]);
    } else {
      assert (k in out <==> k in mid) && (k in mid ==> out[k] == mid[k]);
    }
  }

  lemma SourceIsGone(m: Metrics, rules: seq<Rule>, a: nat)
    requires Disjoint(rules) && a < |rules|
    ensures rules[a].sources[0] !in ApplyAll(m, rules)
  {
    var k := rules[a].sources[0];
    SequenceIsSimultaneous(m, rules, k);
    assert k in Names(rules[a]);
    if !Active(m, rules[a]) {
      assert forall b :: 0 <= b < |rules| && b != a ==> k !in Names(rules[b]);
    }
  }

  /** The names of all rules in a row, and where the names of each rule start. */
  const RECEIVE_NAMES: seq<string> := [
    "receive_errors", "receive_errs",
    "receive_dropped", "receive_missed_errors", "receive_drop",
    "receive_fifo_errors", "receive_fifo",
    "receive_frame_errors", "receive_length_errors", "receive_over_errors", "receive_crc_errors", "receive_frame",
    "multicast", "receive_multicast"
  ]

  const TRANSMIT_NAMES: seq<string> := [
    "transmit_errors", "transmit_errs",
    "transmit_dropped", "transmit_drop",
    "transmit_fifo_errors", "transmit_fifo",
    "collisions", "transmit_colls",
    "transmit_carrier_errors", "transmit_aborted_errors", "transmit_heartbeat_errors", "transmit_window_errors", "transmit_carrier"
  ]

  const NAMES := RECEIVE_NAMES + TRANSMIT_NAMES

  const STARTS: seq<nat> := [0, 2, 5, 7, 12, 14, 16, 18, 20, 22, 27]

  lemma DistinctParts(a: seq<string>, b: seq<string>)
    requires Distinct(a) && Distinct(b)
    requires forall i, j :: 0 <= i < |a| && 0 <= j < |b| ==> a[i] != b[j]
    ensures Distinct(a + b)
  {
  }

  predicate StartsWithAny(s: string, chars: string) {
    s != "" && s[0] in chars
  }

  lemma ReceiveNamesAreDistinct()
    ensures Distinct(RECEIVE_NAMES) && forall i :: 0 <= i < |RECEIVE_NAMES| ==> StartsWithAny(RECEIVE_NAMES[i], "rm")
  {
  }

  lemma TransmitNamesAreDistinct()
    ensures Distinct(TRANSMIT_NAMES) && forall i :: 0 <= i < |TRANSMIT_NAMES| ==> StartsWithAny(TRANSMIT_NAMES[i], "tc")
  {
  }

  lemma NamesAreDistinct()
    ensures Distinct(NAMES)
  {
    ReceiveNamesAreDistinct();
    TransmitNamesAreDistinct();
    DistinctParts(RECEIVE_NAMES, TRANSMIT_NAMES);
  }

  ghost predicate IsSlice(r: Rule, names: seq<string>, starts: seq<nat>, a: nat) {
    && a + 1 < |starts| && starts[a] < starts[a + 1] <= |names|
    && r.sources != [] && Names(r) == names[starts[a]..starts[a + 1]]
  }

  lemma ReceiveRuleNames()
    ensures forall a: nat {:trigger RULES[a]} :: a < 5 ==> IsSlice(RULES[a], NAMES, STARTS, a)
  {
    assert Names(RULES[0]) == ["receive_errors", "receive_errs"] == NAMES[0..2];
    assert NAMES[2..5] == [NAMES[2], NAMES[3], NAMES[4]] == Names(RULES[1]);
    assert NAMES[5..7] == [NAMES[5], NAMES[6]] == Names(RULES[2]);
    assert Names(RULES[3]) == ["receive_frame_errors", "receive_length_errors", "receive_over_errors", "receive_crc_errors", "receive_frame"] == NAMES[7..12];
    assert Names(RULES[4]) == ["multicast", "receive_multicast"] == NAMES[12..14];
  }

  lemma TransmitRuleNames()
    ensures forall a: nat {:trigger RULES[a]} :: 5 <= a < 10 ==> IsSlice(RULES[a], NAMES, STARTS, a)
  {
    assert Names(RULES[5]) == ["transmit_errors", "transmit_errs"] == NAMES[14..16];
    assert Names(RULES[6]) == ["transmit_dropped", "transmit_drop"] == NAMES[16..18];
    assert Names(RULES[7]) == ["transmit_fifo_errors", "transmit_fifo"] == NAMES[18..20];
    assert Names(RULES[8]) == ["collisions", "transmit_colls"] == NAMES[20..22];
    assert Names(RULES[9]) == ["transmit_carrier_errors", "transmit_aborted_errors", "transmit_heartbeat_errors", "transmit_window_errors", "transmit_carrier"] == NAMES[22..27];
  }

  lemma SlicesAreDisjoint(s: seq<string>, a: nat, b: nat, c: nat, d: nat, x: string)
    requires a <= b <= c <= d <= |s| && Distinct(s) && x in s[a..b]
    ensures x !in s[c..d]
  {
    var i :| 0 <= i < b - a && s[a..b][i] == x;
    forall j | 0 <= j < d - c
      ensures s[c..d][j] != x
    {
      assert s[a + i] != s[c + j];
    }
  }

  lemma SlicedRulesAreDisjoint(rules: seq<Rule>, names: seq<string>, starts: seq<nat>)
    requires Distinct(names) && |starts| == |rules| + 1
    requires forall a :: 0 <= a < |rules| ==> IsSlice(rules[a], names, starts, a)
    requires forall a, b :: 0 <= a < b < |starts| ==> starts[a] <= starts[b]
    ensures Disjoint(rules)
  {
    forall a, b, x | 0 <= a < b < |rules| && x in Names(rules[a])
      ensures x !in Names(rules[b])
    {
      assert IsSlice(rules[a], names, starts, a) && IsSlice(rules[b], names, starts, b);
      SlicesAreDisjoint(names, starts[a], starts[a + 1], starts[b], starts[b + 1], x);
    }
  }

  lemma RulesAreDisjoint()
    ensures Disjoint(RULES)
  {
    NamesAreDistinct();
    ReceiveRuleNames();
    TransmitRuleNames();
    SlicedRulesAreDisjoint(RULES, NAMES, STARTS);
  }

  lemma PrefixIsDisjoint(rules: seq<Rule>, n: nat)
    requires Disjoint(rules) && n <= |rules|
    ensures Disjoint(rules[..n])
  {
  }

  lemma {:induction false} InactiveRulesDoNothing(m: Metrics, rules: seq<Rule>)
    requires forall a :: 0 <= a < |rules| ==> !Active(m, rules[a])
    ensures ApplyAll(m, rules) == m
    decreases |rules|
  {
    if rules != [] {
      InactiveRulesDoNothing(m, rules[..|rules| - 1]);
    }
  }

  /** Rewriting a rewritten map changes nothing. */
  lemma LegacyIsIdempotent(m: Metrics)
    ensures ApplyAll(ApplyAll(m, RULES), RULES) == ApplyAll(m, RULES)
  {
    RulesAreDisjoint();
    forall a | 0 <= a < |RULES|
      ensures !Active(ApplyAll(m, RULES), RULES[a])
    {
      SourceIsGone(m, RULES, a);
    }
    InactiveRulesDoNothing(ApplyAll(m, RULES), RULES);
  }

  // ----- conservation

  lemma {:induction false} SumDrop(m: Metrics, keys: seq<string>)
    requires Distinct(keys)
    ensures Sum(Drop(m, keys)) + SumOf(m, keys) == Sum(m)
    decreases |keys|
  {
    if keys == [] {
      assert Drop(m, keys) == m;
    } else {
      var k, rest := keys[0], keys[1..];
      assert forall j :: 0 <= j < |rest| ==> rest[j] == keys[j + 1];
      assert k !in rest;
      SumDrop(m - {k}, rest);
      assert keys == [k] + rest;
      assert Drop(m, keys) == Drop(m - {k}, rest);
      SumOfAgrees(m - {k}, m, rest);
      if k in m {
        SumWithout(m, k);
      } else {
        assert m - {k} == m;
      }
    }
  }

  /** The values that active rules overwrite: targets that were there already. */
  function Overwritten(m: Metrics, rules: seq<Rule>): nat {
    if rules == [] then 0
    else
      var r := rules[|rules| - 1];
      Overwritten(m, rules[..|rules| - 1]) + if Active(m, r) then At(m, r.target) else 0
  }

  lemma RuleConserves(m: Metrics, r: Rule)
    requires Distinct(Names(r))
    ensures Same64(Sum(Apply(m, r)) + (if Active(m, r) then At(m, r.target) else 0), Sum(m))
  {
    if Active(m, r) {
      assert forall j :: 0 <= j < |r.sources| ==> Names(r)[j] == r.sources[j];
      assert Names(r)[|r.sources|] == r.target;
      SumDrop(m, r.sources);
      var rest, total := Drop(m, r.sources), SumOf(m, r.sources);
      SumUpdate(rest, r.target, total % TWO_64);
      assert At(rest, r.target) == At(m, r.target);
      assert Sum(Apply(m, r)) + At(m, r.target) - Sum(m) == total % TWO_64 - total;
      assert total == TWO_64 * (total / TWO_64) + total % TWO_64;
      MultipleIsZero(-(total / TWO_64));
    }
  }

  lemma MultipleIsZero(q: int)
    ensures (TWO_64 * q) % TWO_64 == 0
  {
  }

  /** For every map: the sum of all values, plus what was overwritten, is the
      sum before, modulo 2^64. */
  lemma {:induction false} RewriteConserves(m: Metrics, rules: seq<Rule>)
    requires Disjoint(rules)
    ensures Same64(Sum(ApplyAll(m, rules)) + Overwritten(m, rules), Sum(m))
    decreases |rules|
  {
    if rules != [] {
      var n := |rules| - 1;
      var before, r := rules[..n], rules[n];
      assert forall a :: 0 <= a < n ==> before[a] == rules[a];
      RewriteConserves(m, before);
      var mid := ApplyAll(m, before);
      RuleConserves(mid, r);
      assert r.sources[0] == Names(r)[0] && r.target == Names(r)[|r.sources|];
      UntouchedName(m, rules, r.sources[0]);
      UntouchedName(m, rules, r.target);
      SameAdds(Sum(ApplyAll(m, rules)), At(mid, r.target), Sum(mid), Overwritten(m, before), Sum(m));
    }
  }

  lemma UntouchedName(m: Metrics, rules: seq<Rule>, x: string)
    requires rules != [] && Disjoint(rules) && x in Names(rules[|rules| - 1])
    ensures var mid := ApplyAll(m, rules[..|rules| - 1]);
      (x in mid <==> x in m) && At(mid, x) == At(m, x)
  {
    var before := rules[..|rules| - 1];
    assert forall a :: 0 <= a < |before| ==> before[a] == rules[a];
    SequenceIsSimultaneous(m, before, x);
  }

  lemma SameAdds(out: int, over: int, mid: int, rest: int, all: int)
    requires Same64(mid + rest, all)
    ensures Same64(out + over, mid) ==> Same64(out + (rest + over), all)
    ensures Same64(out, mid) ==> Same64(out + rest, all)
  {
  }

  /** The sum of all values is preserved exactly when what was overwritten adds
      up to 0; it is when no target is there next to its source. */
  lemma SumPreservedIff(m: Metrics)
    ensures Same64(Sum(ApplyAll(m, RULES)), Sum(m)) <==> Overwritten(m, RULES) % TWO_64 == 0
    ensures NoClash(m, RULES) ==> Same64(Sum(ApplyAll(m, RULES)), Sum(m))
  {
    RulesAreDisjoint();
    RewriteConserves(m, RULES);
    if NoClash(m, RULES) {
      NoClashNoLoss(m, RULES);
    }
  }

  ghost predicate NoClash(m: Metrics, rules: seq<Rule>) {
    forall a :: 0 <= a < |rules| && Active(m, rules[a]) ==> rules[a].target !in m
  }

  lemma {:induction false} NoClashNoLoss(m: Metrics, rules: seq<Rule>)
    requires NoClash(m, rules)
    ensures Overwritten(m, rules) == 0
    decreases |rules|
  {
    if rules != [] {
      NoClashNoLoss(m, rules[..|rules| - 1]);
    }
  }

  // ----- the two places the maps come from

  const SOURCES: seq<string> := [
    "receive_errors", "receive_dropped", "receive_missed_errors", "receive_fifo_errors",
    "receive_frame_errors", "receive_length_errors", "receive_over_errors", "receive_crc_errors",
    "multicast", "transmit_errors", "transmit_dropped", "transmit_fifo_errors", "collisions",
    "transmit_carrier_errors", "transmit_aborted_errors", "transmit_heartbeat_errors", "transmit_window_errors"
  ]

  const TARGETS: seq<string> := [
    "receive_errs", "receive_drop", "receive_fifo", "receive_frame", "receive_multicast",
    "transmit_errs", "transmit_drop", "transmit_fifo", "transmit_colls", "transmit_carrier"
  ]

  /** The names that no rule mentions. */
  const UNTOUCHED: seq<string> := [
    "receive_packets", "transmit_packets", "receive_bytes", "transmit_bytes", "receive_compressed", "transmit_compressed",
    "receive_nohandler"
  ]

  /** In /proc/net/dev: the sources that are there, and the targets that are. */
  const PROCFS_SOURCES: seq<string> := ["receive_errors", "receive_dropped", "transmit_errors", "transmit_dropped"]

  const PROCFS_TARGETS: seq<string> := [
    "receive_fifo", "receive_frame", "receive_multicast", "transmit_fifo", "transmit_colls", "transmit_carrier"
  ]

  /** The keys of a map made from netlink statistics. */
  ghost predicate FromNetlink(m: Metrics) {
    forall k :: k in m <==> k in SOURCES || k in UNTOUCHED
  }

  /** The keys of a map made from /proc/net/dev. */
  ghost predicate FromProcfs(m: Metrics) {
    forall k :: k in m <==> k in PROCFS_SOURCES || k in PROCFS_TARGETS || k in UNTOUCHED[..6]
  }

  lemma NoCommon(a: seq<string>, b: seq<string>, x: string)
    requires Distinct(a + b) && x in a
    ensures x !in b
  {
    var i :| 0 <= i < |a| && a[i] == x;
    forall j | 0 <= j < |b|
      ensures b[j] != x
    {
      assert (a + b)[i] != (a + b)[|a| + j];
    }
  }

  lemma SourcesAreDistinct()
    ensures Distinct(SOURCES)
  {
  }

  lemma SourcesAreTouched()
    ensures forall i, j :: 0 <= i < |SOURCES| && 0 <= j < |UNTOUCHED| ==> SOURCES[i] != UNTOUCHED[j]
  {
  }

  lemma UntouchedAreDistinct()
    ensures Distinct(UNTOUCHED)
  {
  }

  lemma SourcesAndUntouched()
    ensures Distinct(SOURCES + UNTOUCHED)
  {
    SourcesAreDistinct();
    UntouchedAreDistinct();
    SourcesAreTouched();
    DistinctParts(SOURCES, UNTOUCHED);
  }

  lemma TargetsAndUntouched()
    ensures Distinct(TARGETS + UNTOUCHED)
  {
  }

  lemma RulesInOrder()
    ensures |RULES| == |TARGETS| && forall a :: 0 <= a < |RULES| ==> RULES[a].target == TARGETS[a]
    ensures forall a, x :: 0 <= a < |RULES| && x in RULES[a].sources ==> x in SOURCES
    ensures forall x :: x in SOURCES ==> exists a :: 0 <= a < |RULES| && x in RULES[a].sources
  {
    var owner := [0, 1, 1, 2, 3, 3, 3, 3, 4, 5, 6, 7, 8, 9, 9, 9, 9];
    assert forall i :: 0 <= i < |SOURCES| ==> SOURCES[i] in RULES[owner[i]].sources;
  }

  lemma TargetIsNoSource(rules: seq<Rule>, a: nat, k: string)
    requires Disjoint(rules) && a < |rules|
    ensures k in Names(rules[a]) <==> k in rules[a].sources || k == rules[a].target
    ensures k == rules[a].target ==> forall b :: 0 <= b < |rules| ==> k !in rules[b].sources
  {
    var r := rules[a];
    assert forall j :: 0 <= j < |r.sources| ==> r.sources[j] == Names(r)[j] != Names(r)[|r.sources|];
    assert r.target == Names(r)[|r.sources|];
    if k == r.target {
      forall b | 0 <= b < |rules| && b != a
        ensures k !in rules[b].sources
      {
        assert k !in Names(rules[b]);
        assert forall j :: 0 <= j < |rules[b].sources| ==> rules[b].sources[j] == Names(rules[b])[j];
      }
    }
  }

  /** Which keys the rewritten map has. */
  lemma KeyAfter(m: Metrics, rules: seq<Rule>, k: string)
    requires Disjoint(rules)
    ensures k in ApplyAll(m, rules) <==>
      || (exists a :: 0 <= a < |rules| && Active(m, rules[a]) && rules[a].target == k)
      || (k in m && forall a :: 0 <= a < |rules| && Active(m, rules[a]) ==> k !in rules[a].sources)
  {
    SequenceIsSimultaneous(m, rules, k);
    forall a | 0 <= a < |rules|
      ensures k in Names(rules[a]) <==> k in rules[a].sources || k == rules[a].target
      ensures k == rules[a].target ==> forall b :: 0 <= b < |rules| ==> k !in rules[b].sources
    {
      TargetIsNoSource(rules, a, k);
    }
  }

  /** A map with all the sources and some untouched keys becomes one with all
      the targets and those keys. */
  lemma AllRulesActive(m: Metrics, rules: seq<Rule>, sources: seq<string>, targets: seq<string>, untouched: seq<string>, k: string)
    requires Disjoint(rules) && Distinct(sources + untouched) && Distinct(targets + untouched)
    requires |rules| == |targets| && forall a :: 0 <= a < |rules| ==> rules[a].target == targets[a]
    requires forall a, x :: 0 <= a < |rules| && x in rules[a].sources ==> x in sources
    requires forall x :: x in sources ==> exists a :: 0 <= a < |rules| && x in rules[a].sources
    requires forall x :: x in m <==> x in sources || x in untouched
    ensures NoClash(m, rules)
    ensures k in ApplyAll(m, rules) <==> k in targets || k in untouched
  {
    KeyAfter(m, rules, k);
    forall a | 0 <= a < |rules|
      ensures Active(m, rules[a]) && rules[a].target !in m
    {
      assert rules[a].sources[0] in rules[a].sources;
      NoCommon(targets, untouched, targets[a]);
      TargetIsNoSource(rules, a, targets[a]);
    }
    if k in sources {
      NoCommon(sources, untouched, k);
    }
    if k in targets {
      var a :| 0 <= a < |targets| && targets[a] == k;
      assert Active(m, rules[a]) && rules[a].target == k;
    }
  }

  lemma NetlinkNames(m: Metrics, k: string)
    requires FromNetlink(m)
    ensures NoClash(m, RULES)
    ensures k in ApplyAll(m, RULES) <==> k in TARGETS || k in UNTOUCHED
  {
    RulesInOrder();
    RulesAreDisjoint();
    SourcesAndUntouched();
    TargetsAndUntouched();
    AllRulesActive(m, RULES, SOURCES, TARGETS, UNTOUCHED, k);
  }

  /** A map that has, of every rule, either the first source and not the target,
      or the target and no source, becomes one with all the targets. */
  lemma SomeRulesActive(m: Metrics, rules: seq<Rule>, first: seq<string>, there: seq<string>, targets: seq<string>, untouched: seq<string>, k: string)
    requires Disjoint(rules) && Distinct(targets + untouched)
    requires |rules| == |targets| && forall a :: 0 <= a < |rules| ==> rules[a].target == targets[a]
    requires forall a :: 0 <= a < |rules| ==> (rules[a].sources[0] in first <==> rules[a].target !in there)
    requires forall x :: x in first ==> exists a :: 0 <= a < |rules| && x == rules[a].sources[0]
    requires forall x :: x in there ==> x in targets
    requires forall a, x :: 0 <= a < |rules| && x in untouched ==> x !in rules[a].sources
    requires forall x :: x in m <==> x in first || x in there || x in untouched
    ensures NoClash(m, rules)
    ensures k in ApplyAll(m, rules) <==> k in targets || k in untouched
  {
    KeyAfter(m, rules, k);
    forall a, b | 0 <= a < |rules| && 0 <= b < |rules|
      ensures targets[a] !in rules[b].sources && targets[a] !in untouched
    {
      TargetIsNoSource(rules, a, targets[a]);
      NoCommon(targets, untouched, targets[a]);
    }
    forall a | 0 <= a < |rules|
      ensures Active(m, rules[a]) <==> rules[a].sources[0] in first
      ensures Active(m, rules[a]) ==> rules[a].target !in m
    {
      assert rules[a].sources[0] in rules[a].sources;
    }
  }

  lemma ProcfsRules()
    ensures forall a :: 0 <= a < |RULES| ==> (RULES[a].sources[0] in PROCFS_SOURCES <==> RULES[a].target !in PROCFS_TARGETS)
    ensures forall x :: x in PROCFS_SOURCES ==> exists a :: 0 <= a < |RULES| && x == RULES[a].sources[0]
    ensures forall x :: x in PROCFS_TARGETS ==> x in TARGETS
  {
    var rule := [0, 1, 5, 6];
    assert forall i :: 0 <= i < |PROCFS_SOURCES| ==> PROCFS_SOURCES[i] == RULES[rule[i]].sources[0];
    var target := [2, 3, 4, 7, 8, 9];
    assert forall i :: 0 <= i < |PROCFS_TARGETS| ==> PROCFS_TARGETS[i] == TARGETS[target[i]];
  }

  lemma ProcfsNames(m: Metrics, k: string)
    requires FromProcfs(m)
    ensures NoClash(m, RULES)
    ensures k in ApplyAll(m, RULES) <==> k in TARGETS || k in UNTOUCHED[..6]
  {
    RulesInOrder();
    RulesAreDisjoint();
    ProcfsRules();
    SourcesAndUntouched();
    TargetsAndUntouched();
    forall x | x in UNTOUCHED[..6]
      ensures x in UNTOUCHED && x !in SOURCES
    {
      if x in SOURCES {
        NoCommon(SOURCES, UNTOUCHED, x);
      }
    }
    PrefixDistinct(TARGETS, UNTOUCHED, 6);
    SomeRulesActive(m, RULES, PROCFS_SOURCES, PROCFS_TARGETS, TARGETS, UNTOUCHED[..6], k);
  }

  lemma PrefixDistinct(a: seq<string>, b: seq<string>, n: nat)
    requires n <= |b| && Distinct(a + b)
    ensures Distinct(a + b[..n])
  {
    assert forall i :: 0 <= i < |a + b[..n]| ==> (a + b[..n])[i] == (a + b)[i];
  }

  // ----- the values under the legacy names

  predicate Has(m: Metrics, key: string, value: int) {
    key in m && m[key] == value
  }

  /** The rule's target holds the total of its sources. */
  predicate Landed(m: Metrics, out: Metrics, r: Rule) {
    Has(out, r.target, SumOf(m, r.sources) % TWO_64)
  }

  lemma RulesLand(m: Metrics, rules: seq<Rule>, sources: seq<string>)
    requires Disjoint(rules)
    requires forall a, x :: 0 <= a < |rules| && x in rules[a].sources ==> x in sources
    requires forall x :: x in sources ==> x in m
    ensures forall a :: 0 <= a < |rules| ==> Landed(m, ApplyAll(m, rules), rules[a])
  {
    forall a | 0 <= a < |rules|
      ensures Landed(m, ApplyAll(m, rules), rules[a])
    {
      assert rules[a].sources[0] in rules[a].sources;
      SequenceIsSimultaneous(m, rules, rules[a].target);
    }
  }

  lemma OneLanded(m: Metrics, out: Metrics, a: string, t: string)
    requires Landed(m, out, Rule([a], t))
    ensures Has(out, t, At(m, a))
  {
    assert SumOf(m, [a]) == At(m, a) + SumOf(m, []);
  }

  lemma TwoLanded(m: Metrics, out: Metrics, a: string, b: string, t: string)
    requires Landed(m, out, Rule([a, b], t))
    ensures Has(out, t, (At(m, a) + At(m, b)) % 0x1_0000_0000_0000_0000)
  {
    assert [a, b][1..] == [b];
    assert SumOf(m, [b]) == At(m, b) + SumOf(m, []);
  }

  lemma FourLanded(m: Metrics, out: Metrics, a: string, b: string, c: string, d: string, t: string)
    requires Landed(m, out, Rule([a, b, c, d], t))
    ensures Has(out, t, (At(m, a) + At(m, b) + At(m, c) + At(m, d)) % 0x1_0000_0000_0000_0000)
  {
    SumOfFour(m, a, b, c, d);
  }

  /** The ten values that a rewritten netlink map has under the legacy names. */
  ghost predicate HasReceived(m: Metrics, out: Metrics) {
    && Has(out, "receive_errs", At(m, "receive_errors"))
    && Has(out, "receive_drop", (At(m, "receive_dropped") + At(m, "receive_missed_errors")) % 0x1_0000_0000_0000_0000)
    && Has(out, "receive_fifo", At(m, "receive_fifo_errors"))
    && Has(out, "receive_frame",
      (At(m, "receive_frame_errors") + At(m, "receive_length_errors") + At(m, "receive_over_errors") + At(m, "receive_crc_errors")) % 0x1_0000_0000_0000_0000)
    && Has(out, "receive_multicast", At(m, "multicast"))
  }

  ghost predicate HasTransmitted(m: Metrics, out: Metrics) {
    && Has(out, "transmit_errs", At(m, "transmit_errors"))
    && Has(out, "transmit_drop", At(m, "transmit_dropped"))
    && Has(out, "transmit_fifo", At(m, "transmit_fifo_errors"))
    && Has(out, "transmit_colls", At(m, "collisions"))
    && Has(out, "transmit_carrier",
      (At(m, "transmit_carrier_errors") + At(m, "transmit_aborted_errors") + At(m, "transmit_heartbeat_errors") + At(m, "transmit_window_errors")) % 0x1_0000_0000_0000_0000)
  }

  lemma ReceivedValues(m: Metrics, out: Metrics)
    requires Landed(m, out, RULES[0]) && Landed(m, out, RULES[1]) && Landed(m, out, RULES[2]) && Landed(m, out, RULES[3]) && Landed(m, out, RULES[4])
    ensures HasReceived(m, out)
  {
    OneLanded(m, out, "receive_errors", "receive_errs");
    TwoLanded(m, out, "receive_dropped", "receive_missed_errors", "receive_drop");
    OneLanded(m, out, "receive_fifo_errors", "receive_fifo");
    FourLanded(m, out, "receive_frame_errors", "receive_length_errors", "receive_over_errors", "receive_crc_errors", "receive_frame");
    OneLanded(m, out, "multicast", "receive_multicast");
  }

  lemma TransmittedValues(m: Metrics, out: Metrics)
    requires Landed(m, out, RULES[5]) && Landed(m, out, RULES[6]) && Landed(m, out, RULES[7]) && Landed(m, out, RULES[8]) && Landed(m, out, RULES[9])
    ensures HasTransmitted(m, out)
  {
    OneLanded(m, out, "transmit_errors", "transmit_errs");
    OneLanded(m, out, "transmit_dropped", "transmit_drop");
    OneLanded(m, out, "transmit_fifo_errors", "transmit_fifo");
    OneLanded(m, out, "collisions", "transmit_colls");
    FourLanded(m, out, "transmit_carrier_errors", "transmit_aborted_errors", "transmit_heartbeat_errors", "transmit_window_errors", "transmit_carrier");
  }

  lemma NetlinkLands(m: Metrics)
    requires FromNetlink(m)
    ensures forall a :: 0 <= a < 10 ==> Landed(m, ApplyAll(m, RULES), RULES[a])
  {
    RulesInOrder();
    RulesAreDisjoint();
    RulesLand(m, RULES, SOURCES);
  }

  /** Each counter of a netlink map is found under its own legacy name. */
  lemma NetlinkValues(m: Metrics)
    requires FromNetlink(m)
    ensures HasReceived(m, ApplyAll(m, RULES)) && HasTransmitted(m, ApplyAll(m, RULES))
  {
    NetlinkLands(m);
    ReceivedValues(m, ApplyAll(m, RULES));
    TransmittedValues(m, ApplyAll(m, RULES));
  }

  /** The names that no rule mentions keep their values. */
  lemma UntouchedValues(m: Metrics, k: string)
    requires k in m
    requires k in ["receive_packets", "transmit_packets", "receive_bytes", "transmit_bytes",
                   "receive_compressed", "transmit_compressed", "receive_nohandler"]
    ensures Has(ApplyAll(m, RULES), k, m[k])
  {
    RulesAreDisjoint();
    SourcesAndUntouched();
    TargetsAndUntouched();
    assert k in UNTOUCHED;
    NotASource(k);
    NotATarget(k);
    RulesInOrder();
    forall a | 0 <= a < |RULES|
      ensures k !in Names(RULES[a])
    {
      TargetIsNoSource(RULES, a, k);
      assert k in RULES[a].sources ==> k in SOURCES;
      assert RULES[a].target == TARGETS[a] && TARGETS[a] in TARGETS;
    }
    SequenceIsSimultaneous(m, RULES, k);
  }

  lemma NotASource(k: string)
    requires k in UNTOUCHED
    ensures k !in SOURCES
  {
    SourcesAndUntouched();
    if k in SOURCES {
      NoCommon(SOURCES, UNTOUCHED, k);
    }
  }

  lemma NotATarget(k: string)
    requires k in UNTOUCHED
    ensures k !in TARGETS
  {
    TargetsAndUntouched();
    if k in TARGETS {
      NoCommon(TARGETS, UNTOUCHED, k);
    }
  }

  /** Whichever way the statistics were read, the legacy names lose nothing of
      the sum. */
  lemma BothSourcesConserve(m: Metrics)
    requires FromNetlink(m) || FromProcfs(m)
    ensures Same64(Sum(ApplyAll(m, RULES)), Sum(m))
  {
    if FromNetlink(m) {
      NetlinkNames(m, "");
    } else {
      ProcfsNames(m, "");
    }
    SumPreservedIff(m);
  }

  /** And they are the same names either way: netlink only adds one. */
  lemma BothSourcesAgree(m: Metrics, n: Metrics, k: string)
    requires FromNetlink(m) && FromProcfs(n)
    ensures k in ApplyAll(m, RULES) <==> k in ApplyAll(n, RULES) || k == "receive_nohandler"
  {
    NetlinkNames(m, k);
    ProcfsNames(n, k);
    LastName(UNTOUCHED, k);
  }

  lemma LastName(s: seq<string>, k: string)
    requires s != []
    ensures k in s <==> k in s[..|s| - 1] || k == s[|s| - 1]
  {
    assert s == s[..|s| - 1] + [s[|s| - 1]];
  }
}
