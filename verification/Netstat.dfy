/** The parsers of /proc/net/netstat, /proc/net/snmp and /proc/net/snmp6. */
module Netstat {
  import opened Wrappers
  import opened Strings

  type Stats = map<string, map<string, string>>

  datatype Error =
    | Mismatch(protocol: string)   // the field counts of the two lines differ
    | Panic                        // a name line that is empty or starts with a blank: slicing [:-1]

  /** Names and values side by side; a repeated name keeps its last value. */
  function Zip(names: seq<string>, values: seq<string>): map<string, string>
    requires |names| == |values|
  {
    if names == [] then map[]
    else
      var n := |names| - 1;
      Zip(names[..n], values[..n])[names[n] := values[n]]
  }

  /** The line pairs in order; a repeated protocol keeps its last pair.  A last
      line on its own is paired with the empty line. */
  function ParsePairs(lines: seq<string>, acc: Stats): Result<Stats, Error>
    decreases |lines|
  {
    if lines == [] then Ok(acc)
    else
      var names := Split(lines[0], ' ');
      var values := Split(if |lines| > 1 then lines[1] else "", ' ');
      var rest := if |lines| > 1 then lines[2..] else [];
      if names[0] == "" then Err(Panic)
      else
        var protocol := names[0][..|names[0]| - 1];
        if |names| != |values| then Err(Mismatch(protocol))
        else ParsePairs(rest, acc[protocol := Zip(names[1..], values[1..])])
  }

  /** The inner loop: fields 1 and up of the two lines. */
  method ReadFields(nameParts: seq<string>, valueParts: seq<string>) returns (fields: map<string, string>)
    requires 1 <= |nameParts| == |valueParts|
    ensures fields == Zip(nameParts[1..], valueParts[1..])
  {
    fields := map[];
    for i := 1 to |nameParts|
      invariant fields == Zip(nameParts[1..i], valueParts[1..i])
    {
      fields := fields[nameParts[i] := valueParts[i]];
      ghost var names, values := nameParts[1..i + 1], valueParts[1..i + 1];
      assert names[..i - 1] == nameParts[1..i] && values[..i - 1] == valueParts[1..i];
      assert names[i - 1] == nameParts[i] && values[i - 1] == valueParts[i];
    }
    assert nameParts[1..|nameParts|] == nameParts[1..] && valueParts[1..|nameParts|] == valueParts[1..];
  }

  lemma NextPair(lines: seq<string>, n: nat)
    requires n < |lines|
    ensures lines[n..][0] == lines[n] && (n + 1 < |lines| ==> lines[n..][1] == lines[n + 1])
    ensures n + 1 < |lines| ==> lines[n..][2..] == lines[n + 2..]
    ensures n + 1 == |lines| ==> lines[n + 1..] == []
  {
  }

  method ParseNetStats(text: string) returns (r: Result<Stats, Error>)
    ensures r == ParsePairs(Lines(text), map[])
  {
    var lines := Lines(text);
    var netStats: Stats := map[];
    var n := 0;
    while n < |lines|
      invariant n <= |lines|
      invariant ParsePairs(lines, map[]) == ParsePairs(lines[n..], netStats)
      decreases |lines| - n
    {
      NextPair(lines, n);
      var nameParts := Split(lines[n], ' ');
      n := n + 1;
      var line := "";
      if n < |lines| {
        line := lines[n];
        n := n + 1;
      }
      var valueParts := Split(line, ' ');
      if nameParts[0] == "" {
        return Err(Panic);
      }
      var protocol := nameParts[0][..|nameParts[0]| - 1];
      if |nameParts| != |valueParts| {
        return Err(Mismatch(protocol));
      }
      var fields := ReadFields(nameParts, valueParts);
      netStats := netStats[protocol := fields];
    }
    assert lines[n..] == [];
    r := Ok(netStats);
  }

  // ----- when it fails

  /** The values line of pair k; the empty line when the text ends before it. */
  function ValuesLine(lines: seq<string>, k: nat): string {
    if 2 * k + 1 < |lines| then lines[2 * k + 1] else ""
  }

  predicate NoProtocol(line: string) {
    line == "" || line[0] == ' '
  }

  /** Pair k is there, with a protocol and as many names as values. */
  predicate GoodPair(lines: seq<string>, k: nat) {
    && 2 * k < |lines| && !NoProtocol(lines[2 * k])
    && |Split(lines[2 * k], ' ')| == |Split(ValuesLine(lines, k), ' ')|
  }

  /** Pair k is the first that the parser gives up on. */
  ghost predicate FirstBadPair(lines: seq<string>, k: nat) {
    2 * k < |lines| && !GoodPair(lines, k) && forall j: nat :: j < k ==> GoodPair(lines, j)
  }

  function ErrorAt(line: string): Error {
    if NoProtocol(line) then Panic
    else Mismatch(Split(line, ' ')[0][..|Split(line, ' ')[0]| - 1])
  }

  lemma NoProtocolIff(line: string)
    ensures NoProtocol(line) <==> Split(line, ' ')[0] == ""
  {
    if line != "" && line[0] == ' ' {
      assert IndexOf(line, ' ') == 0;
    }
  }

  function Rest(lines: seq<string>): seq<string> {
    if |lines| > 1 then lines[2..] else []
  }

  lemma RestPairs(lines: seq<string>, j: nat)
    ensures 2 * j < |Rest(lines)| <==> 2 * (j + 1) < |lines|
    ensures 2 * j < |Rest(lines)| ==> Rest(lines)[2 * j] == lines[2 * (j + 1)]
    ensures GoodPair(Rest(lines), j) <==> GoodPair(lines, j + 1)
  {
    if 2 * j < |Rest(lines)| {
      assert ValuesLine(Rest(lines), j) == ValuesLine(lines, j + 1);
    }
  }

  lemma FirstBadPairShifts(lines: seq<string>, k: nat)
    requires GoodPair(lines, 0)
    ensures FirstBadPair(lines, k) <==> k > 0 && FirstBadPair(Rest(lines), k - 1)
  {
    forall j: nat
      ensures GoodPair(Rest(lines), j) <==> GoodPair(lines, j + 1)
      ensures 2 * j < |Rest(lines)| <==> 2 * (j + 1) < |lines|
    {
      RestPairs(lines, j);
    }
    if k > 0 && FirstBadPair(Rest(lines), k - 1) {
      forall j: nat | j < k
        ensures GoodPair(lines, j)
      {
        if j > 0 {
          assert GoodPair(Rest(lines), j - 1);
        }
      }
    }
  }

  lemma FirstPairBad(lines: seq<string>, k: nat)
    requires lines != [] && !GoodPair(lines, 0)
    ensures FirstBadPair(lines, k) <==> k == 0
  {
  }

  /** One round of the parser. */
  lemma ParseStep(lines: seq<string>, acc: Stats) returns (next: Stats)
    requires lines != []
    ensures ParsePairs(lines, acc)
         == if !GoodPair(lines, 0) then Err(ErrorAt(lines[0])) else ParsePairs(Rest(lines), next)
  {
    NoProtocolIff(lines[0]);
    var names, values := Split(lines[0], ' '), Split(ValuesLine(lines, 0), ' ');
    next := acc;
    if GoodPair(lines, 0) {
      next := acc[names[0][..|names[0]| - 1] := Zip(names[1..], values[1..])];
    }
  }

  /** The parser fails exactly when there is a bad pair, and then with the error
      of the first one. */
  lemma {:induction false} FailsAtFirstBadPair(lines: seq<string>, acc: Stats)
    ensures ParsePairs(lines, acc).Err? <==> exists k :: FirstBadPair(lines, k)
    ensures forall k: nat :: FirstBadPair(lines, k) ==> ParsePairs(lines, acc) == Err(ErrorAt(lines[2 * k]))
    decreases |lines|
  {
    if lines != [] {
      var next := ParseStep(lines, acc);
      if !GoodPair(lines, 0) {
        forall k: nat
          ensures FirstBadPair(lines, k) <==> k == 0
        {
          FirstPairBad(lines, k);
        }
        assert FirstBadPair(lines, 0);
      } else {
        FailsAtFirstBadPair(Rest(lines), next);
        forall k: nat
          ensures FirstBadPair(lines, k) <==> k > 0 && FirstBadPair(Rest(lines), k - 1)
          ensures FirstBadPair(lines, k) ==> lines[2 * k] == Rest(lines)[2 * (k - 1)]
        {
          FirstBadPairShifts(lines, k);
          if k > 0 {
            RestPairs(lines, k - 1);
          }
        }
        if k: nat :| FirstBadPair(Rest(lines), k) {
          assert FirstBadPair(lines, k + 1);
        }
      }
    }
  }

  /** The Go code slices out of range exactly when the first bad pair has a names
      line that is empty or starts with a blank. */
  lemma PanicsIff(lines: seq<string>, acc: Stats)
    ensures ParsePairs(lines, acc) == Err(Panic) <==> exists k: nat :: FirstBadPair(lines, k) && NoProtocol(lines[2 * k])
  {
    FailsAtFirstBadPair(lines, acc);
  }

  /** It reports a mismatch exactly when the first bad pair has a protocol, the
      names line up to its first blank without the last character. */
  lemma MismatchIff(lines: seq<string>, acc: Stats, protocol: string)
    ensures ParsePairs(lines, acc) == Err(Mismatch(protocol))
      <==> exists k: nat :: FirstBadPair(lines, k) && !NoProtocol(lines[2 * k]) && ErrorAt(lines[2 * k]) == Mismatch(protocol)
  {
    FailsAtFirstBadPair(lines, acc);
  }

  /** An empty line where a names line should be is enough to panic. */
  lemma EmptyLinePanics(rest: string)
    ensures ParsePairs(Lines("\n" + rest), map[]) == Err(Panic)
  {
    LinesCons("", rest);
    assert "" + "\n" + rest == "\n" + rest;
    var lines := Lines("\n" + rest);
    assert lines[0] == "" && FirstBadPair(lines, 0);
    PanicsIff(lines, map[]);
  }

  // ----- round trip

  datatype Protocol = Protocol(name: string, fields: seq<string>, values: seq<string>)

  /** No blanks and no line ends; the empty string is fine. */
  ghost predicate Plain(s: string) {
    Without(s, ' ') && Without(s, '\n') && Without(s, '\r')
  }

  ghost predicate Printable(p: Protocol) {
    && Plain(p.name) && |p.fields| == |p.values|
    && (forall k :: 0 <= k < |p.fields| ==> Plain(p.fields[k]))
    && (forall k :: 0 <= k < |p.values| ==> Plain(p.values[k]))
  }

  ghost predicate PrintableTable(table: seq<Protocol>) {
    forall k {:trigger table[k]} :: 0 <= k < |table| ==> Printable(table[k])
  }

  function Render(table: seq<Protocol>): string {
    if table == [] then ""
    else
      var p := table[0];
      Join([p.name + ":"] + p.fields, ' ') + "\n"
      + (Join([p.name + ":"] + p.values, ' ') + "\n" + Render(table[1..]))
  }

  /** The nested map of a table; later protocols and later fields win. */
  ghost function ToStats(table: seq<Protocol>, acc: Stats): Stats
    requires PrintableTable(table)
  {
    if table == [] then acc
    else ToStats(table[1..], acc[table[0].name := Zip(table[0].fields, table[0].values)])
  }

  lemma PrintedLine(head: string, cells: seq<string>)
    requires Plain(head) && forall k :: 0 <= k < |cells| ==> Plain(cells[k])
    ensures var line := Join([head + ":"] + cells, ' ');
      Split(line, ' ') == [head + ":"] + cells && Without(line, '\n') && DropCR(line) == line
  {
    PlainHead(head);
    JoinedParts([head + ":"] + cells);
  }

  lemma PlainHead(head: string)
    requires Plain(head)
    ensures Plain(head + ":")
  {
  }

  lemma JoinedParts(parts: seq<string>)
    requires parts != [] && forall k :: 0 <= k < |parts| ==> Plain(parts[k])
    ensures var line := Join(parts, ' ');
      Split(line, ' ') == parts && Without(line, '\n') && DropCR(line) == line
  {
    SplitJoin(parts, ' ');
    JoinWithout(parts, ' ', '\n');
    JoinWithout(parts, ' ', '\r');
  }

  /** Parsing a printed table gives that table back, for any fields without
      blanks or line ends. */
  lemma {:induction false} ParseRendered(table: seq<Protocol>, acc: Stats)
    requires PrintableTable(table)
    ensures ParsePairs(Lines(Render(table)), acc) == Ok(ToStats(table, acc))
    decreases |table|
  {
    if table != [] {
      var p, rest := table[0], Render(table[1..]);
      var heads, cells := [p.name + ":"] + p.fields, [p.name + ":"] + p.values;
      PrintedLine(p.name, p.fields);
      PrintedLine(p.name, p.values);
      LinesCons(Join(heads, ' '), Join(cells, ' ') + "\n" + rest);
      LinesCons(Join(cells, ' '), rest);
      var lines := Lines(Render(table));
      assert lines[0] == Join(heads, ' ') && lines[1] == Join(cells, ' ') && lines[2..] == Lines(rest);
      assert heads[1..] == p.fields && cells[1..] == p.values;
      assert heads[0][..|heads[0]| - 1] == p.name;
      ParseRendered(table[1..], acc[p.name := Zip(p.fields, p.values)]);
    }
  }

  lemma {:induction false} ZipAt(names: seq<string>, values: seq<string>, k: nat)
    requires |names| == |values| && k < |names| && Distinct(names)
    ensures names[k] in Zip(names, values) && Zip(names, values)[names[k]] == values[k]
    decreases |names|
  {
    var n := |names| - 1;
    if k < n {
      ZipAt(names[..n], values[..n], k);
    }
  }

  lemma {:induction false} ZipKeys(names: seq<string>, values: seq<string>)
    requires |names| == |values|
    ensures forall x :: x in Zip(names, values) <==> x in names
    decreases |names|
  {
    if names != [] {
      var n := |names| - 1;
      ZipKeys(names[..n], values[..n]);
      assert names == names[..n] + [names[n]];
    }
  }

  /** With distinct protocols the nested map holds each one's fields, and
      nothing else besides what was there before. */
  lemma {:induction false} ToStatsAt(table: seq<Protocol>, acc: Stats)
    requires PrintableTable(table)
    requires forall i, j :: 0 <= i < j < |table| ==> table[i].name != table[j].name
    ensures forall k :: 0 <= k < |table| ==>
      table[k].name in ToStats(table, acc) && ToStats(table, acc)[table[k].name] == Zip(table[k].fields, table[k].values)
    ensures forall x :: (forall k :: 0 <= k < |table| ==> table[k].name != x) ==>
      (x in ToStats(table, acc) <==> x in acc) && (x in acc ==> ToStats(table, acc)[x] == acc[x])
    decreases |table|
  {
    if table != [] {
      var rest := table[1..];
      var acc' := acc[table[0].name := Zip(table[0].fields, table[0].values)];
      ToStatsAt(rest, acc');
      assert forall k :: 0 <= k < |rest| ==> rest[k] == table[k + 1];
      forall k | 0 <= k < |table|
        ensures table[k].name in ToStats(table, acc) && ToStats(table, acc)[table[k].name] == Zip(table[k].fields, table[k].values)
      {
        if k > 0 {
          assert table[k] == rest[k - 1];
        }
      }
    }
  }

  /** For distinct protocols and distinct field names the text loses nothing:
      every value is found under its protocol and name, and no other. */
  lemma NetStatsRoundTrip(table: seq<Protocol>)
    requires PrintableTable(table) && forall k :: 0 <= k < |table| ==> Distinct(table[k].fields)
    requires forall i, j :: 0 <= i < j < |table| ==> table[i].name != table[j].name
    ensures var r := ParsePairs(Lines(Render(table)), map[]);
      && r.Ok?
      && (forall x :: x in r.value <==> exists k :: 0 <= k < |table| && table[k].name == x)
      && (forall k :: 0 <= k < |table| ==>
            && (forall f :: f in r.value[table[k].name] <==> f in table[k].fields)
            && (forall i :: 0 <= i < |table[k].fields| ==> r.value[table[k].name][table[k].fields[i]] == table[k].values[i]))
  {
    ParseRendered(table, map[]);
    ToStatsAt(table, map[]);
    forall k | 0 <= k < |table|
      ensures forall f :: f in ToStats(table, map[])[table[k].name] <==> f in table[k].fields
      ensures forall i :: 0 <= i < |table[k].fields| ==>
        ToStats(table, map[])[table[k].name][table[k].fields[i]] == table[k].values[i]
    {
      ZipKeys(table[k].fields, table[k].values);
      forall i | 0 <= i < |table[k].fields|
        ensures ToStats(table, map[])[table[k].name][table[k].fields[i]] == table[k].values[i]
      {
        ZipAt(table[k].fields, table[k].values, i);
      }
    }
  }

  // ----- snmp6

  /** The line has a key with a 6 in it and a value. */
  predicate SixLine(line: string) {
    |Fields(line)| >= 2 && HasSix(Fields(line)[0])
  }

  /** The part of a key up to and including its first 6, and the rest. */
  function SixSplit(key: string): (string, string)
    requires HasSix(key)
  {
    (key[..IndexOf(key, '6') + 1], key[IndexOf(key, '6') + 1..])
  }

  function Nested(lines: seq<string>): Stats {
    if lines == [] then map[]
    else
      var n := |lines| - 1;
      var before := Nested(lines[..n]);
      if !SixLine(lines[n]) then before
      else
        var (protocol, name) := SixSplit(Fields(lines[n])[0]);
        var inner := if protocol in before then before[protocol] else map[];
        before[protocol := inner[name := Fields(lines[n])[1]]]
  }

  method ParseSNMP6Stats(text: string) returns (netStats: Stats)
    ensures netStats == Nested(Lines(text))
  {
    var lines := Lines(text);
    netStats := map[];
    for n := 0 to |lines|
      invariant netStats == Nested(lines[..n])
    {
      assert lines[..n + 1][..n] == lines[..n];
      var stat := Fields(lines[n]);
      if |stat| < 2 {
        continue;
      }
      var sixIndex := IndexOf(stat[0], '6');
      if sixIndex < |stat[0]| {
        var protocol, name := stat[0][..sixIndex + 1], stat[0][sixIndex + 1..];
        if protocol !in netStats {
          netStats := netStats[protocol := map[]];
        }
        netStats := netStats[protocol := netStats[protocol][name := stat[1]]];
      }
    }
    assert lines[..|lines|] == lines;
  }

  /** Whole keys to values, over all lines whose key has a 6; later lines win. */
  function LastWins(lines: seq<string>): map<string, string> {
    if lines == [] then map[]
    else
      var n := |lines| - 1;
      if !SixLine(lines[n]) then LastWins(lines[..n])
      else LastWins(lines[..n])[Fields(lines[n])[0] := Fields(lines[n])[1]]
  }

  /** Line k gives the key its value, and no later line does. */
  ghost predicate LastLine(lines: seq<string>, key: string, k: nat) {
    && k < |lines| && |Fields(lines[k])| >= 2 && Fields(lines[k])[0] == key
    && forall j :: k < j < |lines| && |Fields(lines[j])| >= 2 ==> Fields(lines[j])[0] != key
  }

  /** The map of whole keys holds the keys with a 6 of all lines with two fields or
      more, each with the second field of its last line. */
  lemma {:induction false} LastWinsMeans(lines: seq<string>, key: string)
    ensures key in LastWins(lines) <==> '6' in key && exists k: nat :: LastLine(lines, key, k)
    ensures forall k: nat :: '6' in key && LastLine(lines, key, k) ==> key in LastWins(lines) && LastWins(lines)[key] == Fields(lines[k])[1]
    decreases |lines|
  {
    HasSixIff(key);
    if lines != [] {
      var n := |lines| - 1;
      LastWinsMeans(lines[..n], key);
      var here := |Fields(lines[n])| >= 2 && Fields(lines[n])[0] == key;
      if here {
        assert LastLine(lines, key, n);
      } else {
        forall k: nat
          ensures LastLine(lines, key, k) <==> LastLine(lines[..n], key, k)
        {
          assert forall j :: 0 <= j < n ==> lines[..n][j] == lines[j];
        }
      }
    }
  }

  lemma HasSixIff(key: string)
    ensures HasSix(key) <==> '6' in key
  {
  }

  predicate HasSix(key: string) { IndexOf(key, '6') < |key| }

  /** The nested map has an entry for the two parts of the key. */
  predicate Holds(nested: Stats, key: string)
    requires HasSix(key)
  {
    SixSplit(key).0 in nested && SixSplit(key).1 in nested[SixSplit(key).0]
  }

  /** flat is nested with the two key parts put together again: every protocol
      ends in its only 6, and both maps have the same entries. */
  ghost predicate Flattens(nested: Stats, flat: map<string, string>) {
    && (forall p :: p in nested ==> p != "" && IndexOf(p, '6') == |p| - 1)
    && (forall k :: k in flat ==> HasSix(k))
    && (forall k :: HasSix(k) ==> (k in flat <==> Holds(nested, k)))
    && (forall k :: k in flat ==> flat[k] == nested[SixSplit(k).0][SixSplit(k).1])
  }

  lemma SixSplitParts(key: string)
    requires HasSix(key)
    ensures SixSplit(key).0 + SixSplit(key).1 == key
    ensures SixSplit(key).0 != "" && IndexOf(SixSplit(key).0, '6') == |SixSplit(key).0| - 1
  {
    var i := IndexOf(key, '6');
    FirstIndex(key[..i + 1], '6', i);
  }

  lemma FirstIndex(s: string, c: char, i: nat)
    requires i < |s| && s[i] == c && forall k :: 0 <= k < i ==> s[k] != c
    ensures IndexOf(s, c) == i
  {
  }

  lemma SixSplitJoins(p: string, n: string)
    requires p != "" && IndexOf(p, '6') == |p| - 1
    ensures HasSix(p + n) && SixSplit(p + n) == (p, n)
  {
    var key := p + n;
    FirstIndex(key, '6', |p| - 1);
    assert key[..|p|] == p && key[|p|..] == n;
  }

  /** Splitting keys at their first 6 loses nothing: the nested map, flattened,
      is exactly the last-wins map of all lines whose key has a 6. */
  lemma {:induction false} NestingIsLossless(lines: seq<string>)
    ensures Flattens(Nested(lines), LastWins(lines))
    ensures forall p, n :: p in Nested(lines) && n in Nested(lines)[p] ==>
      p + n in LastWins(lines) && LastWins(lines)[p + n] == Nested(lines)[p][n]
    decreases |lines|
  {
    if lines != [] {
      var m := |lines| - 1;
      NestingIsLossless(lines[..m]);
      if SixLine(lines[m]) {
        InsertFlattens(Nested(lines[..m]), LastWins(lines[..m]), Fields(lines[m])[0], Fields(lines[m])[1]);
      }
    }
    forall p, n | p in Nested(lines) && n in Nested(lines)[p]
      ensures p + n in LastWins(lines) && LastWins(lines)[p + n] == Nested(lines)[p][n]
    {
      EveryEntryHasAKey(Nested(lines), LastWins(lines), p, n);
    }
  }

  function Insert(nested: Stats, p: string, n: string, value: string): Stats {
    nested[p := (if p in nested then nested[p] else map[])[n := value]]
  }

  lemma InsertAt(nested: Stats, p: string, n: string, value: string, q: string, m: string)
    ensures var after := Insert(nested, p, n, value);
      && (q in after <==> q == p || q in nested)
      && (q in after && m in after[q] <==> (q == p && m == n) || (q in nested && m in nested[q]))
      && (q in after && m in after[q] ==> after[q][m] == if q == p && m == n then value else nested[q][m])
  {
  }

  lemma SixSplitInjective(key: string, k: string)
    requires HasSix(key) && HasSix(k)
    ensures SixSplit(k).0 == SixSplit(key).0 && SixSplit(k).1 == SixSplit(key).1 ==> k == key
  {
    SixSplitParts(key);
    SixSplitParts(k);
  }

  lemma InsertFlattens(nested: Stats, flat: map<string, string>, key: string, value: string)
    requires Flattens(nested, flat) && HasSix(key)
    ensures Flattens(Insert(nested, SixSplit(key).0, SixSplit(key).1, value), flat[key := value])
  {
    var p, n := SixSplit(key).0, SixSplit(key).1;
    var after := Insert(nested, p, n, value);
    SixSplitParts(key);
    forall q | q in after
      ensures q != "" && IndexOf(q, '6') == |q| - 1
    {
      InsertAt(nested, p, n, value, q, n);
    }
    forall k | HasSix(k)
      ensures k in flat[key := value] <==> Holds(after, k)
      ensures k in flat[key := value] ==> flat[key := value][k] == after[SixSplit(k).0][SixSplit(k).1]
    {
      InsertAt(nested, p, n, value, SixSplit(k).0, SixSplit(k).1);
      SixSplitInjective(key, k);
    }
  }

  /** Every entry of a nested map comes from a key, the two parts joined. */
  lemma EveryEntryHasAKey(nested: Stats, flat: map<string, string>, p: string, n: string)
    requires Flattens(nested, flat) && p in nested && n in nested[p]
    ensures p + n in flat && flat[p + n] == nested[p][n]
  {
    SixSplitJoins(p, n);
  }
}
