/** Sensor file names of the hwmon collector: the file-name pattern
    `^([^0-9]+)([0-9]*)?(_(.+))?$` with its backtracking, and the table of
    sensor values that is filled from it and read back with it. */
module Hwmon {
  import opened Wrappers
  import opened Strings

  const SENSOR_TYPES: seq<string> := [
    "vrm", "beep_enable", "update_interval", "in", "cpu", "fan",
    "pwm", "temp", "curr", "power", "energy", "humidity",
    "intrusion"
  ]

  /** The largest int on a 64-bit system, the limit of strconv.Atoi. */
  const MAX_INT := 0x7fff_ffff_ffff_ffff

  // ----- the pattern

  /** A way for the pattern to match: how long the type and the id are, and
      whether the optional property takes part. */
  datatype Match = Match(typeLen: nat, idLen: nat, hasProperty: bool)

  /** The pattern matches s this way. */
  ghost predicate Matches(s: string, m: Match) {
    && m.typeLen >= 1 && m.typeLen + m.idLen <= |s|
    && (forall k :: 0 <= k < m.typeLen ==> !IsDigit(s[k]))
    && (forall k :: m.typeLen <= k < m.typeLen + m.idLen ==> IsDigit(s[k]))
    && if m.hasProperty then
         && m.typeLen + m.idLen + 1 < |s|
         && s[m.typeLen + m.idLen] == '_'
         && forall k :: m.typeLen + m.idLen < k < |s| ==> s[k] != '\n'
       else
         m.typeLen + m.idLen == |s|
  }

  /** a comes before b in the order in which a greedy, backtracking matcher tries them. */
  predicate TriedBefore(a: Match, b: Match) {
    || a.typeLen > b.typeLen
    || (a.typeLen == b.typeLen && a.idLen > b.idLen)
    || (a.typeLen == b.typeLen && a.idLen == b.idLen && a.hasProperty && !b.hasProperty)
  }

  function NonDigits(s: string): (n: nat)
    ensures n <= |s| && (n < |s| ==> IsDigit(s[n]))
    ensures forall k :: 0 <= k < n ==> !IsDigit(s[k])
  {
    if s == [] || IsDigit(s[0]) then 0 else 1 + NonDigits(s[1..])
  }

  function Digits(s: string): (n: nat)
    ensures n <= |s| && (n < |s| ==> !IsDigit(s[n]))
    ensures forall k :: 0 <= k < n ==> IsDigit(s[k])
  {
    if s == [] || !IsDigit(s[0]) then 0 else 1 + Digits(s[1..])
  }

  /** The match, if any, with a type of the given length; the id is greedy. */
  function TryAt(s: string, t: nat): Option<Match>
    requires t <= |s|
  {
    var d := Digits(s[t..]);
    if t + d == |s| then Some(Match(t, d, false))
    else if s[t + d] == '_' && t + d + 1 < |s| && IndexOf(s[t + d + 1..], '\n') == |s| - (t + d + 1)
    then Some(Match(t, d, true))
    else None
  }

  /** Tries shorter and shorter types. */
  function Search(s: string, t: nat): Option<Match>
    requires t <= |s|
  {
    if t == 0 then None
    else if TryAt(s, t).Some? then TryAt(s, t)
    else Search(s, t - 1)
  }

  function FindMatch(s: string): Option<Match> {
    Search(s, NonDigits(s))
  }

  lemma TryAtIsSound(s: string, t: nat)
    requires 1 <= t <= NonDigits(s) && TryAt(s, t).Some?
    ensures TryAt(s, t).value.typeLen == t && Matches(s, TryAt(s, t).value)
  {
    var d := Digits(s[t..]);
    assert forall k :: t <= k < t + d ==> s[k] == s[t..][k - t];
    if t + d < |s| {
      var rest := s[t + d + 1..];
      assert forall k :: t + d < k < |s| ==> s[k] == rest[k - (t + d + 1)];
    }
  }

  lemma TryAtIsComplete(s: string, t: nat, m: Match)
    requires 1 <= t <= NonDigits(s) && Matches(s, m) && m.typeLen == t
    ensures TryAt(s, t) == Some(m)
  {
    var u := s[t..];
    var d := Digits(u);
    assert forall k :: 0 <= k < m.idLen ==> IsDigit(s[t + k]) && u[k] == s[t + k];
    assert m.idLen < |u| ==> u[m.idLen] == s[t + m.idLen] && !IsDigit(u[m.idLen]);
    assert d == m.idLen;
    if m.hasProperty {
      var rest := s[t + d + 1..];
      assert forall k :: 0 <= k < |rest| ==> rest[k] == s[t + d + 1 + k];
    }
  }

  lemma {:induction false} SearchFindsFirst(s: string, t: nat, m: Match)
    requires t <= NonDigits(s)
    ensures Search(s, t).Some? ==> Matches(s, Search(s, t).value) && Search(s, t).value.typeLen <= t
    ensures Matches(s, m) && m.typeLen <= t ==>
      Search(s, t).Some? && (m == Search(s, t).value || TriedBefore(Search(s, t).value, m))
    decreases t
  {
    if t > 0 {
      if TryAt(s, t).Some? {
        TryAtIsSound(s, t);
      }
      if Matches(s, m) && m.typeLen == t {
        TryAtIsComplete(s, t, m);
      }
      SearchFindsFirst(s, t - 1, m);
    }
  }

  /** The search returns the match a backtracking matcher finds first, and finds
      none only when the pattern does not match at all. */
  lemma FindMatchIsLeftmostFirst(s: string)
    ensures FindMatch(s).Some? <==> exists m :: Matches(s, m)
    ensures FindMatch(s).Some? ==> Matches(s, FindMatch(s).value)
    ensures FindMatch(s).Some? ==> forall m :: Matches(s, m) && m != FindMatch(s).value ==> TriedBefore(FindMatch(s).value, m)
  {
    forall m
      ensures FindMatch(s).Some? ==> Matches(s, FindMatch(s).value)
      ensures Matches(s, m) ==> FindMatch(s).Some? && (m == FindMatch(s).value || TriedBefore(FindMatch(s).value, m))
    {
      SearchFindsFirst(s, NonDigits(s), m);
      assert Matches(s, m) ==> m.typeLen <= NonDigits(s);
    }
    SearchFindsFirst(s, NonDigits(s), Match(0, 0, false));
  }

  lemma FindMatchMatches(s: string)
    requires FindMatch(s).Some?
    ensures Matches(s, FindMatch(s).value)
  {
    SearchFindsFirst(s, NonDigits(s), FindMatch(s).value);
  }

  // ----- explodeSensorFilename

  datatype Exploded = Rejected | Exploded(sensorType: string, num: nat, property: string)

  /** What a match says: the groups of the pattern, the id as an int. */
  function Groups(s: string, m: Match): Exploded
    requires Matches(s, m)
  {
    var id := s[m.typeLen..m.typeLen + m.idLen];
    assert AllDigits(id);
    if DigitsValue(id) > MAX_INT then Rejected
    else Exploded(s[..m.typeLen], DigitsValue(id), if m.hasProperty then s[m.typeLen + m.idLen + 1..] else "")
  }

  function Explode(filename: string): Exploded {
    match FindMatch(filename)
    case None => Rejected
    case Some(m) => (
      FindMatchMatches(filename);
      Groups(filename, m))
  }

  ghost predicate DigitFree(s: string) {
    s != "" && forall k :: 0 <= k < |s| ==> !IsDigit(s[k])
  }

  lemma RunLengths(a: string, n: nat, rest: string)
    requires DigitFree(a) && (rest == "" || !IsDigit(rest[0]))
    ensures NonDigits(a + (Decimal(n) + rest)) == |a|
    ensures (a + (Decimal(n) + rest))[|a|..] == Decimal(n) + rest
    ensures Digits(Decimal(n) + rest) == |Decimal(n)|
  {
    var u := Decimal(n) + rest;
    assert forall k :: 0 <= k < |Decimal(n)| ==> u[k] == Decimal(n)[k];
    assert rest != "" ==> u[|Decimal(n)|] == rest[0];
    var s := a + u;
    assert s[|a|] == u[0];
    assert forall k :: 0 <= k < |a| ==> s[k] == a[k];
  }

  /** The printed form of a sensor name. */
  function Print(sensorType: string, n: nat, property: string): string {
    sensorType + (Decimal(n) + ("_" + property))
  }

  lemma PrintedMatch(sensorType: string, n: nat, property: string)
    requires DigitFree(sensorType)
    ensures var m := Match(|sensorType|, |Decimal(n)|, true);
      if property != "" && Without(property, '\n') then FindMatch(Print(sensorType, n, property)) == Some(m)
      else FindMatch(Print(sensorType, n, property)).Some? ==> FindMatch(Print(sensorType, n, property)).value.typeLen < |sensorType|
  {
    var s := Print(sensorType, n, property);
    var t, d := |sensorType|, |Decimal(n)|;
    RunLengths(sensorType, n, "_" + property);
    assert s[t + d] == '_' && s[t + d + 1..] == property;
    if property != "" && Without(property, '\n') {
      assert IndexOf(property, '\n') == |property|;
    } else {
      assert TryAt(s, t).None?;
      SearchFindsFirst(s, t - 1, Match(0, 0, false));
    }
  }

  lemma ExplodePrinted(sensorType: string, n: nat, property: string)
    requires DigitFree(sensorType) && property != "" && Without(property, '\n')
    ensures Explode(Print(sensorType, n, property)) == if n <= MAX_INT then Exploded(sensorType, n, property) else Rejected
  {
    PrintedMatch(sensorType, n, property);
    PrintedSlices(sensorType, n, property);
    ExplodeSlices(Print(sensorType, n, property), Match(|sensorType|, |Decimal(n)|, true), n);
  }

  lemma ExplodeSlices(s: string, m: Match, n: nat)
    requires FindMatch(s) == Some(m) && m.hasProperty
    requires m.typeLen + m.idLen + 1 <= |s| && s[m.typeLen..m.typeLen + m.idLen] == Decimal(n)
    ensures Explode(s) == if n > MAX_INT then Rejected else Exploded(s[..m.typeLen], n, s[m.typeLen + m.idLen + 1..])
  {
    ExplodeByMatch(s, m);
    GroupsOf(s, m, n);
  }

  lemma GroupsOf(s: string, m: Match, n: nat)
    requires Matches(s, m) && s[m.typeLen..m.typeLen + m.idLen] == Decimal(n)
    ensures Groups(s, m) == if n > MAX_INT then Rejected
                            else Exploded(s[..m.typeLen], n, if m.hasProperty then s[m.typeLen + m.idLen + 1..] else "")
  {
    DecimalValue(n);
  }

  lemma ExplodeMisprinted(sensorType: string, n: nat, property: string)
    requires DigitFree(sensorType) && (property == "" || !Without(property, '\n'))
    ensures Explode(Print(sensorType, n, property)) != Exploded(sensorType, n, property)
  {
    var s := Print(sensorType, n, property);
    PrintedMatch(sensorType, n, property);
    if FindMatch(s).Some? {
      ExplodeByMatch(s, FindMatch(s).value);
      assert |s[..FindMatch(s).value.typeLen]| < |sensorType|;
    }
  }

  /** Printing a sensor and exploding the name gives the sensor back exactly when
      its number fits an int and its property is not empty and has no newline;
      the greedy type and its backtracking cannot get in the way. */
  lemma ExplodeInvertsPrintingIff(sensorType: string, n: nat, property: string)
    requires DigitFree(sensorType)
    ensures Explode(Print(sensorType, n, property)) == Exploded(sensorType, n, property)
      <==> n < 0x8000_0000_0000_0000 && property != "" && Without(property, '\n')
  {
    if property != "" && Without(property, '\n') {
      ExplodePrinted(sensorType, n, property);
    } else {
      ExplodeMisprinted(sensorType, n, property);
    }
  }

  lemma PrintedSlices(sensorType: string, n: nat, property: string)
    ensures var s, t, d := Print(sensorType, n, property), |sensorType|, |Decimal(n)|;
      s[..t] == sensorType && s[t..t + d] == Decimal(n) && s[t + d + 1..] == property
  {
  }

  lemma ExplodeByMatch(s: string, m: Match)
    requires FindMatch(s) == Some(m)
    ensures Matches(s, m) && Explode(s) == Groups(s, m)
  {
    FindMatchMatches(s);
  }

  lemma BareMatch(sensorType: string, n: nat)
    requires DigitFree(sensorType)
    ensures FindMatch(sensorType + Decimal(n)) == Some(Match(|sensorType|, |Decimal(n)|, false))
  {
    RunLengths(sensorType, n, "");
    assert Decimal(n) + "" == Decimal(n);
  }

  lemma ExplodeWithoutProperty(sensorType: string, n: nat)
    requires DigitFree(sensorType)
    ensures Explode(sensorType + Decimal(n)) == if n < 0x8000_0000_0000_0000 then Exploded(sensorType, n, "") else Rejected
  {
    var s, t, d := sensorType + Decimal(n), |sensorType|, |Decimal(n)|;
    BareMatch(sensorType, n);
    ExplodeByMatch(s, Match(t, d, false));
    assert s[..t] == sensorType && s[t..t + d] == Decimal(n);
    GroupsOf(s, Match(t, d, false), n);
  }

  /** The bucket of a sensor in the table of values. */
  function Key(sensorType: string, n: nat): string {
    sensorType + Decimal(n)
  }

  lemma KeysAreInjective(a: string, m: nat, b: string, n: nat)
    requires DigitFree(a) && DigitFree(b) && Key(a, m) == Key(b, n)
    ensures a == b && m == n
  {
    RunLengths(a, m, "");
    RunLengths(b, n, "");
    assert Decimal(m) + "" == Decimal(m) && Decimal(n) + "" == Decimal(n);
    assert a == Key(a, m)[..|a|] == b;
    assert Decimal(m) == Key(a, m)[|a|..] == Decimal(n);
    DecimalValue(m);
    DecimalValue(n);
  }

  // ----- the table of values

  /** A directory entry and, when it can be read, its content. */
  datatype File = File(name: string, raw: Option<string>)

  type Values = map<string, map<string, string>>

  /** strings.Trim(s, "\n") */
  function TrimNewlines(s: string): string {
    if s != "" && s[0] == '\n' then TrimNewlines(s[1..])
    else if s != "" && s[|s| - 1] == '\n' then TrimNewlines(s[..|s| - 1])
    else s
  }

  /** The middle part of the string: only newlines are cut off, and none is left
      at either end. */
  lemma {:induction false} TrimmedMiddle(s: string) returns (i: nat, j: nat)
    ensures i <= j <= |s| && TrimNewlines(s) == s[i..j]
    ensures forall k :: 0 <= k < i || j <= k < |s| ==> s[k] == '\n'
    ensures i < j ==> s[i] != '\n' && s[j - 1] != '\n'
    decreases |s|
  {
    if s != "" && s[0] == '\n' {
      i, j := TrimmedMiddle(s[1..]);
      i, j := i + 1, j + 1;
    } else if s != "" && s[|s| - 1] == '\n' {
      i, j := TrimmedMiddle(s[..|s| - 1]);
    } else {
      i, j := 0, |s|;
    }
  }

  /** The file is readable and names a sensor of a listed type. */
  predicate Counts(f: File) {
    f.raw.Some? && Explode(f.name).Exploded? && Explode(f.name).sensorType in SENSOR_TYPES
  }

  function BucketOf(f: File): string
    requires Counts(f)
  {
    Key(Explode(f.name).sensorType, Explode(f.name).num)
  }

  function Put(data: Values, sensor: string, prop: string, value: string): Values {
    data[sensor := (if sensor in data then data[sensor] else map[])[prop := value]]
  }

  function Collected(data: Values, files: seq<File>): Values {
    if files == [] then data
    else
      var n := |files| - 1;
      var before := Collected(data, files[..n]);
      if !Counts(files[n]) then before
      else Put(before, BucketOf(files[n]), Explode(files[n].name).property, TrimNewlines(files[n].raw.value))
  }

  class SensorTable {
    var data: Values

    constructor ()
      ensures data == map[]
    {
      data := map[];
    }

    method AddValueFile(sensor: string, prop: string, raw: Option<string>)
      modifies this
      ensures data == if raw.None? then old(data) else Put(old(data), sensor, prop, TrimNewlines(raw.value))
    {
      if raw.None? {
        return;
      }
      var value := TrimNewlines(raw.value);
      if sensor !in data {
        data := data[sensor := map[]];
      }
      data := data[sensor := data[sensor][prop := value]];
    }

    /** Scans one directory; a chip is scanned as two directories in a row. */
    method CollectSensorData(files: seq<File>)
      modifies this
      ensures data == Collected(old(data), files)
    {
      for n := 0 to |files|
        invariant data == Collected(old(data), files[..n])
      {
        assert files[..n + 1][..n] == files[..n];
        var e := Explode(files[n].name);
        if e.Rejected? {
          continue;
        }
        for k := 0 to |SENSOR_TYPES|
          invariant data == Collected(old(data), files[..n])
          invariant e.sensorType !in SENSOR_TYPES[..k]
        {
          if SENSOR_TYPES[k] == e.sensorType {
            AddValueFile(Key(e.sensorType, e.num), e.property, files[n].raw);
            break;
          }
        }
      }
      assert files[..|files|] == files;
    }
  }

  lemma ListedTypesAreDigitFree()
    ensures forall t :: t in SENSOR_TYPES ==> DigitFree(t)
  {
  }

  predicate Writes(f: File, sensor: string, prop: string) {
    Counts(f) && BucketOf(f) == sensor && Explode(f.name).property == prop
  }

  /** File i writes the property into the bucket, and no later file does. */
  ghost predicate LastWriter(files: seq<File>, i: nat, sensor: string, prop: string) {
    && i < |files| && Writes(files[i], sensor, prop)
    && forall j :: i < j < |files| ==> !Writes(files[j], sensor, prop)
  }

  ghost predicate Written(files: seq<File>, sensor: string, prop: string) {
    exists i: nat :: LastWriter(files, i, sensor, prop)
  }

  predicate Has(data: Values, sensor: string, prop: string) {
    sensor in data && prop in data[sensor]
  }

  /** Whatever the table held before: afterwards an entry is the trimmed content of
      the last readable file of that sensor and property; without such a file it
      is what it was. */
  lemma {:induction false} EntryIsLastFile(before: Values, files: seq<File>, sensor: string, prop: string)
    ensures var data := Collected(before, files);
      Has(data, sensor, prop) <==> Has(before, sensor, prop) || Written(files, sensor, prop)
    ensures var data := Collected(before, files);
      forall i: nat :: LastWriter(files, i, sensor, prop) ==>
        Has(data, sensor, prop) && data[sensor][prop] == TrimNewlines(files[i].raw.value)
    ensures var data := Collected(before, files);
      Has(before, sensor, prop) && !Written(files, sensor, prop) ==> data[sensor][prop] == before[sensor][prop]
    decreases |files|
  {
    if files != [] {
      var n := |files| - 1;
      var init, last := files[..n], files[n];
      assert files == init + [last];
      EntryIsLastFile(before, init, sensor, prop);
      if Writes(last, sensor, prop) {
        LastWriterIsLast(init, last, sensor, prop);
      } else {
        WrittenKept(init, last, sensor, prop);
        SameEntry(Collected(before, init), last, sensor, prop);
      }
    }
  }

  lemma LastWriterIsLast(files: seq<File>, last: File, sensor: string, prop: string)
    requires Writes(last, sensor, prop)
    ensures Written(files + [last], sensor, prop)
    ensures forall i: nat :: LastWriter(files + [last], i, sensor, prop) ==> i == |files|
  {
    assert LastWriter(files + [last], |files|, sensor, prop);
  }

  lemma WrittenKept(files: seq<File>, last: File, sensor: string, prop: string)
    requires !Writes(last, sensor, prop)
    ensures Written(files + [last], sensor, prop) <==> Written(files, sensor, prop)
    ensures forall i: nat :: LastWriter(files + [last], i, sensor, prop) ==> LastWriter(files, i, sensor, prop) && (files + [last])[i] == files[i]
  {
    forall i: nat
      ensures LastWriter(files + [last], i, sensor, prop) <==> LastWriter(files, i, sensor, prop)
    {
      LastWriterKept(files, last, i, sensor, prop);
    }
  }

  /** A file that does not write an entry leaves it alone. */
  lemma SameEntry(data: Values, f: File, sensor: string, prop: string)
    requires !Writes(f, sensor, prop)
    ensures var after := if Counts(f) then Put(data, BucketOf(f), Explode(f.name).property, TrimNewlines(f.raw.value)) else data;
      && (Has(after, sensor, prop) <==> Has(data, sensor, prop))
      && (Has(data, sensor, prop) ==> after[sensor][prop] == data[sensor][prop])
  {
  }

  /** The two directories of a chip, one after the other: an entry stems from the
      second if that has a file for it, and else from the first. */
  lemma TwoDirectories(first: seq<File>, second: seq<File>, sensor: string, prop: string)
    ensures var data := Collected(Collected(map[], first), second);
      && (Has(data, sensor, prop) <==> Written(first, sensor, prop) || Written(second, sensor, prop))
      && (forall i: nat :: LastWriter(second, i, sensor, prop) ==> data[sensor][prop] == TrimNewlines(second[i].raw.value))
      && (!Written(second, sensor, prop) ==> forall i: nat :: LastWriter(first, i, sensor, prop) ==>
            data[sensor][prop] == TrimNewlines(first[i].raw.value))
  {
    EntryIsLastFile(map[], first, sensor, prop);
    EntryIsLastFile(Collected(map[], first), second, sensor, prop);
  }

  lemma LastWriterKept(files: seq<File>, last: File, i: nat, sensor: string, prop: string)
    requires !Writes(last, sensor, prop)
    ensures LastWriter(files + [last], i, sensor, prop) <==> LastWriter(files, i, sensor, prop)
  {
    if LastWriter(files + [last], i, sensor, prop) {
      assert forall k :: i < k < |files| ==> (files + [last])[k] == files[k];
    }
  }

  /** Exploding a bucket name when the metrics are made gives the type, and the
      number, of every single file that was put into the bucket. */
  lemma ReparseRecoversType(files: seq<File>, i: nat)
    requires i < |files| && Counts(files[i])
    ensures Explode(BucketOf(files[i])) == Exploded(Explode(files[i].name).sensorType, Explode(files[i].name).num, "")
    ensures forall j :: 0 <= j < |files| && Counts(files[j]) ==>
      (BucketOf(files[j]) == BucketOf(files[i]) <==>
        Explode(files[j].name).sensorType == Explode(files[i].name).sensorType && Explode(files[j].name).num == Explode(files[i].name).num)
  {
    var e := Explode(files[i].name);
    ListedTypesAreDigitFree();
    ExplodeWithoutProperty(e.sensorType, e.num);
    forall j | 0 <= j < |files| && Counts(files[j]) && BucketOf(files[j]) == BucketOf(files[i])
      ensures Explode(files[j].name).sensorType == e.sensorType && Explode(files[j].name).num == e.num
    {
      KeysAreInjective(Explode(files[j].name).sensorType, Explode(files[j].name).num, e.sensorType, e.num);
    }
  }

  /** Every bucket of the table was made by some file, so all of the above holds
      for every bucket there is. */
  lemma {:induction false} EveryBucketHasAFile(before: Values, files: seq<File>)
    ensures forall sensor :: sensor in Collected(before, files) ==>
      sensor in before || exists i :: 0 <= i < |files| && Counts(files[i]) && BucketOf(files[i]) == sensor
    decreases |files|
  {
    if files != [] {
      var n := |files| - 1;
      EveryBucketHasAFile(before, files[..n]);
      forall sensor | sensor in Collected(before, files) && sensor !in before
        ensures exists i :: 0 <= i < |files| && Counts(files[i]) && BucketOf(files[i]) == sensor
      {
        if sensor in Collected(before, files[..n]) {
          var i :| 0 <= i < n && Counts(files[..n][i]) && BucketOf(files[..n][i]) == sensor;
          assert files[i] == files[..n][i];
        } else {
          assert BucketOf(files[n]) == sensor;
        }
      }
    }
  }

  /** A readable file named after any of the thirteen types, a number and a
      property is stored, trimmed, under the type and number and the property. */
  lemma ListedFileIsStored(before: Values, t: string, n: nat, property: string, text: string)
    requires t in ["vrm", "beep_enable", "update_interval", "in", "cpu", "fan",
                   "pwm", "temp", "curr", "power", "energy", "humidity", "intrusion"]
    requires n < 0x8000_0000_0000_0000 && property != "" && Without(property, '\n')
    ensures var data := Collected(before, [File(t + (Decimal(n) + ("_" + property)), Some(text))]);
      Has(data, t + Decimal(n), property) && data[t + Decimal(n)][property] == TrimNewlines(text)
  {
    var f := File(Print(t, n, property), Some(text));
    ListedTypesAreDigitFree();
    ListIsTheSame(t);
    ExplodeInvertsPrintingIff(t, n, property);
    assert [f][..0] == [];
    assert Collected(before, [f]) == Put(before, t + Decimal(n), property, TrimNewlines(text));
  }

  lemma ListIsTheSame(t: string)
    ensures t in SENSOR_TYPES <==> t in ["vrm", "beep_enable", "update_interval", "in", "cpu", "fan",
                                         "pwm", "temp", "curr", "power", "energy", "humidity", "intrusion"]
  {
  }
}
