/** The session counts of the logind collector: sessions are counted per
    (seat, remote, type, class) and emitted over a fixed cross product. */
module Logind {
  import opened Strings
  import opened Wrappers

  const REMOTES: seq<string> := ["true", "false"]
  const TYPES: seq<string> := ["other", "unspecified", "tty", "x11", "wayland", "mir", "web"]
  const CLASSES: seq<string> := ["other", "user", "greeter", "lock-screen", "background"]

  datatype Session = Session(seat: string, remote: string, sessionType: string, class_: string)

  /** The seat of a listed session, and its properties as far as they could be read as strings. */
  datatype Entry = Entry(seat: string, remote: Option<string>, sessionType: Option<string>, class_: Option<string>)

  datatype Sample = Sample(cell: Session, count: nat)

  function KnownOrOther(value: string, known: seq<string>): string {
    if value in known then value else "other"
  }

  method KnownStringOrOther(value: string, known: seq<string>) returns (r: string)
    ensures r == KnownOrOther(value, known)
    ensures value in known ==> r == value
    ensures value !in known ==> r == "other"
    ensures "other" in known ==> r in known
  {
    for i := 0 to |known|
      invariant value !in known[..i]
    {
      if value == known[i] {
        return value;
      }
    }
    r := "other";
  }

  /** None when a property could not be read. */
  function ToSession(e: Entry): Option<Session> {
    if e.remote.None? || e.sessionType.None? || e.class_.None? then None
    else Some(Session(e.seat, e.remote.value, KnownOrOther(e.sessionType.value, TYPES), KnownOrOther(e.class_.value, CLASSES)))
  }

  method GetSession(e: Entry) returns (s: Option<Session>)
    ensures s == ToSession(e)
    ensures s.None? <==> e.remote.None? || e.sessionType.None? || e.class_.None?
    ensures s.Some? ==> s.value.seat == e.seat && s.value.remote == e.remote.value
    ensures s.Some? ==> s.value.sessionType == if e.sessionType.value in TYPES then e.sessionType.value else "other"
    ensures s.Some? ==> s.value.class_ == if e.class_.value in CLASSES then e.class_.value else "other"
    ensures s.Some? ==> s.value.sessionType in TYPES && s.value.class_ in CLASSES
  {
    if e.remote.None? || e.sessionType.None? || e.class_.None? {
      return None;
    }
    assert TYPES[0] == "other" && CLASSES[0] == "other";
    var sessionType := KnownStringOrOther(e.sessionType.value, TYPES);
    var class_ := KnownStringOrOther(e.class_.value, CLASSES);
    s := Some(Session(e.seat, e.remote.value, sessionType, class_));
  }

  /** The sessions that could be retrieved, in order. */
  function Retrieved(entries: seq<Entry>): seq<Session> {
    if entries == [] then []
    else
      var n := |entries| - 1;
      Retrieved(entries[..n]) + if ToSession(entries[n]).Some? then [ToSession(entries[n]).value] else []
  }

  /** How often x occurs. */
  function Count<T(==)>(s: seq<T>, x: T): nat {
    if s == [] then 0
    else Count(s[..|s| - 1], x) + if s[|s| - 1] == x then 1 else 0
  }

  // ----- the cells, in the order of the nested loops

  function SeatCells(remote: string, sessionType: string, class_: string, seats: seq<string>): seq<Session> {
    if seats == [] then []
    else
      var n := |seats| - 1;
      SeatCells(remote, sessionType, class_, seats[..n]) + [Session(seats[n], remote, sessionType, class_)]
  }

  function ClassCells(remote: string, sessionType: string, classes: seq<string>, seats: seq<string>): seq<Session> {
    if classes == [] then []
    else
      var n := |classes| - 1;
      ClassCells(remote, sessionType, classes[..n], seats) + SeatCells(remote, sessionType, classes[n], seats)
  }

  function TypeCells(remote: string, types: seq<string>, seats: seq<string>): seq<Session> {
    if types == [] then []
    else
      var n := |types| - 1;
      TypeCells(remote, types[..n], seats) + ClassCells(remote, types[n], CLASSES, seats)
  }

  function Cells(remotes: seq<string>, seats: seq<string>): seq<Session> {
    if remotes == [] then []
    else
      var n := |remotes| - 1;
      Cells(remotes[..n], seats) + TypeCells(remotes[n], TYPES, seats)
  }

  function Samples(cells: seq<Session>, sessions: seq<Session>): seq<Sample> {
    seq(|cells|, i requires 0 <= i < |cells| => Sample(cells[i], Count(sessions, cells[i])))
  }

  lemma CountNext(entries: seq<Entry>, n: nat)
    requires n < |entries|
    ensures forall x :: Count(Retrieved(entries[..n + 1]), x)
                     == Count(Retrieved(entries[..n]), x) + if ToSession(entries[n]) == Some(x) then 1 else 0
  {
    assert entries[..n + 1][..n] == entries[..n];
    var before := Retrieved(entries[..n]);
    if ToSession(entries[n]).Some? {
      assert Retrieved(entries[..n + 1]) == before + [ToSession(entries[n]).value];
      assert (before + [ToSession(entries[n]).value])[..|before|] == before;
    } else {
      assert Retrieved(entries[..n + 1]) == before;
    }
  }

  method CollectMetrics(seats: seq<string>, entries: seq<Entry>) returns (out: seq<Sample>)
    ensures out == Samples(Cells(REMOTES, seats), Retrieved(entries))
  {
    var sessions: map<Session, nat> := map[];
    ghost var found := Retrieved(entries);
    for n := 0 to |entries|
      invariant forall x :: (if x in sessions then sessions[x] else 0) == Count(Retrieved(entries[..n]), x)
    {
      CountNext(entries, n);
      var s := GetSession(entries[n]);
      if s.Some? {
        sessions := sessions[s.value := (if s.value in sessions then sessions[s.value] else 0) + 1];
      }
    }
    assert entries[..|entries|] == entries;
    out := [];
    for r := 0 to |REMOTES|
      invariant out == Samples(Cells(REMOTES[..r], seats), found)
    {
      assert REMOTES[..r + 1][..r] == REMOTES[..r];
      var block := TypeBlock(REMOTES[r], seats, sessions, found);
      out := out + block;
    }
    assert REMOTES[..|REMOTES|] == REMOTES;
  }

  /** The loops over types, classes and seats for one remote value. */
  method TypeBlock(remote: string, seats: seq<string>, sessions: map<Session, nat>, ghost found: seq<Session>) returns (out: seq<Sample>)
    requires forall x :: (if x in sessions then sessions[x] else 0) == Count(found, x)
    ensures out == Samples(TypeCells(remote, TYPES, seats), found)
  {
    out := [];
    for t := 0 to |TYPES|
      invariant out == Samples(TypeCells(remote, TYPES[..t], seats), found)
    {
      assert TYPES[..t + 1][..t] == TYPES[..t];
      var block := ClassBlock(remote, TYPES[t], seats, sessions, found);
      out := out + block;
    }
    assert TYPES[..|TYPES|] == TYPES;
  }

  method ClassBlock(remote: string, sessionType: string, seats: seq<string>,
                    sessions: map<Session, nat>, ghost found: seq<Session>) returns (out: seq<Sample>)
    requires forall x :: (if x in sessions then sessions[x] else 0) == Count(found, x)
    ensures out == Samples(ClassCells(remote, sessionType, CLASSES, seats), found)
  {
    out := [];
    for c := 0 to |CLASSES|
      invariant out == Samples(ClassCells(remote, sessionType, CLASSES[..c], seats), found)
    {
      assert CLASSES[..c + 1][..c] == CLASSES[..c];
      var row := SeatRow(remote, sessionType, CLASSES[c], seats, sessions, found);
      out := out + row;
    }
    assert CLASSES[..|CLASSES|] == CLASSES;
  }

  method SeatRow(remote: string, sessionType: string, class_: string, seats: seq<string>,
                 sessions: map<Session, nat>, ghost found: seq<Session>) returns (out: seq<Sample>)
    requires forall x :: (if x in sessions then sessions[x] else 0) == Count(found, x)
    ensures out == Samples(SeatCells(remote, sessionType, class_, seats), found)
  {
    out := [];
    for s := 0 to |seats|
      invariant out == Samples(SeatCells(remote, sessionType, class_, seats[..s]), found)
    {
      assert seats[..s + 1][..s] == seats[..s];
      var cell := Session(seats[s], remote, sessionType, class_);
      var count := if cell in sessions then sessions[cell] else 0;
      out := out + [Sample(cell, count)];
    }
    assert seats[..|seats|] == seats;
  }

  // ----- what the counts add up to

  function TotalCount(out: seq<Sample>): nat {
    if out == [] then 0 else TotalCount(out[..|out| - 1]) + out[|out| - 1].count
  }

  /** The sum, over the sessions, of how many cells each one is counted in. */
  function TimesCounted(cells: seq<Session>, sessions: seq<Session>): nat {
    if sessions == [] then 0
    else TimesCounted(cells, sessions[..|sessions| - 1]) + Count(cells, sessions[|sessions| - 1])
  }

  lemma {:induction false} OneMoreCell(cells: seq<Session>, c: Session, sessions: seq<Session>)
    ensures TimesCounted(cells + [c], sessions) == TimesCounted(cells, sessions) + Count(sessions, c)
    decreases |sessions|
  {
    if sessions != [] {
      OneMoreCell(cells, c, sessions[..|sessions| - 1]);
      assert (cells + [c])[..|cells|] == cells;
    }
  }

  lemma {:induction false} NoCells(sessions: seq<Session>)
    ensures TimesCounted([], sessions) == 0
    decreases |sessions|
  {
    if sessions != [] {
      NoCells(sessions[..|sessions| - 1]);
    }
  }

  /** Counting the sessions of every cell, or the cells of every session, is the same. */
  lemma {:induction false} CountedBothWays(cells: seq<Session>, sessions: seq<Session>)
    ensures TotalCount(Samples(cells, sessions)) == TimesCounted(cells, sessions)
    decreases |cells|
  {
    if cells == [] {
      NoCells(sessions);
    } else {
      var n := |cells| - 1;
      CountedBothWays(cells[..n], sessions);
      OneMoreCell(cells[..n], cells[n], sessions);
      assert cells == cells[..n] + [cells[n]];
      assert Samples(cells, sessions)[..n] == Samples(cells[..n], sessions);
    }
  }

  lemma {:induction false} CountConcat<T>(a: seq<T>, b: seq<T>, x: T)
    ensures Count(a + b, x) == Count(a, x) + Count(b, x)
    decreases |b|
  {
    if b == [] {
      assert a + b == a;
    } else {
      CountConcat(a, b[..|b| - 1], x);
      assert (a + b)[..|a + b| - 1] == a + b[..|b| - 1];
    }
  }

  lemma {:induction false} CountDistinct(s: seq<string>, x: string)
    requires Distinct(s)
    ensures Count(s, x) == if x in s then 1 else 0
    decreases |s|
  {
    if s != [] {
      var n := |s| - 1;
      CountDistinct(s[..n], x);
      assert s == s[..n] + [s[n]];
    }
  }

  lemma ListsAreDistinct()
    ensures Distinct(REMOTES) && Distinct(TYPES) && Distinct(CLASSES)
  {
  }

  lemma {:induction false} CountSeatCells(r: string, t: string, c: string, seats: seq<string>, s: Session)
    ensures Count(SeatCells(r, t, c, seats), s) == if s.remote == r && s.sessionType == t && s.class_ == c then Count(seats, s.seat) else 0
    decreases |seats|
  {
    if seats != [] {
      var n := |seats| - 1;
      CountSeatCells(r, t, c, seats[..n], s);
      CountConcat(SeatCells(r, t, c, seats[..n]), [Session(seats[n], r, t, c)], s);
      assert [Session(seats[n], r, t, c)][..0] == [];
    }
  }

  lemma {:induction false} CountClassCells(r: string, t: string, classes: seq<string>, seats: seq<string>, s: Session)
    requires Distinct(classes)
    ensures Count(ClassCells(r, t, classes, seats), s)
         == if s.remote == r && s.sessionType == t && s.class_ in classes then Count(seats, s.seat) else 0
    decreases |classes|
  {
    if classes != [] {
      var n := |classes| - 1;
      CountClassCells(r, t, classes[..n], seats, s);
      CountSeatCells(r, t, classes[n], seats, s);
      CountConcat(ClassCells(r, t, classes[..n], seats), SeatCells(r, t, classes[n], seats), s);
      assert classes == classes[..n] + [classes[n]];
    }
  }

  lemma {:induction false} CountTypeCells(r: string, types: seq<string>, seats: seq<string>, s: Session)
    requires Distinct(types) && s.class_ in CLASSES
    ensures Count(TypeCells(r, types, seats), s) == if s.remote == r && s.sessionType in types then Count(seats, s.seat) else 0
    decreases |types|
  {
    if types != [] {
      var n := |types| - 1;
      CountTypeCells(r, types[..n], seats, s);
      ListsAreDistinct();
      CountClassCells(r, types[n], CLASSES, seats, s);
      CountConcat(TypeCells(r, types[..n], seats), ClassCells(r, types[n], CLASSES, seats), s);
      assert types == types[..n] + [types[n]];
    }
  }

  /** A session with a known type and class is in exactly one cell per listing of
      its seat, if its remote value is one of those asked for, and else in none. */
  lemma {:induction false} CountCells(remotes: seq<string>, seats: seq<string>, s: Session)
    requires Distinct(remotes) && s.sessionType in TYPES && s.class_ in CLASSES
    ensures Count(Cells(remotes, seats), s) == if s.remote in remotes then Count(seats, s.seat) else 0
    decreases |remotes|
  {
    if remotes != [] {
      var n := |remotes| - 1;
      CountCells(remotes[..n], seats, s);
      ListsAreDistinct();
      CountTypeCells(remotes[n], TYPES, seats, s);
      CountConcat(Cells(remotes[..n], seats), TypeCells(remotes[n], TYPES, seats), s);
      assert remotes == remotes[..n] + [remotes[n]];
    }
  }

  lemma {:induction false} SeatCellsLength(r: string, t: string, c: string, seats: seq<string>)
    ensures |SeatCells(r, t, c, seats)| == |seats|
    decreases |seats|
  {
    if seats != [] {
      SeatCellsLength(r, t, c, seats[..|seats| - 1]);
    }
  }

  lemma Distribute(n: int, k: int)
    ensures (n + 1) * k == n * k + k
  {
  }

  lemma {:induction false} ClassCellsLength(r: string, t: string, classes: seq<string>, seats: seq<string>)
    ensures |ClassCells(r, t, classes, seats)| == |classes| * |seats|
    decreases |classes|
  {
    if classes != [] {
      var n := |classes| - 1;
      ClassCellsLength(r, t, classes[..n], seats);
      SeatCellsLength(r, t, classes[n], seats);
      Distribute(n, |seats|);
    }
  }

  lemma {:induction false} TypeCellsLength(r: string, types: seq<string>, seats: seq<string>)
    ensures |TypeCells(r, types, seats)| == |types| * (|CLASSES| * |seats|)
    decreases |types|
  {
    if types != [] {
      var n := |types| - 1;
      TypeCellsLength(r, types[..n], seats);
      ClassCellsLength(r, types[n], CLASSES, seats);
      Distribute(n, |CLASSES| * |seats|);
    }
  }

  lemma CellsLength(seats: seq<string>)
    ensures |Cells(REMOTES, seats)| == 2 * 7 * 5 * |seats|
  {
    TypeCellsLength(REMOTES[0], TYPES, seats);
    TypeCellsLength(REMOTES[1], TYPES, seats);
    assert REMOTES[..1] == [REMOTES[0]] && REMOTES[..1][..0] == [];
    assert Cells([REMOTES[0]], seats) == Cells([], seats) + TypeCells(REMOTES[0], TYPES, seats);
  }

  /** The sessions counted: with a seat on the list, as often as it is listed,
      and with a boolean for the remote property. */
  function Expected(seats: seq<string>, sessions: seq<Session>): nat {
    if sessions == [] then 0
    else
      var s := sessions[|sessions| - 1];
      Expected(seats, sessions[..|sessions| - 1]) + if s.remote in REMOTES then Count(seats, s.seat) else 0
  }

  lemma {:induction false} RetrievedAreKnown(entries: seq<Entry>)
    ensures forall k :: 0 <= k < |Retrieved(entries)| ==>
      Retrieved(entries)[k].sessionType in TYPES && Retrieved(entries)[k].class_ in CLASSES
    decreases |entries|
  {
    if entries != [] {
      RetrievedAreKnown(entries[..|entries| - 1]);
      assert TYPES[0] == "other" && CLASSES[0] == "other";
    }
  }

  lemma {:induction false} TimesCountedIsExpected(seats: seq<string>, sessions: seq<Session>)
    requires forall k :: 0 <= k < |sessions| ==> sessions[k].sessionType in TYPES && sessions[k].class_ in CLASSES
    ensures TimesCounted(Cells(REMOTES, seats), sessions) == Expected(seats, sessions)
    decreases |sessions|
  {
    if sessions != [] {
      var n := |sessions| - 1;
      TimesCountedIsExpected(seats, sessions[..n]);
      var s := sessions[n];
      ListsAreDistinct();
      CountCells(REMOTES, seats, s);
    }
  }

  /** Every retrieved session falls into exactly one cell per listing of its seat,
      because its type and class are always known ones: for every list of seats
      the emitted counts add up to the expected number, and the number of samples
      is fixed. */
  lemma EmittedCountsAddUp(seats: seq<string>, entries: seq<Entry>)
    ensures var out := Samples(Cells(REMOTES, seats), Retrieved(entries));
      TotalCount(out) == Expected(seats, Retrieved(entries)) && |out| == 2 * 7 * 5 * |seats|
  {
    var sessions := Retrieved(entries);
    RetrievedAreKnown(entries);
    CountedBothWays(Cells(REMOTES, seats), sessions);
    TimesCountedIsExpected(seats, sessions);
    CellsLength(seats);
  }

  function Listed(seats: seq<string>, sessions: seq<Session>): seq<Session> {
    if sessions == [] then []
    else
      var s := sessions[|sessions| - 1];
      Listed(seats, sessions[..|sessions| - 1]) + if s.remote in REMOTES && s.seat in seats then [s] else []
  }

  /** With duplicate-free seats, the sum is the number of retrieved sessions whose
      seat is listed and whose remote is "true" or "false". */
  lemma {:induction false} DistinctSeatsCountOnce(seats: seq<string>, sessions: seq<Session>)
    requires Distinct(seats)
    ensures Expected(seats, sessions) == |Listed(seats, sessions)|
    decreases |sessions|
  {
    if sessions != [] {
      DistinctSeatsCountOnce(seats, sessions[..|sessions| - 1]);
      CountDistinct(seats, sessions[|sessions| - 1].seat);
    }
  }

  // ----- a single session

  lemma CountOne(s: Session, x: Session)
    ensures Count([s], x) == if x == s then 1 else 0
  {
    assert [s][..0] == [];
  }

  lemma {:induction false} RetrievedOne(entries: seq<Entry>, n: nat)
    requires n < |entries| && entries[n].remote.Some? && entries[n].sessionType.Some? && entries[n].class_.Some?
    requires forall k :: 0 <= k < |entries| && k != n ==>
      entries[k].remote.None? || entries[k].sessionType.None? || entries[k].class_.None?
    ensures Retrieved(entries) == [ToSession(entries[n]).value]
    decreases |entries|
  {
    var m := |entries| - 1;
    if n < m {
      RetrievedOne(entries[..m], n);
    } else {
      RetrievedNone(entries[..m]);
    }
  }

  lemma {:induction false} RetrievedNone(entries: seq<Entry>)
    requires forall k :: 0 <= k < |entries| ==>
      entries[k].remote.None? || entries[k].sessionType.None? || entries[k].class_.None?
    ensures Retrieved(entries) == []
    decreases |entries|
  {
    if entries != [] {
      RetrievedNone(entries[..|entries| - 1]);
    }
  }

  lemma {:induction false} CountPositive<T>(s: seq<T>, x: T)
    ensures Count(s, x) > 0 <==> x in s
    decreases |s|
  {
    if s != [] {
      var n := |s| - 1;
      CountPositive(s[..n], x);
      assert s == s[..n] + [s[n]];
    }
  }

  /** When a single entry can be retrieved and its seat, remote value, type and
      class are all listed, the sample with those four labels is there with the
      count 1, and every other sample has the count 0. */
  lemma SingleSession(seats: seq<string>, entries: seq<Entry>, n: nat)
    requires n < |entries| && entries[n].remote.Some? && entries[n].sessionType.Some? && entries[n].class_.Some?
    requires forall k :: 0 <= k < |entries| && k != n ==>
      entries[k].remote.None? || entries[k].sessionType.None? || entries[k].class_.None?
    requires entries[n].seat in seats && entries[n].remote.value in ["true", "false"]
    requires entries[n].sessionType.value in ["other", "unspecified", "tty", "x11", "wayland", "mir", "web"]
    requires entries[n].class_.value in ["other", "user", "greeter", "lock-screen", "background"]
    ensures var e := entries[n];
      var own := Session(e.seat, e.remote.value, e.sessionType.value, e.class_.value);
      var out := Samples(Cells(REMOTES, seats), Retrieved(entries));
      Sample(own, 1) in out && forall x :: x in out ==> x.count == if x.cell == own then 1 else 0
  {
    var e := entries[n];
    var own := Session(e.seat, e.remote.value, e.sessionType.value, e.class_.value);
    RetrievedOne(entries, n);
    assert Retrieved(entries) == [own];
    var cells := Cells(REMOTES, seats);
    ListsAreDistinct();
    CountCells(REMOTES, seats, own);
    CountPositive(seats, own.seat);
    CountPositive(cells, own);
    forall k | 0 <= k < |cells|
      ensures Count([own], cells[k]) == if cells[k] == own then 1 else 0
    {
      CountOne(own, cells[k]);
    }
    var k :| 0 <= k < |cells| && cells[k] == own;
    assert Samples(cells, [own])[k] == Sample(own, 1);
  }
}
