/** The parser of the mount table, /proc/1/mounts. */
module MountParser {
  import opened Wrappers
  import opened Strings
  import Watchdog

  type Labels = Watchdog.Labels

  const SPACE := "\\040"
  const TAB := "\\011"

  /** What the parser does to a mount point: two replacements, one after the other. */
  function Unescape(s: string): string {
    Replace(Replace(s, SPACE, " "), TAB, "\t")
  }

  function StripRootfs(path: string, rootfs: string): string {
    if rootfs == "/" then path
    else
      var stripped := if rootfs <= path then path[|rootfs|..] else path;
      if stripped == "" then "/" else stripped
  }

  /** A path under the rootfs loses exactly that prefix, the rootfs itself becomes
      the root, and any other path is kept. */
  lemma StrippedMeans(path: string, rootfs: string)
    ensures rootfs == "/" || !(rootfs <= path) ==> StripRootfs(path, rootfs) == if path == "" && rootfs != "/" then "/" else path
    ensures rootfs != "/" && path == rootfs ==> StripRootfs(path, rootfs) == "/"
    ensures rootfs != "/" && rootfs <= path && path != rootfs ==> path == rootfs + StripRootfs(path, rootfs)
  {
    if rootfs <= path {
      assert path == rootfs + path[|rootfs|..];
    }
  }

  function ToLabels(parts: seq<string>, rootfs: string): Labels
    requires |parts| >= 4
  {
    Watchdog.Labels(parts[0], StripRootfs(Unescape(parts[1]), rootfs), parts[2], parts[3])
  }

  /** One entry per line, or the first line that has fewer than four fields. */
  function ParseLines(lines: seq<string>, rootfs: string): Result<seq<Labels>, string> {
    if lines == [] then Ok([])
    else if |Fields(lines[0])| < 4 then Err(lines[0])
    else
      match ParseLines(lines[1..], rootfs)
      case Err(line) => Err(line)
      case Ok(rest) => Ok([ToLabels(Fields(lines[0]), rootfs)] + rest)
  }

  method ParseFilesystemLabels(text: string, rootfs: string) returns (r: Result<seq<Labels>, string>)
    ensures r == ParseLines(Lines(text), rootfs)
    ensures r.Ok? <==> forall k :: 0 <= k < |Lines(text)| ==> |Fields(Lines(text)[k])| >= 4
    ensures r.Ok? ==> |r.value| == |Lines(text)|
  {
    var lines := Lines(text);
    var filesystems := [];
    PrependNone(ParseLines(lines, rootfs));
    assert lines[0..] == lines;
    for n := 0 to |lines|
      invariant forall k :: 0 <= k < n ==> |Fields(lines[k])| >= 4
      invariant |filesystems| == n
      invariant ParseLines(lines, rootfs) == Prepend(filesystems, ParseLines(lines[n..], rootfs))
    {
      var parts := Fields(lines[n]);
      if |parts| < 4 {
        return Err(lines[n]);
      }
      parts := parts[1 := Replace(parts[1], SPACE, " ")];
      parts := parts[1 := Replace(parts[1], TAB, "\t")];
      var l := Watchdog.Labels(parts[0], StripRootfs(parts[1], rootfs), parts[2], parts[3]);
      assert lines[n..][1..] == lines[n + 1..];
      PrependOne(filesystems, l, ParseLines(lines[n + 1..], rootfs));
      filesystems := filesystems + [l];
    }
    assert lines[|lines|..] == [] && filesystems + [] == filesystems;
    r := Ok(filesystems);
  }

  ghost function Prepend(done: seq<Labels>, rest: Result<seq<Labels>, string>): Result<seq<Labels>, string> {
    match rest
    case Err(line) => Err(line)
    case Ok(ls) => Ok(done + ls)
  }

  lemma PrependNone(rest: Result<seq<Labels>, string>)
    ensures Prepend([], rest) == rest
  {
    if rest.Ok? {
      assert [] + rest.value == rest.value;
    }
  }

  lemma PrependOne(done: seq<Labels>, l: Labels, rest: Result<seq<Labels>, string>)
    ensures Prepend(done, Prepend([l], rest)) == Prepend(done + [l], rest)
  {
    if rest.Ok? {
      assert done + ([l] + rest.value) == done + [l] + rest.value;
    }
  }

  // ----- the escape decoding

  /** Both escapes decoded in a single pass. */
  function DecodeOnce(s: string): string {
    if s == [] then []
    else if SPACE <= s then " " + DecodeOnce(s[4..])
    else if TAB <= s then "\t" + DecodeOnce(s[4..])
    else [s[0]] + DecodeOnce(s[1..])
  }

  /** Escaping as fstab(5) asks for it. */
  function Escape(s: string): string {
    if s == [] then []
    else if s[0] == ' ' then SPACE + Escape(s[1..])
    else if s[0] == '\t' then TAB + Escape(s[1..])
    else [s[0]] + Escape(s[1..])
  }

  lemma ReplaceSkips(c: char, s: string, token: string, text: string)
    requires token != [] && c != token[0]
    ensures Replace([c] + s, token, text) == [c] + Replace(s, token, text)
  {
    assert ([c] + s)[1..] == s;
  }

  /** Characters that a replacement cannot have written were there before. */
  lemma {:induction false} PrefixKept(p: string, s: string)
    requires Without(p, ' ') && p <= Replace(s, SPACE, " ")
    ensures p <= s
    decreases |p|
  {
    if p != [] {
      var r := Replace(s, SPACE, " ");
      assert r[0] == p[0];
      assert !(SPACE <= s);
      assert r[1..] == Replace(s[1..], SPACE, " ");
      assert p[1..] <= r[1..];
      PrefixKept(p[1..], s[1..]);
      assert s == [s[0]] + s[1..] && p == [p[0]] + p[1..];
    }
  }

  /** Decoding `\040` first and `\011` then is the same as one pass: the first
      replacement never makes or destroys an occurrence for the second. */
  lemma {:induction false} UnescapeIsOnePass(s: string)
    ensures Unescape(s) == DecodeOnce(s)
    decreases |s|
  {
    if s == [] {
    } else if SPACE <= s {
      UnescapeIsOnePass(s[4..]);
      ReplaceSkips(' ', Replace(s[4..], SPACE, " "), TAB, "\t");
    } else if TAB <= s {
      UnescapeIsOnePass(s[4..]);
      var rest := Replace(s[4..], SPACE, " ");
      TabSurvives(s[4..]);
      assert s == TAB + s[4..];
      assert (TAB + rest)[4..] == rest;
    } else {
      UnescapeIsOnePass(s[1..]);
      var rest := Replace(s[1..], SPACE, " ");
      assert Replace(s, SPACE, " ") == [s[0]] + rest;
      assert s == [s[0]] + s[1..] && TAB == ['\\'] + "011";
      assert ([s[0]] + rest)[1..] == rest;
      if TAB <= [s[0]] + rest {
        assert "011" == TAB[1..] <= rest;
        PrefixKept("011", s[1..]);
        assert false;
      }
    }
  }

  lemma {:induction false} PlainPrefixSkips(p: string, t: string)
    requires Without(p, '\\')
    ensures Replace(p + t, SPACE, " ") == p + Replace(t, SPACE, " ")
    decreases |p|
  {
    if p == [] {
      assert p + t == t;
    } else {
      var u, r := p[1..] + t, Replace(t, SPACE, " ");
      PlainPrefixSkips(p[1..], t);
      assert p + t == [p[0]] + u;
      ReplaceSkips(p[0], u, SPACE, " ");
      assert [p[0]] + (p[1..] + r) == p + r;
    }
  }

  lemma TabSurvives(t: string)
    ensures Replace(TAB + t, SPACE, " ") == TAB + Replace(t, SPACE, " ")
  {
    PlainPrefixSkips("011", t);
    var s := TAB + t;
    assert s[2] == '1' && SPACE[2] == '4';
    assert s[1..] == "011" + t;
    assert TAB == ['\\'] + "011";
  }

  // ----- round trips

  ghost predicate EscapeAt(s: string, k: nat) {
    k + 4 <= |s| && (s[k..k + 4] == SPACE || s[k..k + 4] == TAB)
  }

  lemma {:induction false} EscapedPrefix(p: string, s: string)
    requires Without(p, '\\') && p <= Escape(s)
    ensures p <= s
    decreases |p|
  {
    if p != [] {
      var e := Escape(s);
      assert e[0] == p[0];
      assert SPACE[0] == TAB[0] == '\\';
      assert s[0] != ' ' && s[0] != '\t';
      assert e[1..] == Escape(s[1..]) && p[1..] <= e[1..];
      EscapedPrefix(p[1..], s[1..]);
      assert s == [s[0]] + s[1..] && p == [p[0]] + p[1..];
    }
  }

  /** Escaping adds nothing that decoding does not take away again. */
  lemma {:induction false} DecodeEscape(s: string)
    ensures DecodeOnce(Escape(s)) == DecodeOnce(s)
    decreases |s|
  {
    var e := Escape(s);
    if s == [] {
    } else if s[0] == ' ' || s[0] == '\t' {
      DecodeEscape(s[1..]);
      assert e[4..] == Escape(s[1..]);
      assert SPACE[0] == TAB[0] == '\\' && SPACE[2] == '4' && TAB[2] == '1';
      if s[0] == ' ' {
        assert SPACE <= e;
      } else {
        assert TAB <= e && e[2] == '1';
      }
    } else if SPACE <= s || TAB <= s {
      DecodeEscape(s[4..]);
      EscapeKeepsFour(s);
    } else {
      DecodeEscape(s[1..]);
      assert e[1..] == Escape(s[1..]);
      assert s == [s[0]] + s[1..] && SPACE == ['\\'] + "040" && TAB == ['\\'] + "011";
      if SPACE <= e {
        assert "040" == SPACE[1..] <= e[1..];
        EscapedPrefix("040", s[1..]);
        assert false;
      }
      if TAB <= e {
        assert "011" == TAB[1..] <= e[1..];
        EscapedPrefix("011", s[1..]);
        assert false;
      }
    }
  }

  lemma EscapeKeepsFour(s: string)
    requires SPACE <= s || TAB <= s
    ensures Escape(s) == s[..4] + Escape(s[4..])
  {
    assert |SPACE| == |TAB| == 4;
    EscapeKeepsOne(s);
    EscapeKeepsOne(s[1..]);
    EscapeKeepsOne(s[2..]);
    EscapeKeepsOne(s[3..]);
    assert s[1..][1..] == s[2..] && s[2..][1..] == s[3..] && s[3..][1..] == s[4..];
    assert s[..4] == [s[0]] + [s[1]] + [s[2]] + [s[3]];
  }

  lemma EscapeKeepsOne(s: string)
    requires s != "" && s[0] != ' ' && s[0] != '\t'
    ensures Escape(s) == [s[0]] + Escape(s[1..])
  {
  }

  lemma {:induction false} DecodeShortens(s: string)
    ensures |DecodeOnce(s)| <= |s|
    ensures DecodeOnce(s) == s <==> forall k :: 0 <= k ==> !EscapeAt(s, k)
    ensures |DecodeOnce(s)| == |s| <==> DecodeOnce(s) == s
    decreases |s|
  {
    if s == [] {
    } else if SPACE <= s || TAB <= s {
      DecodeShortens(s[4..]);
      assert EscapeAt(s, 0);
    } else {
      DecodeShortens(s[1..]);
      assert s == [s[0]] + s[1..];
      if |s| >= 4 {
        assert s[0..4] <= s;
      }
      assert !EscapeAt(s, 0);
      forall k: nat
        ensures EscapeAt(s[1..], k) <==> EscapeAt(s, k + 1)
      {
        if k + 5 <= |s| {
          assert s[1..][k..k + 4] == s[k + 1..k + 5];
        }
      }
      if k: nat :| EscapeAt(s, k) {
        assert EscapeAt(s[1..], k - 1);
      }
    }
  }

  /** A mount point survives escaping and parsing exactly when it does not
      itself contain one of the two escape sequences. */
  lemma MountPointRoundTripIff(s: string)
    ensures Unescape(Escape(s)) == s <==> forall k :: 0 <= k ==> !EscapeAt(s, k)
  {
    UnescapeIsOnePass(Escape(s));
    DecodeEscape(s);
    DecodeShortens(s);
  }

  // ----- the kernel's own escaping

  /** Escaping of a mount point in the mount table of the kernel. */
  function KernelEscape(s: string): string {
    if s == [] then [] else KernelEscapeChar(s[0]) + KernelEscape(s[1..])
  }

  function KernelEscapeChar(c: char): string {
    if c == ' ' then SPACE
    else if c == '\t' then TAB
    else if c == '\n' then "\\012"
    else if c == '\\' then "\\134"
    else [c]
  }

  /** What the parser makes of it: two of the four escapes are left as they are. */
  function Garble(s: string): string {
    if s == [] then []
    else (if s[0] == '\n' || s[0] == '\\' then KernelEscapeChar(s[0]) else [s[0]]) + Garble(s[1..])
  }

  lemma {:induction false} DecodePlainPrefix(p: string, t: string)
    requires Without(p, '\\')
    ensures DecodeOnce(p + t) == p + DecodeOnce(t)
    decreases |p|
  {
    if p == [] {
      assert p + t == t;
    } else {
      var u := p[1..] + t;
      DecodePlainPrefix(p[1..], t);
      assert p + t == [p[0]] + u && ([p[0]] + u)[1..] == u;
      assert !(SPACE <= p + t) && !(TAB <= p + t) by {
        assert SPACE[0] == TAB[0] == '\\' != p[0] == (p + t)[0];
      }
      assert [p[0]] + (p[1..] + DecodeOnce(t)) == p + DecodeOnce(t);
    }
  }

  /** An escape that the parser does not know. */
  lemma DecodeUnknown(digits: string, t: string)
    requires Without(digits, '\\') && |digits| == 3 && digits != "040" && digits != "011"
    ensures DecodeOnce(['\\'] + digits + t) == ['\\'] + digits + DecodeOnce(t)
  {
    var s := ['\\'] + digits + t;
    assert s[..4] == ['\\'] + digits && s[..4][1..] == digits && s[1..] == digits + t;
    assert SPACE[1..] == "040" && TAB[1..] == "011";
    assert SPACE != s[..4] && TAB != s[..4];
    DecodePlainPrefix(digits, t);
    assert [s[0]] + (digits + DecodeOnce(t)) == ['\\'] + digits + DecodeOnce(t);
  }

  lemma {:induction false} DecodeKernelEscape(s: string)
    ensures DecodeOnce(KernelEscape(s)) == Garble(s)
    decreases |s|
  {
    if s != [] {
      var e, rest := KernelEscapeChar(s[0]), KernelEscape(s[1..]);
      DecodeKernelEscape(s[1..]);
      if s[0] == ' ' || s[0] == '\t' {
        DecodeKnown(e, rest);
      } else if s[0] == '\n' {
        assert e == ['\\'] + "012";
        assert "012"[2] == '2' && "040"[2] == '0' && "011"[2] == '1';
        DecodeUnknown("012", rest);
      } else if s[0] == '\\' {
        assert e == ['\\'] + "134";
        assert "134"[2] == '4' && "040"[2] == '0' && "011"[2] == '1';
        DecodeUnknown("134", rest);
      } else {
        DecodePlainPrefix(e, rest);
      }
    }
  }

  lemma DecodeKnown(e: string, t: string)
    requires e == SPACE || e == TAB
    ensures DecodeOnce(e + t) == (if e == SPACE then " " else "\t") + DecodeOnce(t)
  {
    assert (e + t)[4..] == t && (e + t)[..4] == e;
    assert SPACE[2] == '4' && TAB[2] == '1';
    if e == TAB {
      assert (e + t)[2] == '1';
    }
  }

  lemma {:induction false} GarbleIsSameIff(s: string)
    ensures |Garble(s)| >= |s|
    ensures |Garble(s)| == |s| <==> Without(s, '\\') && Without(s, '\n')
    ensures Garble(s) == s <==> Without(s, '\\') && Without(s, '\n')
    decreases |s|
  {
    if s != [] {
      GarbleIsSameIff(s[1..]);
      assert s == [s[0]] + s[1..];
      assert Without(s, '\\') <==> s[0] != '\\' && Without(s[1..], '\\') by { WithoutCons(s, '\\'); }
      assert Without(s, '\n') <==> s[0] != '\n' && Without(s[1..], '\n') by { WithoutCons(s, '\n'); }
    }
  }

  lemma WithoutCons(s: string, c: char)
    requires s != []
    ensures Without(s, c) <==> s[0] != c && Without(s[1..], c)
  {
    if s[0] != c && Without(s[1..], c) {
      assert forall k :: 1 <= k < |s| ==> s[k] == s[1..][k - 1];
    }
  }

  /** A mount point comes back from the kernel's mount table exactly when it has
      neither a backslash nor a newline. */
  lemma KernelRoundTripIff(s: string)
    ensures Unescape(KernelEscape(s)) == s <==> Without(s, '\\') && Without(s, '\n')
  {
    UnescapeIsOnePass(KernelEscape(s));
    DecodeKernelEscape(s);
    GarbleIsSameIff(s);
  }

  /** Escaping of a device in the mount table of the kernel, which adds `#`. */
  function KernelEscapeDevice(s: string): string {
    if s == [] then [] else DeviceChar(s[0]) + KernelEscapeDevice(s[1..])
  }

  function DeviceChar(c: char): string {
    if c == '#' then "\\043" else KernelEscapeChar(c)
  }

  /** An escape is a backslash and the character's code in octal. */
  lemma EscapesAreOctal(c: char)
    requires c in " \t\n\\#"
    ensures var n := c as int;
      && DeviceChar(c) == "\\" + [DigitChar(n / 64), DigitChar(n / 8 % 8), DigitChar(n % 8)]
      && (c != '#' ==> KernelEscapeChar(c) == DeviceChar(c))
  {
    assert c as int in {9, 10, 32, 35, 92};
  }

  lemma DeviceCharIsSame(c: char)
    requires !IsSpace(c)
    ensures Word(DeviceChar(c))
    ensures if c == '\\' || c == '#' then |DeviceChar(c)| == 4 else DeviceChar(c) == [c]
  {
  }

  /** The parser does not decode devices, so nothing may be escaped in one. */
  lemma {:induction false} DeviceIsSameIff(s: string)
    requires forall k :: 0 <= k < |s| ==> !IsSpace(s[k])
    ensures |KernelEscapeDevice(s)| >= |s| && forall k :: 0 <= k < |KernelEscapeDevice(s)| ==> !IsSpace(KernelEscapeDevice(s)[k])
    ensures KernelEscapeDevice(s) == s <==> Without(s, '\\') && Without(s, '#')
    ensures |KernelEscapeDevice(s)| == |s| <==> KernelEscapeDevice(s) == s
    decreases |s|
  {
    if s != [] {
      DeviceIsSameIff(s[1..]);
      DeviceCharIsSame(s[0]);
      assert s == [s[0]] + s[1..];
      WithoutCons(s, '\\');
      WithoutCons(s, '#');
    }
  }

  // ----- tables

  /** Fields that a line can hold; the mount point as it is written there. */
  ghost predicate Writable(l: Labels) {
    Word(l.device) && Word(l.mountPoint) && Word(l.fsType) && Word(l.options)
  }

  function LineFields(l: Labels): seq<string> {
    [l.device, l.mountPoint, l.fsType, l.options, "0", "0"]
  }

  /** A mount table with the given fields. */
  function Render(mounts: seq<Labels>): string {
    if mounts == [] then "" else Join(LineFields(mounts[0]), ' ') + "\n" + Render(mounts[1..])
  }

  /** The device and the mount point as a writer escapes them; the type and the
      options are taken as they are written. */
  function EscapeAll(mounts: seq<Labels>, escapeDevice: string -> string, escape: string -> string): seq<Labels> {
    if mounts == [] then []
    else [Escaped(mounts[0], escapeDevice, escape)] + EscapeAll(mounts[1..], escapeDevice, escape)
  }

  function Escaped(l: Labels, escapeDevice: string -> string, escape: string -> string): Labels {
    l.(device := escapeDevice(l.device), mountPoint := escape(l.mountPoint))
  }

  function AsIs(s: string): string { s }

  ghost predicate OnlyBlanksAndTabs(s: string) {
    forall k :: 0 <= k < |s| && IsSpace(s[k]) ==> s[k] in " \t"
  }

  /** What the parser can return at all: no field is empty, and of all white space
      only blanks and tabs get into a mount point, none into another field. */
  ghost predicate Returnable(l: Labels) {
    Word(l.device) && Word(l.fsType) && Word(l.options) && l.mountPoint != "" && OnlyBlanksAndTabs(l.mountPoint)
  }

  lemma {:induction false} DecodedBlanks(s: string)
    requires forall k :: 0 <= k < |s| ==> !IsSpace(s[k])
    ensures OnlyBlanksAndTabs(DecodeOnce(s)) && (s != "" ==> DecodeOnce(s) != "")
    decreases |s|
  {
    if s == [] {
    } else if SPACE <= s || TAB <= s {
      DecodedBlanks(s[4..]);
    } else {
      DecodedBlanks(s[1..]);
    }
  }

  /** Whatever the text. */
  lemma {:induction false} ParsedAreReturnable(lines: seq<string>)
    ensures var r := ParseLines(lines, "/"); r.Ok? ==> forall l :: l in r.value ==> Returnable(l)
    decreases |lines|
  {
    if lines != [] {
      ParsedAreReturnable(lines[1..]);
      FieldsAreWords(lines[0]);
      var parts := Fields(lines[0]);
      if |parts| >= 4 {
        assert Word(parts[0]) && Word(parts[1]) && Word(parts[2]) && Word(parts[3]);
        UnescapeIsOnePass(parts[1]);
        DecodedBlanks(parts[1]);
        assert Returnable(ToLabels(parts, "/"));
      }
    }
  }

  lemma {:induction false} EscapeIsWord(s: string)
    requires s != "" && OnlyBlanksAndTabs(s)
    ensures Word(Escape(s))
    decreases |s|
  {
    if |s| > 1 {
      EscapeIsWord(s[1..]);
    }
  }

  lemma KernelCharIsWord(c: char)
    requires !IsSpace(c) || c in " \t"
    ensures Word(KernelEscapeChar(c))
  {
  }

  lemma {:induction false} KernelEscapeIsWord(s: string)
    requires s != "" && OnlyBlanksAndTabs(s)
    ensures Word(KernelEscape(s))
    decreases |s|
  {
    KernelCharIsWord(s[0]);
    if |s| > 1 {
      KernelEscapeIsWord(s[1..]);
    }
  }

  lemma RenderedLine(l: Labels)
    requires Writable(l)
    ensures var line := Join(LineFields(l), ' ');
      Fields(line) == LineFields(l) && Without(line, '\n') && DropCR(line) == line
  {
    var words := LineFields(l);
    assert forall k :: 0 <= k < |words| ==> Word(words[k]);
    FieldsJoin(words);
    assert IsSpace('\n') && IsSpace('\r');
    JoinWithout(words, ' ', '\n');
    JoinWithout(words, ' ', '\r');
  }

  /** What parsing gives back for a line: its mount point decoded and without the
      rootfs prefix. */
  function Reread(l: Labels, rootfs: string): Labels {
    l.(mountPoint := StripRootfs(DecodeOnce(l.mountPoint), rootfs))
  }

  function RereadAll(mounts: seq<Labels>, rootfs: string): seq<Labels> {
    if mounts == [] then [] else [Reread(mounts[0], rootfs)] + RereadAll(mounts[1..], rootfs)
  }

  /** Parsing a table gives one entry per line, in order, each with the fields of
      its own line. */
  lemma {:induction false} ParseRendered(mounts: seq<Labels>, rootfs: string)
    requires forall k :: 0 <= k < |mounts| ==> Writable(mounts[k])
    ensures ParseLines(Lines(Render(mounts)), rootfs) == Ok(RereadAll(mounts, rootfs))
    decreases |mounts|
  {
    if mounts != [] {
      var l := mounts[0];
      ParseRendered(mounts[1..], rootfs);
      RenderedLine(l);
      LinesCons(Join(LineFields(l), ' '), Render(mounts[1..]));
      UnescapeIsOnePass(l.mountPoint);
      assert ToLabels(LineFields(l), rootfs) == Reread(l, rootfs);
    }
  }

  /** With the default rootfs and any way of escaping that leaves no white space:
      the table is read back as it was exactly when every device, which is not
      decoded, and every mount point, which is, comes back. */
  lemma TableRoundTripIff(mounts: seq<Labels>, escapeDevice: string -> string, escape: string -> string)
    requires forall k :: 0 <= k < |mounts| ==> Writable(Escaped(mounts[k], escapeDevice, escape))
    ensures ParseLines(Lines(Render(EscapeAll(mounts, escapeDevice, escape))), "/") == Ok(mounts)
      <==> forall k :: 0 <= k < |mounts| ==> ComesBack(mounts[k], escapeDevice, escape)
  {
    EscapedAreWritable(mounts, escapeDevice, escape);
    ParseRendered(EscapeAll(mounts, escapeDevice, escape), "/");
    RereadIsSameIff(mounts, escapeDevice, escape);
  }

  ghost predicate ComesBack(l: Labels, escapeDevice: string -> string, escape: string -> string) {
    escapeDevice(l.device) == l.device && Unescape(escape(l.mountPoint)) == l.mountPoint
  }

  lemma {:induction false} EscapedAreWritable(mounts: seq<Labels>, escapeDevice: string -> string, escape: string -> string)
    requires forall k :: 0 <= k < |mounts| ==> Writable(Escaped(mounts[k], escapeDevice, escape))
    ensures forall k :: 0 <= k < |EscapeAll(mounts, escapeDevice, escape)| ==> Writable(EscapeAll(mounts, escapeDevice, escape)[k])
    decreases |mounts|
  {
    if mounts != [] {
      EscapedAreWritable(mounts[1..], escapeDevice, escape);
    }
  }

  lemma {:induction false} RereadIsSameIff(mounts: seq<Labels>, escapeDevice: string -> string, escape: string -> string)
    ensures RereadAll(EscapeAll(mounts, escapeDevice, escape), "/") == mounts
      <==> forall k :: 0 <= k < |mounts| ==> ComesBack(mounts[k], escapeDevice, escape)
    decreases |mounts|
  {
    if mounts != [] {
      var rest := mounts[1..];
      RereadIsSameIff(rest, escapeDevice, escape);
      UnescapeIsOnePass(escape(mounts[0].mountPoint));
      assert mounts == [mounts[0]] + rest;
      assert forall n :: 0 <= n < |rest| ==> rest[n] == mounts[n + 1];
      var all := RereadAll(EscapeAll(mounts, escapeDevice, escape), "/");
      assert EscapeAll(mounts, escapeDevice, escape)[1..] == EscapeAll(rest, escapeDevice, escape);
      assert all[1..] == RereadAll(EscapeAll(rest, escapeDevice, escape), "/");
      assert all == mounts <==> all[0] == mounts[0] && all[1..] == rest;
    }
  }

  /** A writer that escapes space and tab in mount points and nothing else: a table
      of any mounts is read back as it was exactly when every mount is returnable
      and no mount point contains an escape sequence of its own. */
  lemma MountTableRoundTripIff(mounts: seq<Labels>)
    ensures ParseLines(Lines(Render(EscapeAll(mounts, AsIs, Escape))), "/") == Ok(mounts)
      <==> forall n :: 0 <= n < |mounts| ==> Returnable(mounts[n]) && forall k :: 0 <= k ==> !EscapeAt(mounts[n].mountPoint, k)
  {
    var lines := Lines(Render(EscapeAll(mounts, AsIs, Escape)));
    ParsedAreReturnable(lines);
    if forall n :: 0 <= n < |mounts| ==> Returnable(mounts[n]) {
      forall n | 0 <= n < |mounts|
        ensures Writable(Escaped(mounts[n], AsIs, Escape))
        ensures ComesBack(mounts[n], AsIs, Escape) <==> forall k :: 0 <= k ==> !EscapeAt(mounts[n].mountPoint, k)
      {
        EscapeIsWord(mounts[n].mountPoint);
        MountPointRoundTripIff(mounts[n].mountPoint);
      }
      TableRoundTripIff(mounts, AsIs, Escape);
    }
  }

  /** The parser gives back exactly the mounts that the kernel was asked to print:
      a returnable one whose mount point has no backslash and whose device has
      neither a backslash nor a `#`. */
  ghost predicate Survives(l: Labels) {
    Returnable(l) && Without(l.mountPoint, '\\') && Without(l.device, '\\') && Without(l.device, '#')
  }

  /** The kernel's own table, of any mounts whatever: it is read back as it was
      exactly when every mount survives. */
  lemma KernelTableRoundTripIff(mounts: seq<Labels>)
    ensures ParseLines(Lines(Render(EscapeAll(mounts, KernelEscapeDevice, KernelEscape))), "/") == Ok(mounts)
      <==> forall n :: 0 <= n < |mounts| ==> Survives(mounts[n])
  {
    var lines := Lines(Render(EscapeAll(mounts, KernelEscapeDevice, KernelEscape)));
    ParsedAreReturnable(lines);
    if forall n :: 0 <= n < |mounts| ==> Returnable(mounts[n]) {
      forall n | 0 <= n < |mounts|
        ensures Writable(Escaped(mounts[n], KernelEscapeDevice, KernelEscape))
        ensures ComesBack(mounts[n], KernelEscapeDevice, KernelEscape) <==> Survives(mounts[n])
      {
        SurvivesIff(mounts[n]);
      }
      TableRoundTripIff(mounts, KernelEscapeDevice, KernelEscape);
    }
  }

  lemma SurvivesIff(l: Labels)
    requires Returnable(l)
    ensures Writable(Escaped(l, KernelEscapeDevice, KernelEscape))
    ensures ComesBack(l, KernelEscapeDevice, KernelEscape) <==> Survives(l)
  {
    DeviceIsSameIff(l.device);
    KernelEscapeIsWord(l.mountPoint);
    KernelRoundTripIff(l.mountPoint);
    assert IsSpace('\n');
  }

  const NO_BREAK_SPACE := 0xa0 as char

  /** White space that the kernel does not escape ends a field: of a mount point
      with a no-break space, which has nothing to escape, the tail becomes the
      field that is read as the type of the filesystem. */
  lemma NoBreakSpaceIsLost(l: Labels, a: string, b: string)
    requires Survives(l) && Word(a) && Word(b) && Without(a, '\\') && Without(b, '\\')
    ensures var m := l.(mountPoint := a + [NO_BREAK_SPACE] + b);
      && Without(m.mountPoint, '\\') && Without(m.mountPoint, '\n')
      && Fields(Join(LineFields(Escaped(m, KernelEscapeDevice, KernelEscape)), ' '))
         == [l.device] + ([a] + ([b] + [l.fsType, l.options, "0", "0"]))
  {
    var m := l.(mountPoint := a + [NO_BREAK_SPACE] + b);
    BrokenPoint(a, b);
    DeviceIsSameIff(l.device);
    BrokenRow(m, a, b);
  }

  /** Nothing in such a mount point is escaped. */
  lemma BrokenPoint(a: string, b: string)
    requires Word(a) && Word(b) && Without(a, '\\') && Without(b, '\\')
    ensures var s := a + [NO_BREAK_SPACE] + b;
      Without(s, '\\') && Without(s, '\n') && KernelEscape(s) == s
  {
    var s := a + [NO_BREAK_SPACE] + b;
    assert IsSpace('\n') && IsSpace(' ') && IsSpace('\t');
    assert forall k :: 0 <= k < |s| ==> s[k] == NO_BREAK_SPACE || (!IsSpace(s[k]) && s[k] != '\\');
    KernelKeeps(s);
  }

  lemma BrokenRow(m: Labels, a: string, b: string)
    requires m.mountPoint == a + [NO_BREAK_SPACE] + b
    requires KernelEscape(m.mountPoint) == m.mountPoint && KernelEscapeDevice(m.device) == m.device
    requires Word(m.device) && Word(a) && Word(b) && Word(m.fsType) && Word(m.options)
    ensures Fields(Join(LineFields(Escaped(m, KernelEscapeDevice, KernelEscape)), ' '))
         == [m.device] + ([a] + ([b] + [m.fsType, m.options, "0", "0"]))
  {
    var more := [m.fsType, m.options, "0", "0"];
    WordsAre(more);
    assert LineFields(m) == [m.device] + ([m.mountPoint] + more);
    FieldsBroken(LineFields(m), m.device, a, NO_BREAK_SPACE, b, more);
  }

  lemma WordsAre(more: seq<string>)
    requires |more| == 4 && Word(more[0]) && Word(more[1]) && Word(more[2]) && Word(more[3])
    ensures forall k :: 0 <= k < |more| ==> Word(more[k])
  {
  }

  lemma {:induction false} KernelKeeps(s: string)
    requires forall k :: 0 <= k < |s| ==> s[k] != ' ' && s[k] != '\t' && s[k] != '\n' && s[k] != '\\'
    ensures KernelEscape(s) == s
    decreases |s|
  {
    if s != [] {
      KernelKeeps(s[1..]);
      assert s == [s[0]] + s[1..];
    }
  }

  lemma TwoBreaks(d: string, a: string, blank: char, y: string)
    requires Word(d) && Word(a) && IsSpace(blank)
    ensures Fields(d + [' '] + (a + [blank] + y)) == [d] + ([a] + Fields(y))
  {
    FieldsBreak(d, ' ', a + [blank] + y);
    FieldsBreak(a, blank, y);
  }

  lemma JoinBroken(d: string, a: string, blank: char, b: string, more: seq<string>)
    requires more != []
    ensures Join([d] + ([a + [blank] + b] + more), ' ') == d + [' '] + (a + [blank] + Join([b] + more, ' '))
  {
    var x := a + [blank] + b;
    JoinCons(d, [x] + more, ' ');
    JoinCons(x, more, ' ');
    JoinCons(b, more, ' ');
    Regroup(a, [blank], b, [' '], Join(more, ' '));
  }

  /** White space inside one field makes two of it. */
  lemma FieldsBroken(row: seq<string>, d: string, a: string, blank: char, b: string, more: seq<string>)
    requires row == [d] + ([a + [blank] + b] + more)
    requires Word(d) && Word(a) && IsSpace(blank) && Word(b) && more != [] && forall k :: 0 <= k < |more| ==> Word(more[k])
    ensures Fields(Join(row, ' ')) == [d] + ([a] + ([b] + more))
  {
    JoinBroken(d, a, blank, b, more);
    var tail := [b] + more;
    assert forall k :: 0 <= k < |tail| ==> Word(tail[k]);
    FieldsJoin(tail);
    TwoBreaks(d, a, blank, Join(tail, ' '));
  }
}
