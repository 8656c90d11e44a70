/** The ethtool collector: the metric name made from a driver's statistic name,
    the elimination of names that several statistics share, and the table of
    metric descriptions, which outlives a scrape. */
module Ethtool {
  import opened Wrappers
  import opened Strings
  import opened MapSums

  // ----- the name of a statistic

  predicate IsAlphanumeric(c: char) {
    '0' <= c <= '9' || 'a' <= c <= 'z' || 'A' <= c <= 'Z'
  }

  /** A character that the pattern `_*[^0-9A-Za-z_]+_*` takes for an invalid one. */
  predicate IsInvalid(c: char) {
    !IsAlphanumeric(c) && c != '_'
  }

  function Underscores(s: string): (n: nat)
    ensures n <= |s| && (n < |s| ==> s[n] != '_') && forall k :: 0 <= k < n ==> s[k] == '_'
  {
    if s == [] || s[0] != '_' then 0 else 1 + Underscores(s[1..])
  }

  function Invalids(s: string): (n: nat)
    ensures n <= |s| && (n < |s| ==> !IsInvalid(s[n])) && forall k :: 0 <= k < n ==> IsInvalid(s[k])
  {
    if s == [] || !IsInvalid(s[0]) then 0 else 1 + Invalids(s[1..])
  }

  /** The length of the match of that pattern at the start of s; 0 for none. */
  function BadLength(s: string): (n: nat)
    ensures n <= |s| && forall k :: 0 <= k < n ==> !IsAlphanumeric(s[k])
  {
    var u := Underscores(s);
    var v := Invalids(s[u..]);
    if v == 0 then 0
    else
      var w := Underscores(s[u + v..]);
      assert forall k :: u <= k < u + v ==> s[k] == s[u..][k - u];
      assert forall k :: u + v <= k < u + v + w ==> s[k] == s[u + v..][k - u - v];
      u + v + w
  }

  /** SanitizeMetricName */
  function Sanitize(s: string): string
    decreases |s|
  {
    if s == [] then []
    else if BadLength(s) > 0 then "_" + Sanitize(s[BadLength(s)..])
    else [s[0]] + Sanitize(s[1..])
  }

  function LowerChar(c: char): char {
    if 'A' <= c <= 'Z' then (c as int + 32) as char else c
  }

  /** strings.ToLower, on what Sanitize leaves. */
  function Lower(s: string): string {
    if s == [] then [] else [LowerChar(s[0])] + Lower(s[1..])
  }

  function TrimUnderscores(s: string): string {
    s[Underscores(s)..]
  }

  /** Replaces `(^|_)token(_|$)` by the word, from left to right; a separator
      that one match has taken is not there for the next. */
  function ReplaceToken(s: string, atStart: bool, token: string, word: string): string
    requires token != []
    decreases |s|
  {
    if atStart && s == token then word
    else if atStart && token + "_" <= s then word + "_" + ReplaceToken(s[|token| + 1..], false, token, word)
    else if s == "_" + token then "_" + word
    else if "_" + token + "_" <= s then "_" + word + "_" + ReplaceToken(s[|token| + 2..], false, token, word)
    else if s == [] then []
    else [s[0]] + ReplaceToken(s[1..], false, token, word)
  }

  /** The tokens spelled out, one after the other. */
  function SpellOut(s: string, tokens: seq<string>, words: seq<string>): string
    requires |tokens| == |words| && [] !in tokens
    decreases |tokens|
  {
    if tokens == [] then s
    else SpellOut(ReplaceToken(s, true, tokens[0], words[0]), tokens[1..], words[1..])
  }

  const TOKENS := ["rx", "tx"]
  const WORDS := ["received", "transmitted"]

  /** The name cleaned, before the tokens are spelled out. */
  function CleanName(metric: string): string {
    TrimUnderscores(Lower(Sanitize(metric)))
  }

  /** The name without the common prefix. */
  function MetricName(metric: string): string {
    SpellOut(CleanName(metric), TOKENS, WORDS)
  }

  const PREFIX := "node_ethtool_"

  /** buildEthtoolFQName; BuildFQName makes an empty name of an empty part. */
  function FQName(metric: string): string {
    if MetricName(metric) == "" then "" else PREFIX + MetricName(metric)
  }

  predicate IsNameChar(c: char) {
    '0' <= c <= '9' || 'a' <= c <= 'z' || c == '_'
  }

  ghost predicate NameChars(s: string) {
    forall k :: 0 <= k < |s| ==> IsNameChar(s[k])
  }

  ghost predicate HasAlphanumeric(s: string) {
    exists k :: 0 <= k < |s| && IsAlphanumeric(s[k])
  }

  lemma {:induction false} SanitizedChars(s: string)
    ensures forall k :: 0 <= k < |Sanitize(s)| ==> IsAlphanumeric(Sanitize(s)[k]) || Sanitize(s)[k] == '_'
    ensures HasAlphanumeric(Sanitize(s)) <==> HasAlphanumeric(s)
    decreases |s|
  {
    if s != [] {
      var n := if BadLength(s) > 0 then BadLength(s) else 1;
      var rest := s[n..];
      SanitizedChars(rest);
      var out := Sanitize(s);
      assert out[1..] == Sanitize(rest);
      assert IsInvalid(s[0]) ==> BadLength(s) > 0 by {
        assert s[0..] == s;
      }
      assert IsAlphanumeric(out[0]) <==> BadLength(s) == 0 && IsAlphanumeric(s[0]);
      HasAlphanumericSplit(s, n);
      HasAlphanumericSplit(out, 1);
    }
  }

  lemma HasAlphanumericSplit(s: string, n: nat)
    requires n <= |s|
    ensures HasAlphanumeric(s) <==> (exists k :: 0 <= k < n && IsAlphanumeric(s[k])) || HasAlphanumeric(s[n..])
  {
    if k :| 0 <= k < |s| && IsAlphanumeric(s[k]) {
      if k >= n {
        assert s[n..][k - n] == s[k];
      }
    }
    if k :| 0 <= k < |s[n..]| && IsAlphanumeric(s[n..][k]) {
      assert s[n + k] == s[n..][k];
    }
  }

  lemma {:induction false} LoweredChars(s: string)
    requires forall k :: 0 <= k < |s| ==> IsAlphanumeric(s[k]) || s[k] == '_'
    ensures |Lower(s)| == |s| && NameChars(Lower(s))
    ensures forall k :: 0 <= k < |s| ==> (IsAlphanumeric(Lower(s)[k]) <==> IsAlphanumeric(s[k]))
    decreases |s|
  {
    if s != [] {
      LoweredChars(s[1..]);
    }
  }

  lemma {:induction false} ReplacedChars(s: string, atStart: bool, token: string, word: string)
    requires token != [] && word != [] && NameChars(s) && NameChars(word)
    ensures NameChars(ReplaceToken(s, atStart, token, word))
    ensures ReplaceToken(s, atStart, token, word) == "" <==> s == ""
    decreases |s|
  {
    if atStart && s == token {
    } else if atStart && token + "_" <= s {
      ReplacedChars(s[|token| + 1..], false, token, word);
    } else if s == "_" + token {
    } else if "_" + token + "_" <= s {
      ReplacedChars(s[|token| + 2..], false, token, word);
    } else if s != [] {
      ReplacedChars(s[1..], false, token, word);
    }
  }

  lemma TrimmedChars(s: string)
    requires forall k :: 0 <= k < |s| ==> IsAlphanumeric(s[k]) || s[k] == '_'
    ensures NameChars(TrimUnderscores(Lower(s)))
    ensures TrimUnderscores(Lower(s)) == "" <==> !HasAlphanumeric(s)
  {
    LoweredChars(s);
    var b := Lower(s);
    var u := Underscores(b);
    assert forall k :: 0 <= k < |b| - u ==> TrimUnderscores(b)[k] == b[u + k];
    if u < |b| {
      assert IsAlphanumeric(s[u]);
    }
  }

  lemma {:induction false} SpelledChars(s: string, tokens: seq<string>, words: seq<string>)
    requires |tokens| == |words| && [] !in tokens && [] !in words
    requires NameChars(s) && forall k :: 0 <= k < |words| ==> NameChars(words[k])
    ensures NameChars(SpellOut(s, tokens, words)) && (SpellOut(s, tokens, words) == "" <==> s == "")
    decreases |tokens|
  {
    if tokens != [] {
      ReplacedChars(s, true, tokens[0], words[0]);
      SpelledChars(ReplaceToken(s, true, tokens[0], words[0]), tokens[1..], words[1..]);
    }
  }

  lemma SanitizedName(metric: string)
    ensures var name := CleanName(metric);
      NameChars(name) && (name == "" <==> !HasAlphanumeric(metric))
  {
    SanitizedChars(metric);
    TrimmedChars(Sanitize(metric));
  }

  lemma WordsAreNames()
    ensures |TOKENS| == |WORDS| == 2 && [] !in TOKENS && [] !in WORDS
    ensures forall k :: 0 <= k < |WORDS| ==> NameChars(WORDS[k])
  {
  }

  lemma MetricNameChars(metric: string)
    ensures NameChars(MetricName(metric)) && (MetricName(metric) == "" <==> !HasAlphanumeric(metric))
  {
    SanitizedName(metric);
    WordsAreNames();
    SpelledChars(CleanName(metric), TOKENS, WORDS);
  }

  lemma PrefixedChars(prefix: string, name: string)
    requires NameChars(prefix) && NameChars(name)
    ensures prefix <= prefix + name && NameChars(prefix + name)
  {
  }

  /** For every statistic name whatever, the full name is made of lower-case
      letters, digits and underscores behind the common prefix, and it is empty
      exactly when the statistic name has no letter or digit. */
  lemma FQNameIsValid(metric: string)
    ensures FQName(metric) == "" <==> !HasAlphanumeric(metric)
    ensures FQName(metric) != "" ==> "node_ethtool_" <= FQName(metric) && NameChars(FQName(metric))
  {
    MetricNameChars(metric);
    PrefixedChars(PREFIX, MetricName(metric));
  }

  // ----- what the cleaning does, character by character

  ghost predicate AllUnderscores(s: string) {
    forall k :: 0 <= k < |s| ==> s[k] == '_'
  }

  ghost predicate AllInvalid(s: string) {
    forall k :: 0 <= k < |s| ==> IsInvalid(s[k])
  }

  ghost predicate NoneInvalid(s: string) {
    forall k :: 0 <= k < |s| ==> !IsInvalid(s[k])
  }

  /** A part that the pattern leaves alone: it holds no invalid character, and if
      underscores end it, no invalid character follows them. */
  ghost predicate StandsAlone(a: string, rest: string) {
    NoneInvalid(a) && (a == "" || IsAlphanumeric(a[|a| - 1]) || rest == "" || IsAlphanumeric(rest[0]))
  }

  lemma NoMatchInside(s: string, u: nat)
    requires u < |s| && AllUnderscores(s[..u]) && IsAlphanumeric(s[u])
    ensures BadLength(s) == 0
  {
    assert forall k :: 0 <= k < u ==> s[k] == s[..u][k];
    assert Underscores(s) == u && s[u..][0] == s[u];
  }

  lemma NoMatchAtEnd(s: string)
    requires NoneInvalid(s)
    ensures BadLength(s) == 0
  {
    var u := Underscores(s);
    assert u < |s| ==> s[u..][0] == s[u];
  }

  lemma NoMatchAt(a: string, rest: string)
    requires StandsAlone(a, rest) && a != ""
    ensures BadLength(a + rest) == 0
  {
    var s, u := a + rest, Underscores(a);
    if u < |a| {
      assert s[..u] == a[..u] && s[u] == a[u];
      NoMatchInside(s, u);
    } else if rest == "" {
      assert s == a;
      NoMatchAtEnd(s);
    } else {
      assert s[..u] == a[..u] && s[u] == rest[0];
      NoMatchInside(s, u);
    }
  }

  lemma Copies(s: string, c: char, t: string)
    requires s == [c] + t && BadLength(s) == 0
    ensures Sanitize(s) == [c] + Sanitize(t)
  {
    assert s[0] == c && s[1..] == t;
  }

  lemma Replaces(s: string, t: string)
    requires BadLength(s) > 0 && s[BadLength(s)..] == t
    ensures Sanitize(s) == "_" + Sanitize(t)
  {
  }

  lemma Regrouped(a: string, rest: string, out: string)
    requires a != ""
    ensures a + rest == [a[0]] + (a[1..] + rest) && [a[0]] + (a[1..] + out) == a + out
  {
  }

  lemma AloneTail(a: string, rest: string)
    requires StandsAlone(a, rest) && a != ""
    ensures StandsAlone(a[1..], rest)
  {
  }

  lemma {:induction false} PartIsKept(a: string, rest: string)
    requires StandsAlone(a, rest)
    ensures Sanitize(a + rest) == a + Sanitize(rest)
    decreases |a|
  {
    if a == "" {
      assert a + rest == rest;
    } else {
      NoMatchAt(a, rest);
      AloneTail(a, rest);
      PartIsKept(a[1..], rest);
      Regrouped(a, rest, Sanitize(rest));
      Copies(a + rest, a[0], a[1..] + rest);
    }
  }

  /** A string without invalid characters is kept. */
  lemma CleanIsKept(s: string)
    requires NoneInvalid(s)
    ensures Sanitize(s) == s
  {
    PartIsKept(s, "");
    assert s + "" == s;
  }

  lemma UnderscoresOf(u: string, t: string)
    requires AllUnderscores(u) && (t == "" || t[0] != '_')
    ensures Underscores(u + t) == |u| && (u + t)[|u|..] == t
  {
    var s := u + t;
    assert forall k :: 0 <= k < |u| ==> s[k] == u[k];
    assert t != "" ==> s[|u|] == t[0];
  }

  lemma InvalidsOf(v: string, t: string)
    requires AllInvalid(v) && (t == "" || !IsInvalid(t[0]))
    ensures Invalids(v + t) == |v| && (v + t)[|v|..] == t
  {
    var s := v + t;
    assert forall k :: 0 <= k < |v| ==> s[k] == v[k];
    assert t != "" ==> s[|v|] == t[0];
  }

  lemma CutAfter(u: string, t: string, k: nat)
    requires k <= |t|
    ensures (u + t)[|u| + k..] == t[k..]
  {
  }

  lemma InvalidsThenUnderscores(v: string, w: string, rest: string)
    requires v != "" && AllInvalid(v) && AllUnderscores(w)
    requires rest == "" || (rest[0] != '_' && (w == "" ==> !IsInvalid(rest[0])))
    ensures var t := v + (w + rest);
      && Invalids(t) == |v|
      && Underscores(t[|v|..]) == |w|
      && t[|v| + |w|..] == rest
  {
    assert w + rest != "" ==> (w + rest)[0] == if w != "" then w[0] else rest[0];
    InvalidsOf(v, w + rest);
    UnderscoresOf(w, rest);
    CutAfter(v, w + rest, |w|);
  }

  lemma MatchLength(u: string, v: string, w: string, rest: string)
    requires AllUnderscores(u) && v != "" && AllInvalid(v) && AllUnderscores(w)
    requires rest == "" || (rest[0] != '_' && (w == "" ==> !IsInvalid(rest[0])))
    ensures BadLength(u + (v + (w + rest))) == |u| + |v| + |w|
    ensures (u + (v + (w + rest)))[|u| + |v| + |w|..] == rest
  {
    var t := v + (w + rest);
    assert t[0] == v[0];
    InvalidsThenUnderscores(v, w, rest);
    UnderscoresOf(u, t);
    CutAfter(u, t, |v|);
    CutAfter(u, t, |v| + |w|);
  }

  /** One block of invalid characters becomes one underscore, the underscores on
      both sides of it included; what is before is kept. */
  lemma BlockIsReplaced(a: string, u: string, v: string, w: string, rest: string)
    requires NoneInvalid(a) && (a == "" || IsAlphanumeric(a[|a| - 1]))
    requires AllUnderscores(u) && v != "" && AllInvalid(v) && AllUnderscores(w)
    requires rest == "" || (rest[0] != '_' && (w == "" ==> !IsInvalid(rest[0])))
    ensures Sanitize(a + (u + (v + (w + rest)))) == a + ("_" + Sanitize(rest))
  {
    MatchLength(u, v, w, rest);
    Replaces(u + (v + (w + rest)), rest);
    PartIsKept(a, u + (v + (w + rest)));
  }

  /** How many blocks of consecutive invalid characters there are. */
  function Blocks(s: string, inside: bool): nat {
    if s == "" then 0
    else if IsInvalid(s[0]) then (if inside then 0 else 1) + Blocks(s[1..], true)
    else Blocks(s[1..], false)
  }

  function Bars(n: nat): string {
    if n == 0 then "" else "_" + Bars(n - 1)
  }

  lemma {:induction false} BlocksBehind(s: string, rest: string, inside: bool)
    requires AllUnderscores(s)
    ensures Blocks(s + rest, inside) == Blocks(rest, inside && s == "")
    decreases |s|
  {
    if s == "" {
      assert s + rest == rest;
    } else {
      assert (s + rest)[1..] == s[1..] + rest;
      BlocksBehind(s[1..], rest, false);
    }
  }

  lemma {:induction false} BlocksInside(v: string, rest: string)
    requires AllInvalid(v)
    ensures Blocks(v + rest, true) == Blocks(rest, true)
    decreases |v|
  {
    if v == "" {
      assert v + rest == rest;
    } else {
      assert (v + rest)[1..] == v[1..] + rest;
      BlocksInside(v[1..], rest);
    }
  }

  ghost predicate IsRun(s: string) {
    forall k :: 0 <= k < |s| ==> !IsAlphanumeric(s[k])
  }

  lemma CutUnderscores(s: string) returns (u: string, t: string)
    ensures s == u + t && AllUnderscores(u) && (t == "" || t[0] != '_')
  {
    var n := Underscores(s);
    u, t := s[..n], s[n..];
  }

  lemma CutInvalids(s: string) returns (v: string, t: string)
    ensures s == v + t && AllInvalid(v) && (t == "" || !IsInvalid(t[0])) && (s != "" && IsInvalid(s[0]) ==> v != "")
  {
    var n := Invalids(s);
    v, t := s[..n], s[n..];
  }

  lemma RunTail(a: string, t: string)
    requires IsRun(a + t)
    ensures IsRun(t)
  {
    assert forall k :: 0 <= k < |t| ==> t[k] == (a + t)[|a| + k];
  }

  /** The first block of a run, with the underscores around it. */
  lemma CutRun(run: string) returns (u: string, v: string, w: string, more: string)
    requires IsRun(run) && Blocks(run, false) > 0
    ensures run == u + (v + (w + more)) && AllUnderscores(u) && v != "" && AllInvalid(v) && AllUnderscores(w)
    ensures more == "" || (IsInvalid(more[0]) && w != "")
    ensures IsRun(more)
  {
    var t: string, x: string;
    u, t := CutUnderscores(run);
    RunTail(u, t);
    BlocksBehind(u, t, false);
    assert t != "" && !IsAlphanumeric(t[0]);
    v, x := CutInvalids(t);
    RunTail(v, x);
    w, more := CutUnderscores(x);
    RunTail(w, more);
    assert more != "" ==> !IsAlphanumeric(more[0]);
    assert w == "" ==> more == x;
  }

  /** A run of invalid characters and underscores becomes one underscore for every
      block of invalid characters in it: a single one exactly if there is one
      block, whatever stands around it. */
  lemma {:induction false} RunIsReplaced(run: string, rest: string)
    requires IsRun(run) && (run == "" || Blocks(run, false) > 0) && (rest == "" || IsAlphanumeric(rest[0]))
    ensures Sanitize(run + rest) == Bars(Blocks(run, false)) + Sanitize(rest)
    decreases |run|
  {
    if run == "" {
      assert run + rest == rest;
      BarsStep(0, Sanitize(rest));
    } else {
      var u, v, w, more := CutRun(run);
      MoreBlocks(more);
      RunIsReplaced(more, rest);
      RunParts(run, u, v, w, more);
      RunStep(run, u, v, w, more, rest);
      BarsStep(Blocks(more, false), Sanitize(rest));
    }
  }

  lemma BarsStep(n: nat, out: string)
    ensures "_" + (Bars(n) + out) == Bars(n + 1) + out
    ensures Bars(0) + out == out
  {
  }

  lemma FourParts(u: string, v: string, w: string, more: string, rest: string)
    ensures u + (v + (w + more)) + rest == u + (v + (w + (more + rest)))
  {
  }

  lemma RunStep(run: string, u: string, v: string, w: string, more: string, rest: string)
    requires run == u + (v + (w + more)) && AllUnderscores(u) && v != "" && AllInvalid(v) && AllUnderscores(w)
    requires more == "" || (IsInvalid(more[0]) && w != "")
    requires rest == "" || IsAlphanumeric(rest[0])
    ensures Sanitize(run + rest) == "_" + Sanitize(more + rest)
  {
    var tail := more + rest;
    assert tail != "" ==> tail[0] == if more != "" then more[0] else rest[0];
    MatchLength(u, v, w, tail);
    FourParts(u, v, w, more, rest);
    Replaces(run + rest, tail);
  }

  /** So a run inside a name becomes a single underscore exactly if it holds one
      block of invalid characters; `a _ b` has two and keeps two underscores. */
  lemma SingleUnderscoreIff(a: string, run: string, b: string)
    requires NoneInvalid(a) && (a == "" || IsAlphanumeric(a[|a| - 1]))
    requires IsRun(run) && Blocks(run, false) > 0 && (b == "" || IsAlphanumeric(b[0]))
    ensures Sanitize(a + (run + b)) == a + (Bars(Blocks(run, false)) + Sanitize(b))
    ensures Sanitize(a + (run + b)) == a + ("_" + Sanitize(b)) <==> Blocks(run, false) == 1
  {
    PartIsKept(a, run + b);
    RunIsReplaced(run, b);
    BarsLength(Blocks(run, false));
    var out := Sanitize(b);
    assert |a + (Bars(Blocks(run, false)) + out)| == |a| + Blocks(run, false) + |out|;
  }

  lemma TwoBlocks()
    ensures Blocks(" _ ", false) == 2 && Bars(2) == "__"
  {
    assert " _ "[1..] == "_ " && "_ "[1..] == " " && " "[1..] == "";
    assert Bars(1) == "_";
  }

  /** In `a _ b` the underscore goes with the first blank, and the second blank is
      replaced by itself. */
  lemma TwoBlocksKeepTwo(run: string)
    requires run == " _ "
    ensures Sanitize("a" + (run + "b")) == "a" + ("__" + Sanitize("b")) != "a" + ("_" + Sanitize("b"))
  {
    TwoBlocks();
    SingleUnderscoreIff("a", run, "b");
  }

  lemma {:induction false} BarsLength(n: nat)
    ensures |Bars(n)| == n && AllUnderscores(Bars(n)) && (n == 1 ==> Bars(n) == "_")
  {
    if n > 0 {
      BarsLength(n - 1);
    }
  }


  lemma MoreBlocks(more: string)
    requires more == "" || IsInvalid(more[0])
    ensures more == "" || Blocks(more, false) > 0
  {
  }

  lemma RunParts(run: string, u: string, v: string, w: string, more: string)
    requires run == u + (v + (w + more)) && AllUnderscores(u) && v != "" && AllInvalid(v) && AllUnderscores(w)
    requires more != "" ==> w != ""
    ensures Blocks(run, false) == 1 + Blocks(more, false)
  {
    var t := v + (w + more);
    BlocksBehind(u, t, false);
    assert t[1..] == v[1..] + (w + more);
    BlocksInside(v[1..], w + more);
    BlocksBehind(w, more, true);
  }

  /** The lower-case letter of the same position, for every letter of either case. */
  lemma {:induction false} LowerAt(s: string, k: nat)
    requires k < |s|
    ensures |Lower(s)| == |s|
    ensures Lower(s)[k] == if 'A' <= s[k] <= 'Z' then 'a' + (s[k] - 'A') else s[k]
    decreases |s|
  {
    if |s| > 1 {
      LowerAt(s[1..], if k > 0 then k - 1 else 0);
    }
  }

  /** Only underscores are trimmed, and all that lead. */
  lemma TrimmedFront(s: string)
    ensures var t := TrimUnderscores(s);
      |t| <= |s| && s[|s| - |t|..] == t && AllUnderscores(s[..|s| - |t|]) && (t == "" || t[0] != '_')
  {
  }

  /** Writing one block of invalid characters instead of an underscore makes no
      difference to the full name: the two statistics are duplicates. */
  lemma BlockMakesDuplicate(a: string, u: string, v: string, w: string, b: string)
    requires NoneInvalid(a) && a != "" && IsAlphanumeric(a[|a| - 1]) && b != "" && IsAlphanumeric(b[0])
    requires AllUnderscores(u) && v != "" && AllInvalid(v) && AllUnderscores(w)
    ensures FQName(a + (u + (v + (w + b)))) == FQName(a + ("_" + b))
  {
    BlockIsReplaced(a, u, v, w, b);
    PartIsKept(a, "_" + b);
    PartIsKept("_", b);
  }

  // ----- duplicate names

  /** The statistics that the pattern includes and that produce the name. */
  function Sources(keys: set<string>, pattern: string -> bool, fqName: string): set<string> {
    set m | m in keys && pattern(m) && FQName(m) == fqName
  }

  /** What the table says of a name: absent without a source, its source when
      there is one, a tombstone when there are more. */
  ghost predicate TableAt(table: map<string, string>, fqName: string, sources: set<string>) {
    && (fqName in table <==> sources != {})
    && (forall m :: sources == {m} ==> table[fqName] == m)
    && (|sources| >= 2 ==> table[fqName] == "")
  }

  ghost predicate IsTable(table: map<string, string>, keys: set<string>, pattern: string -> bool) {
    forall fqName :: TableAt(table, fqName, Sources(keys, pattern, fqName))
  }

  function AddName(table: map<string, string>, pattern: string -> bool, metric: string): map<string, string> {
    if !pattern(metric) then table
    else table[FQName(metric) := if FQName(metric) in table then "" else metric]
  }

  method NameTable(stats: map<string, U64>, pattern: string -> bool) returns (table: map<string, string>)
    ensures IsTable(table, stats.Keys, pattern)
  {
    table := map[];
    var todo := stats.Keys;
    ghost var done: set<string> := {};
    while todo != {}
      invariant done + todo == stats.Keys && done !! todo
      invariant IsTable(table, done, pattern)
      decreases |todo|
    {
      var metric := Pick(todo);
      todo := todo - {metric};
      ghost var before, was := done, table;
      done := done + {metric};
      if pattern(metric) {
        var fqName := FQName(metric);
        table := table[fqName := if fqName in table then "" else metric];
      }
      assert table == AddName(was, pattern, metric);
      forall fqName
        ensures TableAt(table, fqName, Sources(done, pattern, fqName))
      {
        AddSource(was, before, pattern, metric, fqName);
      }
    }
  }

  /** One turn of the loop, seen at one name. */
  lemma AddSource(table: map<string, string>, done: set<string>, pattern: string -> bool, metric: string, fqName: string)
    requires metric !in done && TableAt(table, fqName, Sources(done, pattern, fqName))
    ensures TableAt(AddName(table, pattern, metric), fqName, Sources(done + {metric}, pattern, fqName))
  {
    var s := Sources(done, pattern, fqName);
    var s' := Sources(done + {metric}, pattern, fqName);
    if pattern(metric) && FQName(metric) == fqName {
      assert s' == s + {metric};
      forall m | s' == {m}
        ensures s == {} && m == metric
      {
        assert metric in s' && |s'| == 1;
      }
    } else {
      assert s' == s;
    }
  }

  lemma SoleSourceAt(table: map<string, string>, fqName: string, sources: set<string>)
    requires TableAt(table, fqName, sources) && fqName in table && table[fqName] != ""
    ensures sources == {table[fqName]}
  {
    var n :| n in sources;
    if sources != {n} {
      var o :| o in sources && o != n;
      SubsetSize({n, o}, sources);
    }
  }

  lemma SoleSource(table: map<string, string>, keys: set<string>, pattern: string -> bool, fqName: string)
    requires IsTable(table, keys, pattern) && fqName in table && table[fqName] != ""
    ensures Sources(keys, pattern, fqName) == {table[fqName]}
  {
    SoleSourceAt(table, fqName, Sources(keys, pattern, fqName));
  }

  /** The table is the same for every order in which the statistics come. */
  lemma TableIsUnique(a: map<string, string>, b: map<string, string>, keys: set<string>, pattern: string -> bool)
    requires IsTable(a, keys, pattern) && IsTable(b, keys, pattern)
    ensures a == b
  {
    forall fqName
      ensures fqName in a <==> fqName in b
      ensures fqName in a ==> a[fqName] == b[fqName]
    {
      var s := Sources(keys, pattern, fqName);
      assert TableAt(a, fqName, s) && TableAt(b, fqName, s);
      if fqName in a && a[fqName] != "" {
        SoleSource(a, keys, pattern, fqName);
      } else if fqName in a && b[fqName] != "" {
        SoleSource(b, keys, pattern, fqName);
      }
    }
  }

  /** The statistic is the only included one with its metric name. */
  ghost predicate IsOnlySource(keys: set<string>, pattern: string -> bool, m: string) {
    m in keys && pattern(m) && forall n :: n in keys && pattern(n) && FQName(n) == FQName(m) ==> n == m
  }

  /** A statistic is emitted, under its own metric name, exactly when the pattern
      includes it, its name is not empty, and no other included one produces the
      same metric name. */
  lemma EmittedIffOnlySource(table: map<string, string>, keys: set<string>, pattern: string -> bool, fqName: string, m: string)
    requires IsTable(table, keys, pattern) && m != ""
    ensures fqName in table && table[fqName] == m <==> fqName == FQName(m) && IsOnlySource(keys, pattern, m)
  {
    var s := Sources(keys, pattern, fqName);
    assert TableAt(table, fqName, s);
    if fqName in table && table[fqName] == m {
      SoleSource(table, keys, pattern, fqName);
      assert m in s;
      forall n | n in keys && pattern(n) && FQName(n) == FQName(m)
        ensures n == m
      {
        assert n in s;
      }
    }
    if fqName == FQName(m) && IsOnlySource(keys, pattern, m) {
      assert m in s && s == {m};
    }
  }

  // ----- the descriptions

  datatype Desc = Desc(fqName: string, labels: seq<string>)

  datatype Sample = Sample(desc: Desc, value: U64, device: string)

  type Entries = map<string, Desc>

  /** The description of a statistic: the pre-populated one, or one with its own name. */
  function DescOf(prepopulated: Entries, metric: string): Desc {
    if metric in prepopulated then prepopulated[metric] else Desc(FQName(metric), ["device"])
  }

  /** What is not dropped is a statistic that produces the name. */
  ghost predicate NamesStats(table: map<string, string>, stats: map<string, U64>) {
    forall fqName :: fqName in table && table[fqName] != "" ==> table[fqName] in stats && FQName(table[fqName]) == fqName
  }

  /** What is emitted for one name: nothing if it has been dropped. */
  ghost function SampleOf(prepopulated: Entries, stats: map<string, U64>, table: map<string, string>, fqName: string, device: string): seq<Sample>
    requires NamesStats(table, stats) && fqName in table
  {
    var metric := table[fqName];
    if metric == "" then [] else [Sample(DescOf(prepopulated, metric), stats[metric], device)]
  }

  /** What is emitted for the names of the table, taken in the given order. */
  ghost function Emission(prepopulated: Entries, stats: map<string, U64>, table: map<string, string>, names: seq<string>, device: string): seq<Sample>
    requires NamesStats(table, stats) && forall k :: 0 <= k < |names| ==> names[k] in table
  {
    if names == [] then []
    else
      var n := |names| - 1;
      Emission(prepopulated, stats, table, names[..n], device) + SampleOf(prepopulated, stats, table, names[n], device)
  }

  /** Every entry that was there is there unchanged. */
  ghost predicate Extends(before: Entries, after: Entries) {
    forall k :: k in before ==> k in after && after[k] == before[k]
  }

  function NetworkDesc(name: string, labels: seq<string>): Desc {
    Desc("node_network_" + name, ["device"] + labels)
  }

  function EthtoolDesc(name: string): Desc {
    Desc(PREFIX + name, ["device"])
  }

  const ETHTOOL_ENTRIES: Entries := map[
    "rx_bytes" := EthtoolDesc("received_bytes_total"),
    "rx_dropped" := EthtoolDesc("received_dropped_total"),
    "rx_errors" := EthtoolDesc("received_errors_total"),
    "rx_packets" := EthtoolDesc("received_packets_total"),
    "tx_bytes" := EthtoolDesc("transmitted_bytes_total"),
    "tx_errors" := EthtoolDesc("transmitted_errors_total"),
    "tx_packets" := EthtoolDesc("transmitted_packets_total")
  ]

  const LINK_ENTRIES: Entries := map[
    "supported_port" := NetworkDesc("supported_port_info", ["type"]),
    "supported_speed" := NetworkDesc("supported_speed_bytes", ["duplex", "mode"]),
    "supported_autonegotiate" := NetworkDesc("autonegotiate_supported", []),
    "supported_pause" := NetworkDesc("pause_supported", []),
    "supported_asymmetricpause" := NetworkDesc("asymmetricpause_supported", []),
    "advertised_speed" := NetworkDesc("advertised_speed_bytes", ["duplex", "mode"]),
    "advertised_autonegotiate" := NetworkDesc("autonegotiate_advertised", []),
    "advertised_pause" := NetworkDesc("pause_advertised", []),
    "advertised_asymmetricpause" := NetworkDesc("asymmetricpause_advertised", []),
    "autonegotiate" := NetworkDesc("autonegotiate", [])
  ]

  /** The entries that a new collector starts with. */
  const PREPOPULATED := ETHTOOL_ENTRIES + LINK_ENTRIES

  class EthtoolCollector {
    const prepopulated: Entries
    var entries: Entries

    /** Pre-populated entries are as they were, all others are named after their key. */
    ghost predicate Valid()
      reads this
    {
      && (forall k :: k in prepopulated ==> k in entries)
      && (forall k :: k in entries ==> entries[k] == DescOf(prepopulated, k))
    }

    constructor ()
      ensures Valid() && entries == PREPOPULATED && prepopulated == PREPOPULATED
    {
      prepopulated := PREPOPULATED;
      entries := PREPOPULATED;
    }

    /** Never changes an entry that is there. */
    method EntryWithCreate(key: string, metricFQName: string) returns (desc: Desc)
      modifies this
      ensures entries == if key in old(entries) then old(entries) else old(entries)[key := Desc(metricFQName, ["device"])]
      ensures desc == entries[key]
      ensures old(Valid()) && metricFQName == FQName(key) ==> Valid() && desc == DescOf(prepopulated, key)
    {
      if key !in entries {
        entries := entries[key := Desc(metricFQName, ["device"])];
      }
      desc := entries[key];
    }

    method EmitName(device: string, stats: map<string, U64>, table: map<string, string>, fqName: string) returns (out: seq<Sample>)
      requires Valid() && NamesStats(table, stats) && fqName in table
      modifies this
      ensures Valid() && Extends(old(entries), entries)
      ensures out == SampleOf(prepopulated, stats, table, fqName, device)
    {
      var metric := table[fqName];
      if metric == "" {
        return [];
      }
      var entry := EntryWithCreate(metric, fqName);
      out := [Sample(entry, stats[metric], device)];
    }

    /** The second half of Update, for one device: a sample for every name whose
        statistic has not been dropped. */
    method EmitAll(device: string, stats: map<string, U64>, table: map<string, string>, keys: seq<string>) returns (out: seq<Sample>)
      requires Valid() && NamesStats(table, stats) && forall k :: 0 <= k < |keys| ==> keys[k] in table
      modifies this
      ensures Valid() && Extends(old(entries), entries)
      ensures out == Emission(prepopulated, stats, table, keys, device)
    {
      out := [];
      for n := 0 to |keys|
        invariant Valid() && Extends(old(entries), entries)
        invariant out == Emission(prepopulated, stats, table, keys[..n], device)
      {
        var sample := EmitName(device, stats, table, keys[n]);
        out := out + sample;
        assert keys[..n + 1][..n] == keys[..n];
      }
      assert keys[..|keys|] == keys;
    }

    /** The statistics of one device.  What is emitted depends on nothing but the
        statistics, the pattern and the pre-populated entries: neither the order
        in which the statistics come nor what earlier scrapes left in the table. */
    method UpdateStats(device: string, stats: map<string, U64>, pattern: string -> bool) returns (out: seq<Sample>, ghost table: map<string, string>)
      requires Valid()
      modifies this
      ensures Valid()
      ensures Extends(old(entries), entries)
      ensures IsTable(table, stats.Keys, pattern) && NamesStats(table, stats)
      ensures var names := SortedKeys(table.Keys);
        (forall k :: 0 <= k < |names| ==> names[k] in table)
        && out == Emission(prepopulated, stats, table, names, device)
    {
      var metricFQNames := NameTable(stats, pattern);
      table := metricFQNames;
      TableNamesStats(table, stats, pattern);
      var keys := SortKeys(metricFQNames.Keys);
      SortedKeysAreSorted(table.Keys);
      assert forall k :: 0 <= k < |keys| ==> keys[k] in keys;
      out := EmitAll(device, stats, metricFQNames, keys);
    }
  }

  lemma TableNamesStats(table: map<string, string>, stats: map<string, U64>, pattern: string -> bool)
    requires IsTable(table, stats.Keys, pattern)
    ensures NamesStats(table, stats)
  {
    forall fqName | fqName in table && table[fqName] != ""
      ensures table[fqName] in stats && FQName(table[fqName]) == fqName
    {
      SoleSource(table, stats.Keys, pattern, fqName);
      assert table[fqName] in Sources(stats.Keys, pattern, fqName);
    }
  }

  // ----- which statistics are emitted, and under which names

  /** The statistics of the names that have not been dropped, in order. */
  ghost function Kept(table: map<string, string>, names: seq<string>): seq<string>
    requires forall k :: 0 <= k < |names| ==> names[k] in table
  {
    if names == [] then []
    else
      var n := |names| - 1;
      Kept(table, names[..n]) + if table[names[n]] == "" then [] else [table[names[n]]]
  }

  /** There is one sample per statistic kept. */
  lemma {:induction false} EmissionOfKept(prepopulated: Entries, stats: map<string, U64>, table: map<string, string>, names: seq<string>, device: string)
    requires NamesStats(table, stats) && forall k :: 0 <= k < |names| ==> names[k] in table
    ensures var out, kept := Emission(prepopulated, stats, table, names, device), Kept(table, names);
      && |out| == |kept|
      && forall i :: 0 <= i < |out| ==> kept[i] in stats && out[i] == Sample(DescOf(prepopulated, kept[i]), stats[kept[i]], device)
    decreases |names|
  {
    if names != [] {
      EmissionOfKept(prepopulated, stats, table, names[..|names| - 1], device);
    }
  }

  lemma {:induction false} KeptIff(table: map<string, string>, names: seq<string>, m: string)
    requires forall k :: 0 <= k < |names| ==> names[k] in table
    ensures m in Kept(table, names) <==> m != "" && exists k :: 0 <= k < |names| && table[names[k]] == m
    decreases |names|
  {
    if names != [] {
      var n := |names| - 1;
      KeptIff(table, names[..n], m);
      assert names == names[..n] + [names[n]];
    }
  }

  ghost predicate FullNamesDiffer(kept: seq<string>) {
    forall i, j :: 0 <= i < j < |kept| ==> FQName(kept[i]) != FQName(kept[j])
  }

  /** No two statistics kept have the same full name. */
  lemma {:induction false} KeptAreDifferent(stats: map<string, U64>, table: map<string, string>, names: seq<string>)
    requires NamesStats(table, stats) && Distinct(names) && forall k :: 0 <= k < |names| ==> names[k] in table
    ensures FullNamesDiffer(Kept(table, names))
    decreases |names|
  {
    if names != [] {
      var n := |names| - 1;
      var before, kept := Kept(table, names[..n]), Kept(table, names);
      KeptAreDifferent(stats, table, names[..n]);
      forall i, j | 0 <= i < j < |kept|
        ensures FQName(kept[i]) != FQName(kept[j])
      {
        assert kept[i] == before[i];
        if j == |before| {
          KeptIff(table, names[..n], before[i]);
          var k :| 0 <= k < n && table[names[k]] == before[i];
          assert FQName(before[i]) == names[k] && kept[j] == table[names[n]] && FQName(kept[j]) == names[n];
          assert names[k] != names[n];
        } else {
          assert kept[j] == before[j] && FQName(before[i]) != FQName(before[j]);
        }
      }
    }
  }

  /** A device yields exactly one sample for every statistic that the pattern
      includes, that has a name, and whose full name no other included one has;
      and no other samples. */
  lemma EmissionIsExact(stats: map<string, U64>, pattern: string -> bool, table: map<string, string>, m: string)
    requires IsTable(table, stats.Keys, pattern)
    ensures var names := SortedKeys(table.Keys);
      && (forall k :: 0 <= k < |names| ==> names[k] in table)
      && (m in Kept(table, names) <==> m != "" && IsOnlySource(stats.Keys, pattern, m))
      && forall i, j :: 0 <= i < j < |Kept(table, names)| ==> Kept(table, names)[i] != Kept(table, names)[j]
  {
    var names := SortedKeys(table.Keys);
    SortedKeysAreSorted(table.Keys);
    assert forall k :: 0 <= k < |names| ==> names[k] in names;
    TableNamesStats(table, stats, pattern);
    KeptIff(table, names, m);
    KeptAreDifferent(stats, table, names);
    if m != "" {
      EmittedIffOnlySource(table, stats.Keys, pattern, FQName(m), m);
      forall k | 0 <= k < |names|
        ensures table[names[k]] == m ==> names[k] == FQName(m)
      {
        EmittedIffOnlySource(table, stats.Keys, pattern, names[k], m);
      }
    }
  }

  ghost predicate NamesDiffer(out: seq<Sample>) {
    forall i, j :: 0 <= i < j < |out| ==> out[i].desc.fqName != out[j].desc.fqName
  }

  /** The statistic p is emitted under the full name of m, which is emitted too. */
  ghost predicate Clash(prepopulated: Entries, p: string, m: string) {
    p in prepopulated && m !in prepopulated && prepopulated[p].fqName == FQName(m)
  }

  /** The names of one emission need not differ, although the full names do: they
      do exactly when no statistic kept has the full name under which another,
      pre-populated one is emitted. */
  lemma EmittedNamesDifferIff(prepopulated: Entries, stats: map<string, U64>, table: map<string, string>, names: seq<string>, device: string)
    requires NamesStats(table, stats) && Distinct(names) && forall k :: 0 <= k < |names| ==> names[k] in table
    requires forall a, b :: a in prepopulated && b in prepopulated && prepopulated[a].fqName == prepopulated[b].fqName ==> a == b
    ensures NamesDiffer(Emission(prepopulated, stats, table, names, device))
      <==> forall p, m :: p in Kept(table, names) && m in Kept(table, names) ==> !Clash(prepopulated, p, m)
  {
    var out, kept := Emission(prepopulated, stats, table, names, device), Kept(table, names);
    EmissionOfKept(prepopulated, stats, table, names, device);
    KeptAreDifferent(stats, table, names);
    if p, m :| p in kept && m in kept && Clash(prepopulated, p, m) {
      var i :| 0 <= i < |kept| && kept[i] == p;
      var j :| 0 <= j < |kept| && kept[j] == m;
      assert out[i].desc.fqName == out[j].desc.fqName && i != j;
    }
    if i, j :| 0 <= i < j < |out| && out[i].desc.fqName == out[j].desc.fqName {
      assert kept[i] in kept && kept[j] in kept;
      assert Clash(prepopulated, kept[i], kept[j]) || Clash(prepopulated, kept[j], kept[i]);
    }
  }

  lemma {:induction false} CleanNameKept(s: string)
    requires NameChars(s)
    ensures Lower(Sanitize(s)) == s
  {
    if s != [] {
      assert s[Underscores(s)..] != [] ==> !IsInvalid(s[Underscores(s)..][0]);
      assert [s[0]] + s[1..] == s;
      CleanNameKept(s[1..]);
    }
  }

  // ----- the two tokens, field by field

  /** Replaces the parts that are the token, from left to right; the part after a
      replaced one stays, because its separator is used up. */
  function Spell(parts: seq<string>, free: bool, token: string, word: string): seq<string> {
    if parts == [] then []
    else if free && parts[0] == token then [word] + Spell(parts[1..], false, token, word)
    else [parts[0]] + Spell(parts[1..], true, token, word)
  }

  ghost predicate PlainParts(parts: seq<string>) {
    forall k :: 0 <= k < |parts| ==> Without(parts[k], '_')
  }

  lemma {:induction false} SpellIsPlain(parts: seq<string>, free: bool, token: string, word: string)
    requires PlainParts(parts) && Without(word, '_')
    ensures PlainParts(Spell(parts, free, token, word)) && |Spell(parts, free, token, word)| == |parts|
    decreases |parts|
  {
    if parts != [] {
      SpellIsPlain(parts[1..], !(free && parts[0] == token), token, word);
    }
  }

  /** Where a joined list starts with the token and a separator. */
  lemma StartsWithToken(parts: seq<string>, token: string)
    requires parts != [] && PlainParts(parts) && Without(token, '_')
    ensures Join(parts, '_') == token <==> parts == [token]
    ensures token + "_" <= Join(parts, '_') <==> |parts| > 1 && parts[0] == token
  {
    var s, x := Join(parts, '_'), parts[0];
    if |parts| > 1 {
      assert s == x + ['_'] + Join(parts[1..], '_');
      assert s[|x|] == '_' && forall k :: 0 <= k < |x| ==> s[k] == x[k];
      if token + "_" <= s {
        assert (token + "_")[|token|] == s[|token|] == '_' && forall k :: 0 <= k < |token| ==> s[k] == (token + "_")[k] == token[k];
        assert |x| == |token| && x == s[..|x|] == token;
      }
      if x == token {
        assert s[..|token| + 1] == token + "_";
      }
    } else {
      assert forall k :: 0 <= k < |s| ==> s[k] != (token + "_")[|token|];
    }
  }

  /** Characters other than the separator are copied. */
  lemma {:induction false} FieldKept(x: string, rest: string, token: string, word: string)
    requires token != [] && Without(x, '_')
    ensures ReplaceToken(x + rest, false, token, word) == x + ReplaceToken(rest, false, token, word)
    decreases |x|
  {
    if x == [] {
      assert x + rest == rest;
    } else {
      var u := x[1..] + rest;
      FieldKept(x[1..], rest, token, word);
      assert x + rest == [x[0]] + u && (x + rest)[1..] == u;
      assert ("_" + token)[0] == ("_" + token + "_")[0] == '_' != (x + rest)[0];
      assert [x[0]] + (x[1..] + ReplaceToken(rest, false, token, word)) == x + ReplaceToken(rest, false, token, word);
    }
  }

  ghost predicate Spellable(parts: seq<string>, token: string) {
    parts != [] && PlainParts(parts) && token != "" && Without(token, '_')
  }

  /** Behind a match, whose separator is used up. */
  lemma {:induction false} SpellBehind(parts: seq<string>, token: string, word: string)
    requires Spellable(parts, token)
    ensures ReplaceToken(Join(parts, '_'), false, token, word) == Join(Spell(parts, false, token, word), '_')
    decreases |parts|, 0
  {
    var x := parts[0];
    assert Without(x, '_');
    if |parts| == 1 {
      FieldKept(x, "", token, word);
      assert x + "" == x && Spell(parts, false, token, word) == [x];
    } else {
      var rest := parts[1..];
      SpellNext(rest, token, word);
      assert Join(parts, '_') == x + ("_" + Join(rest, '_'));
      FieldKept(x, "_" + Join(rest, '_'), token, word);
      SpellLength(rest, true, token, word);
      JoinCons(x, Spell(rest, true, token, word), '_');
    }
  }

  lemma AtSeparator(parts: seq<string>, token: string)
    requires Spellable(parts, token)
    ensures "_" + Join(parts, '_') == "_" + token <==> parts == [token]
    ensures "_" + token + "_" <= "_" + Join(parts, '_') <==> |parts| > 1 && parts[0] == token
  {
    var s := "_" + Join(parts, '_');
    assert s[1..] == Join(parts, '_') && ("_" + token)[1..] == token && ("_" + token + "_")[1..] == token + "_";
    StartsWithToken(parts, token);
    assert "_" + token + "_" <= s <==> token + "_" <= Join(parts, '_') by {
      assert "_" + token + "_" == ['_'] + (token + "_") && s == ['_'] + Join(parts, '_');
    }
  }

  lemma TokenIsReplaced(token: string, word: string, rest: string)
    requires token != ""
    ensures ReplaceToken("_" + token + "_" + rest, false, token, word) == "_" + word + "_" + ReplaceToken(rest, false, token, word)
  {
    var s := "_" + token + "_" + rest;
    assert |s| > |"_" + token|;
    assert "_" + token + "_" <= s && s[|token| + 2..] == rest;
  }

  lemma Behind(word: string, out: string)
    ensures "_" + word + "_" + out == "_" + (word + "_" + out)
  {
  }

  /** At a separator. */
  lemma {:induction false} SpellNext(parts: seq<string>, token: string, word: string)
    requires Spellable(parts, token)
    ensures ReplaceToken("_" + Join(parts, '_'), false, token, word) == "_" + Join(Spell(parts, true, token, word), '_')
    decreases |parts|, 1
  {
    var s := "_" + Join(parts, '_');
    assert s[1..] == Join(parts, '_');
    AtSeparator(parts, token);
    if parts == [token] {
      assert Spell(parts, true, token, word) == [word];
    } else if parts[0] == token {
      var rest := parts[1..];
      SpellBehind(rest, token, word);
      assert s == "_" + token + "_" + Join(rest, '_');
      TokenIsReplaced(token, word, Join(rest, '_'));
      SpellLength(rest, false, token, word);
      JoinCons(word, Spell(rest, false, token, word), '_');
      Behind(word, Join(Spell(rest, false, token, word), '_'));
    } else {
      SpellBehind(parts, token, word);
    }
  }

  lemma {:induction false} SpellLength(parts: seq<string>, free: bool, token: string, word: string)
    ensures |Spell(parts, free, token, word)| == |parts|
    decreases |parts|
  {
    if parts != [] {
      SpellLength(parts[1..], !(free && parts[0] == token), token, word);
    }
  }

  /** For every name: replacing a token is replacing fields. */
  lemma ReplaceIsPerField(parts: seq<string>, token: string, word: string)
    requires Spellable(parts, token)
    ensures ReplaceToken(Join(parts, '_'), true, token, word) == Join(Spell(parts, true, token, word), '_')
  {
    StartsWithToken(parts, token);
    if parts == [token] {
      assert Spell(parts, true, token, word) == [word];
    } else if parts[0] == token {
      var rest := parts[1..];
      SpellBehind(rest, token, word);
      assert Join(parts, '_')[|token| + 1..] == Join(rest, '_');
      SpellLength(rest, false, token, word);
      JoinCons(word, Spell(rest, false, token, word), '_');
    } else {
      SpellBehind(parts, token, word);
    }
  }

  function SpellAll(parts: seq<string>, tokens: seq<string>, words: seq<string>): seq<string>
    requires |tokens| == |words|
    decreases |tokens|
  {
    if tokens == [] then parts else SpellAll(Spell(parts, true, tokens[0], words[0]), tokens[1..], words[1..])
  }

  lemma {:induction false} SpellOutPerField(parts: seq<string>, tokens: seq<string>, words: seq<string>)
    requires parts != [] && PlainParts(parts)
    requires |tokens| == |words| && [] !in tokens && PlainParts(tokens) && PlainParts(words)
    ensures SpellOut(Join(parts, '_'), tokens, words) == Join(SpellAll(parts, tokens, words), '_')
    decreases |tokens|
  {
    if tokens != [] {
      ReplaceIsPerField(parts, tokens[0], words[0]);
      SpellIsPlain(parts, true, tokens[0], words[0]);
      SpellOutPerField(Spell(parts, true, tokens[0], words[0]), tokens[1..], words[1..]);
    }
  }

  lemma TokensArePlain()
    ensures |TOKENS| == |WORDS| && [] !in TOKENS && PlainParts(TOKENS) && PlainParts(WORDS)
  {
  }

  /** For every statistic with a letter or digit the full name is the prefix and
      the fields of the cleaned name, the rx fields and then the tx fields
      spelled out. */
  lemma FQNamePerField(metric: string)
    requires HasAlphanumeric(metric)
    ensures FQName(metric) == PREFIX + Join(SpellAll(Split(CleanName(metric), '_'), TOKENS, WORDS), '_')
  {
    var name := CleanName(metric);
    SanitizedName(metric);
    SplitParts(name, '_');
    JoinSplit(name, '_');
    TokensArePlain();
    SpellOutPerField(Split(name, '_'), TOKENS, WORDS);
    WordsAreNames();
    SpelledChars(name, TOKENS, WORDS);
  }

  lemma CleanNameIsKept(metric: string)
    requires NameChars(metric) && metric != "" && metric[0] != '_'
    ensures CleanName(metric) == metric && HasAlphanumeric(metric)
  {
    CleanNameKept(metric);
    assert IsAlphanumeric(metric[0]);
  }

  lemma {:induction false} SpellNothing(parts: seq<string>, free: bool, token: string, word: string)
    requires token !in parts
    ensures Spell(parts, free, token, word) == parts
    decreases |parts|
  {
    if parts != [] {
      assert parts == [parts[0]] + parts[1..];
      SpellNothing(parts[1..], true, token, word);
    }
  }

  /** A list that starts with one of the two tokens and does not hold them otherwise. */
  lemma SpellLeading(parts: seq<string>, t: string, w: string, t': string, w': string)
    requires t != t' && t' != w && t !in parts && t' !in parts
    ensures SpellAll([t] + parts, [t, t'], [w, w']) == [w] + parts
    ensures SpellAll([t'] + parts, [t, t'], [w, w']) == [w'] + parts
  {
    assert [t, t'][1..] == [t'] && [w, w'][1..] == [w'] && [t'][1..] == [] && [w'][1..] == [];
    assert ([t] + parts)[1..] == parts && ([t'] + parts)[1..] == parts && ([w] + parts)[1..] == parts;
    SpellNothing(parts, false, t, w);
    SpellNothing([w] + parts, true, t', w');
    SpellNothing([t'] + parts, true, t, w);
    SpellNothing(parts, false, t', w');
    assert SpellAll([w] + parts, [t'], [w']) == SpellAll([w] + parts, [], []);
    assert SpellAll([t'] + parts, [t'], [w']) == SpellAll([w'] + parts, [], []);
  }

  /** Neither of the two tokens is a field of the name. */
  ghost predicate TokenFree(rest: string) {
    "rx" !in Split(rest, '_') && "tx" !in Split(rest, '_')
  }

  lemma LeadingName(lead: string, word: string, rest: string)
    requires NameChars(lead) && NameChars(rest) && lead != "" && Without(lead, '_') && lead[0] != '_' && word != ""
    requires SpellAll([lead] + Split(rest, '_'), TOKENS, WORDS) == [word] + Split(rest, '_')
    ensures FQName(lead + "_" + rest) == PREFIX + (word + "_" + rest)
  {
    SplitCons(lead, '_', rest);
    JoinCons(word, Split(rest, '_'), '_');
    JoinSplit(rest, '_');
    CleanNameIsKept(lead + "_" + rest);
    FQNamePerField(lead + "_" + rest);
  }

  lemma ReceivedText(rest: string)
    ensures "rx" + "_" + rest == "rx_" + rest
    ensures PREFIX + ("received" + "_" + rest) == PREFIX + "received_" + rest
  {
    assert "rx" + "_" == "rx_" && "received" + "_" == "received_";
  }

  lemma ReceivedName(rest: string)
    requires NameChars(rest) && TokenFree(rest)
    ensures FQName("rx_" + rest) == PREFIX + "received_" + rest
  {
    SpellLeading(Split(rest, '_'), "rx", "received", "tx", "transmitted");
    LeadingName("rx", "received", rest);
    ReceivedText(rest);
  }

  lemma TransmittedText(rest: string)
    ensures "tx" + "_" + rest == "tx_" + rest
    ensures PREFIX + ("transmitted" + "_" + rest) == PREFIX + "transmitted_" + rest
  {
    assert "tx" + "_" == "tx_" && "transmitted" + "_" == "transmitted_";
  }

  lemma TransmittedName(rest: string)
    requires NameChars(rest) && TokenFree(rest)
    ensures FQName("tx_" + rest) == PREFIX + "transmitted_" + rest
  {
    SpellLeading(Split(rest, '_'), "rx", "received", "tx", "transmitted");
    LeadingName("tx", "transmitted", rest);
    TransmittedText(rest);
  }

  /** Whatever the table is pre-populated with, an entry named after a total is
      emitted under the full name of the statistic called that total. */
  lemma TotalsClash(prepopulated: Entries, rest: string, total: string)
    requires NameChars(rest) && NameChars(total) && TokenFree(rest) && TokenFree(total) && rest != total
    requires "rx_" + rest in prepopulated && "rx_" + total !in prepopulated
    requires prepopulated["rx_" + rest].fqName == PREFIX + "received_" + total
    ensures FQName("rx_" + rest) != FQName("rx_" + total)
    ensures DescOf(prepopulated, "rx_" + rest).fqName == DescOf(prepopulated, "rx_" + total).fqName
  {
    ReceivedName(rest);
    ReceivedName(total);
    var n := |PREFIX + "received_"|;
    assert (PREFIX + "received_" + rest)[n..] == rest && (PREFIX + "received_" + total)[n..] == total;
  }

  lemma RxBytesIsPrepopulated()
    ensures "rx_" + "bytes" in PREPOPULATED && "rx_" + "bytes_total" !in PREPOPULATED
    ensures PREPOPULATED["rx_" + "bytes"].fqName == PREFIX + "received_" + "bytes_total"
  {
    assert "rx_" + "bytes" == "rx_bytes" && "received_" + "bytes_total" == "received_bytes_total";
    assert |"rx_" + "bytes_total"| == 14 && ("rx_" + "bytes_total")[0] == 'r' && "supported_port"[0] == 's';
    assert PREFIX + "received_" + "bytes_total" == PREFIX + ("received_" + "bytes_total");
  }

  /** Two statistics that are emitted, and share a description name. */
  lemma ClashShows(prepopulated: Entries, stats: map<string, U64>, pattern: string -> bool, table: map<string, string>, device: string, p: string, m: string)
    requires IsTable(table, stats.Keys, pattern) && p != "" && m != "" && p != m
    requires IsOnlySource(stats.Keys, pattern, p) && IsOnlySource(stats.Keys, pattern, m)
    requires DescOf(prepopulated, p).fqName == DescOf(prepopulated, m).fqName
    ensures var names := SortedKeys(table.Keys);
      && NamesStats(table, stats) && (forall k :: 0 <= k < |names| ==> names[k] in table)
      && !NamesDiffer(Emission(prepopulated, stats, table, names, device))
  {
    var names := SortedKeys(table.Keys);
    EmissionIsExact(stats, pattern, table, p);
    EmissionIsExact(stats, pattern, table, m);
    TableNamesStats(table, stats, pattern);
    EmissionOfKept(prepopulated, stats, table, names, device);
    var out, kept := Emission(prepopulated, stats, table, names, device), Kept(table, names);
    var i :| 0 <= i < |kept| && kept[i] == p;
    var j :| 0 <= j < |kept| && kept[j] == m;
    assert out[i].desc.fqName == out[j].desc.fqName && i != j;
  }

  lemma TotalsShow(prepopulated: Entries, stats: map<string, U64>, pattern: string -> bool, table: map<string, string>, device: string, rest: string, total: string)
    requires NameChars(rest) && NameChars(total) && TokenFree(rest) && TokenFree(total) && rest != total
    requires "rx_" + rest in prepopulated && "rx_" + total !in prepopulated
    requires prepopulated["rx_" + rest].fqName == PREFIX + "received_" + total
    requires IsTable(table, stats.Keys, pattern) && stats.Keys == {"rx_" + rest, "rx_" + total}
    requires pattern("rx_" + rest) && pattern("rx_" + total)
    ensures var names := SortedKeys(table.Keys);
      && NamesStats(table, stats) && (forall k :: 0 <= k < |names| ==> names[k] in table)
      && !NamesDiffer(Emission(prepopulated, stats, table, names, device))
  {
    TotalsClash(prepopulated, rest, total);
    ClashShows(prepopulated, stats, pattern, table, device, "rx_" + rest, "rx_" + total);
  }

  lemma LongFieldsAreTokenFree(a: string, b: string, whole: string)
    requires Without(a, '_') && Without(b, '_') && |a| > 2 && |b| > 2 && whole == a + "_" + b
    ensures TokenFree(a) && TokenFree(whole)
  {
    SplitPlain(a, '_');
    SplitPlain(b, '_');
    SplitCons(a, '_', b);
  }

  lemma BytesAreNames()
    ensures NameChars("bytes") && NameChars("bytes_total")
  {
  }

  lemma BytesAreTokenFree()
    ensures TokenFree("bytes") && TokenFree("bytes_total")
  {
    LongFieldsAreTokenFree("bytes", "total", "bytes_total");
  }

  /** A device with these two statistics gets two samples under one name. */
  lemma RxBytesClash(stats: map<string, U64>, pattern: string -> bool, table: map<string, string>, device: string)
    requires IsTable(table, stats.Keys, pattern) && stats.Keys == {"rx_" + "bytes", "rx_" + "bytes_total"}
    requires pattern("rx_" + "bytes") && pattern("rx_" + "bytes_total")
    ensures var names := SortedKeys(table.Keys);
      && NamesStats(table, stats) && (forall k :: 0 <= k < |names| ==> names[k] in table)
      && !NamesDiffer(Emission(PREPOPULATED, stats, table, names, device))
  {
    RxBytesIsPrepopulated();
    BytesAreNames();
    BytesAreTokenFree();
    TotalsShow(PREPOPULATED, stats, pattern, table, device, "bytes", "bytes_total");
  }

  /** The description is the one that the statistic would get by itself, with
      `_total` behind its name. */
  ghost predicate IsTotalOf(d: Desc, key: string) {
    d == Desc(FQName(key) + "_total", ["device"])
  }

  lemma PlainIsTokenFree(rest: string)
    requires Without(rest, '_') && |rest| > 2
    ensures TokenFree(rest)
  {
    SplitPlain(rest, '_');
  }

  lemma Appended(a: string, b: string, c: string, d: string)
    ensures a + (b + c + d) == a + b + c + d
  {
  }

  lemma ReceivedTotal(rest: string, key: string, total: string)
    requires NameChars(rest) && Without(rest, '_') && |rest| > 2
    requires key == "rx_" + rest && total == "received_" + rest + "_total"
    ensures IsTotalOf(EthtoolDesc(total), key)
  {
    PlainIsTokenFree(rest);
    ReceivedName(rest);
    Appended(PREFIX, "received_", rest, "_total");
  }

  lemma TransmittedTotal(rest: string, key: string, total: string)
    requires NameChars(rest) && Without(rest, '_') && |rest| > 2
    requires key == "tx_" + rest && total == "transmitted_" + rest + "_total"
    ensures IsTotalOf(EthtoolDesc(total), key)
  {
    PlainIsTokenFree(rest);
    TransmittedName(rest);
    Appended(PREFIX, "transmitted_", rest, "_total");
  }

  lemma ReceivedRest(k: string) returns (rest: string)
    requires k in ["rx_bytes", "rx_dropped", "rx_errors", "rx_packets"]
    ensures NameChars(rest) && Without(rest, '_') && |rest| > 2 && k == "rx_" + rest
  {
    if k == "rx_bytes" {
      rest := "bytes";
    } else if k == "rx_dropped" {
      rest := "dropped";
    } else if k == "rx_errors" {
      rest := "errors";
    } else {
      rest := "packets";
    }
  }

  lemma ReceivedEntry(k: string, rest: string)
    requires k in ["rx_bytes", "rx_dropped", "rx_errors", "rx_packets"] && rest == k[3..]
    ensures ETHTOOL_ENTRIES[k] == EthtoolDesc("received_" + rest + "_total")
  {
    if k == "rx_bytes" {
      assert rest == "bytes" && "received_" + "bytes" + "_total" == "received_bytes_total";
    } else if k == "rx_dropped" {
      assert rest == "dropped" && "received_" + "dropped" + "_total" == "received_dropped_total";
    } else if k == "rx_errors" {
      assert rest == "errors" && "received_" + "errors" + "_total" == "received_errors_total";
    } else {
      assert rest == "packets" && "received_" + "packets" + "_total" == "received_packets_total";
    }
  }

  lemma TransmittedRest(k: string) returns (rest: string)
    requires k in ["tx_bytes", "tx_errors", "tx_packets"]
    ensures NameChars(rest) && Without(rest, '_') && |rest| > 2 && k == "tx_" + rest
  {
    if k == "tx_bytes" {
      rest := "bytes";
    } else if k == "tx_errors" {
      rest := "errors";
    } else {
      rest := "packets";
    }
  }

  lemma TransmittedEntry(k: string, rest: string)
    requires k in ["tx_bytes", "tx_errors", "tx_packets"] && rest == k[3..]
    ensures ETHTOOL_ENTRIES[k] == EthtoolDesc("transmitted_" + rest + "_total")
  {
    if k == "tx_bytes" {
      assert rest == "bytes" && "transmitted_" + "bytes" + "_total" == "transmitted_bytes_total";
    } else if k == "tx_errors" {
      assert rest == "errors" && "transmitted_" + "errors" + "_total" == "transmitted_errors_total";
    } else {
      assert rest == "packets" && "transmitted_" + "packets" + "_total" == "transmitted_packets_total";
    }
  }

  /** A pre-populated statistic is described under the name that it would get by
      itself, with `_total` behind it. */
  lemma TotalsExtendTheName(k: string)
    requires k in ETHTOOL_ENTRIES
    ensures ETHTOOL_ENTRIES[k] == Desc(FQName(k) + "_total", ["device"])
  {
    var received := ["rx_bytes", "rx_dropped", "rx_errors", "rx_packets"];
    var transmitted := ["tx_bytes", "tx_errors", "tx_packets"];
    assert k in received || k in transmitted;
    if k in received {
      var rest := ReceivedRest(k);
      ReceivedEntry(k, rest);
      ReceivedTotal(rest, k, "received_" + rest + "_total");
    } else {
      var rest := TransmittedRest(k);
      TransmittedEntry(k, rest);
      TransmittedTotal(rest, k, "transmitted_" + rest + "_total");
    }
  }

  /** Which statistics are pre-populated. */
  lemma PrepopulatedKeys()
    ensures PREPOPULATED.Keys == {
      "rx_bytes", "rx_dropped", "rx_errors", "rx_packets", "tx_bytes", "tx_errors", "tx_packets",
      "supported_port", "supported_speed", "supported_autonegotiate", "supported_pause", "supported_asymmetricpause",
      "advertised_speed", "advertised_autonegotiate", "advertised_pause", "advertised_asymmetricpause", "autonegotiate" }
  {
  }

  /** The link entries have network names; those with a port or a speed have more
      labels than the device. */
  lemma LinkEntries()
    ensures LINK_ENTRIES["supported_port"] == Desc("node_network_" + "supported_port_info", ["device", "type"])
    ensures LINK_ENTRIES["supported_speed"] == Desc("node_network_" + "supported_speed_bytes", ["device", "duplex", "mode"])
    ensures LINK_ENTRIES["supported_autonegotiate"] == Desc("node_network_" + "autonegotiate_supported", ["device"])
    ensures LINK_ENTRIES["supported_pause"] == Desc("node_network_" + "pause_supported", ["device"])
    ensures LINK_ENTRIES["supported_asymmetricpause"] == Desc("node_network_" + "asymmetricpause_supported", ["device"])
    ensures LINK_ENTRIES["advertised_speed"] == Desc("node_network_" + "advertised_speed_bytes", ["device", "duplex", "mode"])
    ensures LINK_ENTRIES["advertised_autonegotiate"] == Desc("node_network_" + "autonegotiate_advertised", ["device"])
    ensures LINK_ENTRIES["advertised_pause"] == Desc("node_network_" + "pause_advertised", ["device"])
    ensures LINK_ENTRIES["advertised_asymmetricpause"] == Desc("node_network_" + "asymmetricpause_advertised", ["device"])
    ensures LINK_ENTRIES["autonegotiate"] == Desc("node_network_" + "autonegotiate", ["device"])
  {
  }

  /** The pre-populated entry with this name, found by the length and two characters. */
  function KeyOf(name: string): string {
    var n := |name|;
    if n <= 22 then ""
    else if name[5] == 'e' then (
      if n == 33 then "rx_bytes"
      else if n == 35 && name[22] == 'd' then "rx_dropped"
      else if n == 34 then "rx_errors"
      else if n == 35 && name[22] == 'p' then "rx_packets"
      else if n == 36 then "tx_bytes"
      else if n == 37 then "tx_errors"
      else if n == 38 then "tx_packets"
      else "")
    else (
      if n == 32 then "supported_port"
      else if n == 34 then "supported_speed"
      else if n == 36 then "supported_autonegotiate"
      else if n == 28 then "supported_pause"
      else if n == 38 then "supported_asymmetricpause"
      else if n == 35 then "advertised_speed"
      else if n == 37 then "advertised_autonegotiate"
      else if n == 29 then "advertised_pause"
      else if n == 39 then "advertised_asymmetricpause"
      else if n == 26 then "autonegotiate"
      else "")
  }

  lemma EthtoolKeysAreFound()
    ensures forall k :: k in ETHTOOL_ENTRIES ==> KeyOf(ETHTOOL_ENTRIES[k].fqName) == k
  {
  }

  lemma LinkKeysAreFound()
    ensures forall k :: k in LINK_ENTRIES ==> KeyOf(LINK_ENTRIES[k].fqName) == k
  {
  }

  lemma FoundNamesDiffer(entries: Entries)
    requires forall k :: k in entries ==> KeyOf(entries[k].fqName) == k
    ensures forall a, b :: a in entries && b in entries && entries[a].fqName == entries[b].fqName ==> a == b
  {
    forall a, b | a in entries && b in entries && entries[a].fqName == entries[b].fqName
      ensures a == b
    {
      assert KeyOf(entries[a].fqName) == a;
    }
  }

  /** No two pre-populated entries have the same name. */
  lemma PrepopulatedNamesDiffer()
    ensures forall a, b :: a in PREPOPULATED && b in PREPOPULATED && PREPOPULATED[a].fqName == PREPOPULATED[b].fqName ==> a == b
  {
    EthtoolKeysAreFound();
    LinkKeysAreFound();
    FoundNamesDiffer(PREPOPULATED);
  }

  /** What a device of a real collector is given: names that all differ, exactly
      when no statistic kept has the full name of a pre-populated one kept. */
  lemma DeviceNamesDifferIff(stats: map<string, U64>, pattern: string -> bool, table: map<string, string>, device: string)
    requires IsTable(table, stats.Keys, pattern)
    ensures var names := SortedKeys(table.Keys);
      && NamesStats(table, stats) && (forall k :: 0 <= k < |names| ==> names[k] in table)
      && (NamesDiffer(Emission(PREPOPULATED, stats, table, names, device))
          <==> forall p, m :: p != "" && m != "" && IsOnlySource(stats.Keys, pattern, p) && IsOnlySource(stats.Keys, pattern, m) ==>
                 !Clash(PREPOPULATED, p, m))
  {
    var names := SortedKeys(table.Keys);
    SortedKeysAreSorted(table.Keys);
    assert forall k :: 0 <= k < |names| ==> names[k] in names;
    TableNamesStats(table, stats, pattern);
    PrepopulatedNamesDiffer();
    EmittedNamesDifferIff(PREPOPULATED, stats, table, names, device);
    forall m
      ensures m in Kept(table, names) <==> m != "" && IsOnlySource(stats.Keys, pattern, m)
    {
      EmissionIsExact(stats, pattern, table, m);
    }
  }
}
