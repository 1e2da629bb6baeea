/**
 * The version-safety classifier (`isVersionBumpSafeToMerge`): the two line
 * templates a dependency-update bot writes, recognised as the anchored
 * regular expressions of the source do, and the verdict over a whole pull
 * request description.
 */
module VersionBump {
  import opened Wrappers
  import opened Text
  import opened SemVer

  /** The two character classes of the templates: `[@a-zA-Z\-/0-9]` for
      package names and `[0-9.]` for versions. */
  datatype CharClass = PackageChars | VersionChars

  predicate InClass(c: char, k: CharClass) {
    match k
    case PackageChars => c == '@' || 'a' <= c <= 'z' || 'A' <= c <= 'Z' || c == '-' || c == '/' || '0' <= c <= '9'
    case VersionChars => '0' <= c <= '9' || c == '.'
  }

  predicate AllIn(s: string, k: CharClass) {
    forall i :: 0 <= i < |s| ==> InClass(s[i], k)
  }

  /** The characters a regular-expression `.` does not match. */
  predicate IsLineTerminator(c: char) {
    c == '\n' || c == '\r' || c == '\U{2028}' || c == '\U{2029}'
  }

  predicate NoLineTerminator(s: string) {
    forall i :: 0 <= i < |s| ==> !IsLineTerminator(s[i])
  }

  /** The characters a lone `.` of a pattern without the `u` flag matches:
      JavaScript strings are UTF-16, so `.` takes one code unit, and a
      character outside the Basic Multilingual Plane (two code units) is
      not matched by it. */
  predicate IsSingleUnit(c: char) {
    !IsLineTerminator(c) && (c as int) < 0x1_0000
  }

  /** The length of the longest prefix of `s` drawn from class `k`: how far a
      greedy `[...]+` runs. */
  function Span(s: string, k: CharClass): (n: nat)
    ensures n <= |s| && AllIn(s[..n], k)
    ensures n < |s| ==> !InClass(s[n], k)
  {
    if s == [] || !InClass(s[0], k) then 0
    else
      var n := 1 + Span(s[1..], k);
      assert forall i :: 1 <= i < n ==> s[..n][i] == s[1..][..n - 1][i - 1];
      n
  }

  /** A run of class characters followed by a character outside the class
      spans exactly the run. */
  lemma {:induction false} SpanOf(p: string, t: string, k: CharClass)
    requires AllIn(p, k) && |t| > 0 && !InClass(t[0], k)
    ensures Span(p + t, k) == |p|
  {
    var s, n := p + t, Span(p + t, k);
    assert s[|p|] == t[0];
    assert forall i :: 0 <= i < |p| ==> s[i] == p[i];
    assert forall i :: 0 <= i < n ==> s[..n][i] == s[i];
  }

  /** Taking a known prefix off a concatenation. */
  lemma {:induction false} Peel(x: string, y: string)
    ensures x <= x + y && (x + y)[|x|..] == y
  {
  }

  /** A text that starts with `x` is `x` and the rest. */
  lemma {:induction false} Unpeel(x: string, s: string)
    requires x <= s
    ensures s == x + s[|x|..]
  {
  }

  /** The two version captures of one matched line. */
  datatype VersionPair = VersionPair(older: string, newer: string)

  predicate IsPackageName(s: string) {
    |s| > 0 && AllIn(s, PackageChars)
  }

  predicate IsVersionText(s: string) {
    |s| > 0 && AllIn(s, VersionChars)
  }

  const UpdatesHead: string := "Updates `"
  const FromWord: string := "` from "
  const ToWord: string := " to "
  const BumpsHead: string := "Bumps ["
  const LinkHead: string := "](https://github"
  const LinkHost: string := "com/"
  const LinkTail: string := ") from "

  /** A line `Updates \`<pkg>\` from <older> to <newer>`. */
  function UpdatesLine(pkg: string, older: string, newer: string): string {
    UpdatesHead + (pkg + (FromWord + VersionsText(older, newer, false)))
  }

  /** `Bumps [<pkg>](https://github<host>com/` followed by `r`. */
  function LinkLine(pkg: string, host: char, r: string): string {
    BumpsHead + (pkg + (LinkHead + ([host] + (LinkHost + r))))
  }

  /** A line `Bumps [<pkg>](https://github<host>com/<path>) from <older> to <newer>.`;
      the source's pattern leaves the dot of `github.com` unescaped, so any
      single UTF-16 code unit `host` stands there. */
  function BumpsLine(pkg: string, host: char, path: string, older: string, newer: string): string {
    LinkLine(pkg, host, path + (LinkTail + VersionsText(older, newer, true)))
  }

  /** `line` is an instance of the `Updates` template. */
  predicate UpdatesForm(line: string, pkg: string, older: string, newer: string) {
    IsPackageName(pkg) && IsVersionText(older) && IsVersionText(newer) && line == UpdatesLine(pkg, older, newer)
  }

  /** `line` is an instance of the `Bumps` template, with `path` the text the
      pattern's `.*` matches. */
  predicate BumpsForm(line: string, pkg: string, host: char, path: string, older: string, newer: string) {
    IsPackageName(pkg) && IsSingleUnit(host) && NoLineTerminator(path)
    && IsVersionText(older) && IsVersionText(newer) && line == BumpsLine(pkg, host, path, older, newer)
  }

  /** The shared tail `([0-9.]+) to ([0-9.]+)` of both patterns, followed by
      the end of the line, or by `\.` and the end of the line when `dotted`. */
  function MatchVersions(s: string, dotted: bool): Option<VersionPair> {
    var n := Span(s, VersionChars);
    if n == 0 || !(ToWord <= s[n..]) then None
    else
      var t := s[n + |ToWord|..];
      if !dotted then
        if |t| >= 1 && AllIn(t, VersionChars) then Some(VersionPair(s[..n], t)) else None
      else
        if |t| >= 2 && AllIn(t, VersionChars) && t[|t| - 1] == '.' then Some(VersionPair(s[..n], t[..|t| - 1]))
        else None
  }

  /** `<older> to <newer>`, with the closing `.` of the `Bumps` template when `dotted`. */
  function VersionsText(older: string, newer: string, dotted: bool): string {
    older + (ToWord + (if dotted then newer + "." else newer))
  }

  lemma {:induction false} AllInConcat(a: string, b: string, k: CharClass)
    requires AllIn(a, k) && AllIn(b, k)
    ensures AllIn(a + b, k)
  {
    assert forall i :: 0 <= i < |a| + |b| ==> (a + b)[i] == (if i < |a| then a[i] else b[i - |a|]);
  }

  /** The text after the first version is `ToWord` and then exactly `e`. */
  lemma {:induction false} AfterOlder(older: string, e: string)
    requires IsVersionText(older)
    ensures var s := older + (ToWord + e);
            Span(s, VersionChars) == |older| && ToWord <= s[|older|..] &&
            s[|older| + |ToWord|..] == e && s[..|older|] == older
  {
    var s := older + (ToWord + e);
    assert ToWord[0] == ' ';
    SpanOf(older, ToWord + e, VersionChars);
    Peel(older, ToWord + e);
    Peel(ToWord, e);
    assert s[|older| + |ToWord|..] == (ToWord + e)[|ToWord|..];
  }

  /** The last version of a `Bumps` line and its closing dot. */
  lemma {:induction false} DottedVersion(newer: string)
    requires IsVersionText(newer)
    ensures var e := newer + ".";
            |e| >= 2 && AllIn(e, VersionChars) && e[|e| - 1] == '.' && e[..|e| - 1] == newer
  {
    AllInConcat(newer, ".", VersionChars);
    assert (newer + ".")[..|newer|] == newer;
  }

  lemma {:induction false} MatchVersionsOf(older: string, newer: string, dotted: bool)
    requires IsVersionText(older) && IsVersionText(newer)
    ensures MatchVersions(VersionsText(older, newer, dotted), dotted) == Some(VersionPair(older, newer))
  {
    var e := if dotted then newer + "." else newer;
    AfterOlder(older, e);
    if dotted {
      DottedVersion(newer);
    }
  }

  lemma {:induction false} MatchVersionsSound(s: string, dotted: bool)
    requires MatchVersions(s, dotted).Some?
    ensures var pair := MatchVersions(s, dotted).value;
            IsVersionText(pair.older) && IsVersionText(pair.newer) && s == VersionsText(pair.older, pair.newer, dotted)
  {
    var n := Span(s, VersionChars);
    var t := s[n + |ToWord|..];
    assert s == s[..n] + s[n..];
    assert s[n..] == ToWord + t;
    if dotted {
      assert t == t[..|t| - 1] + ".";
    }
  }

  /** The shared tail accepts exactly `<old> to <new>` (with the final `.` when
      `dotted`) and captures the two versions. */
  lemma {:induction false} MatchVersionsForm(s: string, dotted: bool, older: string, newer: string)
    ensures MatchVersions(s, dotted) == Some(VersionPair(older, newer)) <==>
            IsVersionText(older) && IsVersionText(newer) && s == VersionsText(older, newer, dotted)
  {
    if IsVersionText(older) && IsVersionText(newer) && s == VersionsText(older, newer, dotted) {
      MatchVersionsOf(older, newer, dotted);
    }
    if MatchVersions(s, dotted) == Some(VersionPair(older, newer)) {
      MatchVersionsSound(s, dotted);
    }
  }

  /** `^Updates \`[@a-zA-Z\-/0-9]+\` from ([0-9.]+) to ([0-9.]+)$`: the two
      captures, or `None` when the line does not match. */
  function MatchUpdates(line: string): Option<VersionPair> {
    if !(UpdatesHead <= line) then None
    else
      var rest := line[|UpdatesHead|..];
      var n := Span(rest, PackageChars);
      if n == 0 || !(FromWord <= rest[n..]) then None
      else MatchVersions(rest[n + |FromWord|..], false)
  }

  lemma {:induction false} UpdatesMatches(pkg: string, older: string, newer: string)
    requires IsPackageName(pkg) && IsVersionText(older) && IsVersionText(newer)
    ensures MatchUpdates(UpdatesLine(pkg, older, newer)) == Some(VersionPair(older, newer))
  {
    var s := VersionsText(older, newer, false);
    Peel(UpdatesHead, pkg + (FromWord + s));
    SpanOf(pkg, FromWord + s, PackageChars);
    Peel(pkg, FromWord + s);
    Peel(FromWord, s);
    MatchVersionsForm(s, false, older, newer);
  }

  lemma {:induction false} UpdatesMatchSound(line: string, older: string, newer: string) returns (pkg: string)
    requires MatchUpdates(line) == Some(VersionPair(older, newer))
    ensures UpdatesForm(line, pkg, older, newer)
  {
    var rest := line[|UpdatesHead|..];
    var n := Span(rest, PackageChars);
    var s := rest[n + |FromWord|..];
    MatchVersionsSound(s, false);
    pkg := rest[..n];
    assert rest == pkg + rest[n..];
    assert rest[n..] == FromWord + s;
    assert line == UpdatesHead + rest;
  }

  /** The recogniser accepts exactly the instances of the `Updates` template,
      and captures their two versions. */
  lemma {:induction false} UpdatesTemplate(line: string, older: string, newer: string)
    ensures MatchUpdates(line) == Some(VersionPair(older, newer)) <==> exists pkg :: UpdatesForm(line, pkg, older, newer)
  {
    if MatchUpdates(line) == Some(VersionPair(older, newer)) {
      var pkg := UpdatesMatchSound(line, older, newer);
    }
    if pkg :| UpdatesForm(line, pkg, older, newer) {
      UpdatesMatches(pkg, older, newer);
    }
  }

  /** The text after `Bumps [<pkg>](https://github<host>com/`. */
  function BumpsLinkText(line: string): Option<string> {
    if !(BumpsHead <= line) then None
    else
      var rest := line[|BumpsHead|..];
      var n := Span(rest, PackageChars);
      if n == 0 || !(LinkHead <= rest[n..]) then None
      else
        var r := rest[n + |LinkHead|..];
        if |r| >= 1 && IsSingleUnit(r[0]) && LinkHost <= r[1..] then Some(r[1 + |LinkHost|..]) else None
  }

  /** What follows the pattern's `.*`: `\) from ([0-9.]+) to ([0-9.]+)\.$`. */
  function MatchAfterPath(t: string): Option<VersionPair> {
    if LinkTail <= t then MatchVersions(t[|LinkTail|..], true) else None
  }

  /** `.*` can stop after the first `j` characters of `r` and the rest of the
      pattern then matches. */
  predicate PathEndsAt(r: string, j: nat) {
    j <= |r| && NoLineTerminator(r[..j]) && MatchAfterPath(r[j..]).Some?
  }

  /** The last position at most `k` where `ends` holds: how a greedy
      quantifier backtracks from its longest run. */
  function LastWhere(ends: nat -> bool, k: nat): (res: Option<nat>)
    ensures res.Some? ==> res.value <= k
  {
    if ends(k) then Some(k)
    else if k == 0 then None
    else LastWhere(ends, k - 1)
  }

  /** The position found satisfies `ends` and no later one up to `k` does;
      with none found, no position up to `k` does. */
  lemma {:induction false} LastWhereIsLast(ends: nat -> bool, k: nat)
    ensures var res := LastWhere(ends, k);
            (res.Some? ==> ends(res.value) && forall j :: res.value < j <= k ==> !ends(j)) &&
            (res.None? ==> forall j :: 0 <= j <= k ==> !ends(j))
  {
    if !ends(k) && k > 0 {
      LastWhereIsLast(ends, k - 1);
    }
  }

  function PathEnds(r: string): nat -> bool {
    (j: nat) => PathEndsAt(r, j)
  }

  /** The greedy `.*`: the longest stopping point that lets the rest of the
      pattern match. */
  function LongestPath(r: string): (res: Option<nat>)
    ensures res.Some? ==> res.value <= |r|
  {
    LastWhere(PathEnds(r), |r|)
  }

  /** The stopping point the greedy `.*` takes is one where the rest of the
      pattern matches. */
  lemma {:induction false} LongestPathEnds(r: string)
    requires LongestPath(r).Some?
    ensures PathEndsAt(r, LongestPath(r).value)
  {
    LastWhereIsLast(PathEnds(r), |r|);
  }

  /** The greedy `.*` stops no earlier than any point where the rest of the
      pattern matches. */
  lemma {:induction false} LongestPathIsGreedy(r: string, j: nat)
    requires PathEndsAt(r, j)
    ensures LongestPath(r).Some? && j <= LongestPath(r).value
  {
    LastWhereIsLast(PathEnds(r), |r|);
    assert PathEnds(r)(j);
  }

  /** `^Bumps \[[@a-zA-Z\-/0-9]+\]\(https:\/\/github.com\/.*\) from ([0-9.]+) to ([0-9.]+)\.$`:
      the two captures, or `None` when the line does not match. */
  function MatchBumps(line: string): Option<VersionPair> {
    match BumpsLinkText(line)
    case None => None
    case Some(r) =>
      match LongestPath(r)
      case None => None
      case Some(j) => MatchAfterPath(r[j..])
  }

  lemma {:induction false} BumpsLinkTextOf(pkg: string, host: char, r: string)
    requires IsPackageName(pkg) && IsSingleUnit(host)
    ensures BumpsLinkText(LinkLine(pkg, host, r)) == Some(r)
  {
    var tail := [host] + (LinkHost + r);
    Peel(BumpsHead, pkg + (LinkHead + tail));
    SpanOf(pkg, LinkHead + tail, PackageChars);
    Peel(pkg, LinkHead + tail);
    Peel(LinkHead, tail);
    Peel([host], LinkHost + r);
    Peel(LinkHost, r);
  }

  lemma {:induction false} BumpsLinkTextSound(line: string, r: string) returns (pkg: string, host: char)
    requires BumpsLinkText(line) == Some(r)
    ensures IsPackageName(pkg) && IsSingleUnit(host) && line == LinkLine(pkg, host, r)
  {
    var rest := line[|BumpsHead|..];
    var n := Span(rest, PackageChars);
    var r0 := rest[n + |LinkHead|..];
    pkg, host := rest[..n], r0[0];
    Unpeel(LinkHost, r0[1..]);
    Unpeel([host], r0);
    Unpeel(LinkHead, rest[n..]);
    assert rest[n..][|LinkHead|..] == r0;
    Unpeel(pkg, rest);
    Unpeel(BumpsHead, line);
  }

  lemma {:induction false} AfterPathForm(older: string, newer: string)
    requires IsVersionText(older) && IsVersionText(newer)
    ensures MatchAfterPath(LinkTail + VersionsText(older, newer, true)) == Some(VersionPair(older, newer))
  {
    Peel(LinkTail, VersionsText(older, newer, true));
    MatchVersionsForm(VersionsText(older, newer, true), true, older, newer);
  }

  /** In an instance of the `Bumps` template, `.*` may stop where the path ends. */
  lemma {:induction false} BumpsFormPath(line: string, pkg: string, host: char, path: string, older: string, newer: string)
    requires BumpsForm(line, pkg, host, path, older, newer)
    ensures BumpsLinkText(line).Some? && PathEndsAt(BumpsLinkText(line).value, |path|)
  {
    var r := path + (LinkTail + VersionsText(older, newer, true));
    BumpsLinkTextOf(pkg, host, r);
    AfterPathForm(older, newer);
    Peel(path, LinkTail + VersionsText(older, newer, true));
    assert r[..|path|] == path;
  }

  /** After the path, no `)` but the one that opens `) from `: so `.*` cannot
      stop anywhere later. */
  lemma {:induction false} NoLaterPathEnd(path: string, older: string, newer: string, j: nat)
    requires IsVersionText(older) && IsVersionText(newer)
    requires |path| < j
    ensures !PathEndsAt(path + (LinkTail + VersionsText(older, newer, true)), j)
  {
    var tail := LinkTail + VersionsText(older, newer, true);
    var r := path + tail;
    if j < |r| {
      assert r[j] == tail[j - |path|];
      assert forall k :: 1 <= k < |tail| ==> tail[k] != ')';
      assert r[j..][0] == r[j];
    }
  }

  /** The recogniser accepts exactly the instances of the `Bumps` template,
      and captures their two versions. However long the `.*` part, the final
      `) from <old> to <new>.` is fixed by the end of the line, so the greedy
      search finds the one decomposition there is. */
  lemma {:induction false} BumpsTemplate(line: string, older: string, newer: string)
    ensures MatchBumps(line) == Some(VersionPair(older, newer)) <==>
            exists pkg, host, path :: BumpsForm(line, pkg, host, path, older, newer)
  {
    if MatchBumps(line) == Some(VersionPair(older, newer)) {
      var pkg, host, path := BumpsMatchWitness(line, older, newer);
    }
    if pkg, host, path :| BumpsForm(line, pkg, host, path, older, newer) {
      BumpsMatches(pkg, host, path, older, newer);
    }
  }

  /** The greedy `.*` stops exactly where the path of a template instance ends. */
  lemma {:induction false} LongestPathOf(path: string, older: string, newer: string)
    requires IsVersionText(older) && IsVersionText(newer) && NoLineTerminator(path)
    ensures var r := path + (LinkTail + VersionsText(older, newer, true));
            LongestPath(r) == Some(|path|)
  {
    var tail := LinkTail + VersionsText(older, newer, true);
    var r := path + tail;
    Peel(path, tail);
    assert r[..|path|] == path;
    AfterPathForm(older, newer);
    LongestPathIsGreedy(r, |path|);
    LongestPathEnds(r);
    var j := LongestPath(r).value;
    if j > |path| {
      NoLaterPathEnd(path, older, newer, j);
    }
  }

  lemma {:induction false} BumpsMatches(pkg: string, host: char, path: string, older: string, newer: string)
    requires BumpsForm(BumpsLine(pkg, host, path, older, newer), pkg, host, path, older, newer)
    ensures MatchBumps(BumpsLine(pkg, host, path, older, newer)) == Some(VersionPair(older, newer))
  {
    var tail := LinkTail + VersionsText(older, newer, true);
    var r := path + tail;
    BumpsLinkTextOf(pkg, host, r);
    LongestPathOf(path, older, newer);
    Peel(path, tail);
    AfterPathForm(older, newer);
  }

  lemma {:induction false} AfterPathSound(t: string, older: string, newer: string)
    requires MatchAfterPath(t) == Some(VersionPair(older, newer))
    ensures IsVersionText(older) && IsVersionText(newer)
    ensures t == LinkTail + VersionsText(older, newer, true)
  {
    MatchVersionsForm(t[|LinkTail|..], true, older, newer);
    Unpeel(LinkTail, t);
  }

  /** Where the recogniser found the path of a matched `Bumps` line. */
  lemma {:induction false} BumpsMatchParts(line: string) returns (r: string, j: nat)
    requires MatchBumps(line).Some?
    ensures BumpsLinkText(line) == Some(r) && PathEndsAt(r, j)
    ensures MatchBumps(line) == MatchAfterPath(r[j..])
  {
    r := BumpsLinkText(line).value;
    LongestPathEnds(r);
    j := LongestPath(r).value;
  }

  /** The text after `com/` of a matched line is the path and the template's tail. */
  lemma {:induction false} PathWitness(r: string, j: nat, older: string, newer: string)
    requires j <= |r| && MatchAfterPath(r[j..]) == Some(VersionPair(older, newer))
    ensures IsVersionText(older) && IsVersionText(newer)
    ensures r == r[..j] + (LinkTail + VersionsText(older, newer, true))
  {
    AfterPathSound(r[j..], older, newer);
    SplitAt(r, j);
  }

  lemma {:induction false} SplitAt(r: string, j: nat)
    requires j <= |r|
    ensures r == r[..j] + r[j..]
  {
  }

  lemma {:induction false} BumpsMatchWitness(line: string, older: string, newer: string) returns (pkg: string, host: char, path: string)
    requires MatchBumps(line) == Some(VersionPair(older, newer))
    ensures BumpsForm(line, pkg, host, path, older, newer)
  {
    var r, j := BumpsMatchParts(line);
    pkg, host := BumpsLinkTextSound(line, r);
    path := r[..j];
    PathWitness(r, j, older, newer);
  }

  /** A run that stops inside `p` stops at the same place whatever follows `p`. */
  lemma {:induction false} SpanPrefix(p: string, t: string, k: CharClass)
    requires Span(p, k) < |p|
    ensures Span(p + t, k) == Span(p, k)
  {
    var n := Span(p, k);
    assert p + t == p[..n] + (p[n..] + t);
    SpanOf(p[..n], p[n..] + t, k);
  }

  // ----- Whole lines and whole descriptions -----

  /** `match` as the loop computes it: the `Updates` captures if that pattern
      matches, else the `Bumps` captures. */
  function MatchLine(line: string): Option<VersionPair> {
    var updates := MatchUpdates(line);
    if updates.Some? then updates else MatchBumps(line)
  }

  /** The verdict on one line: a line neither pattern matches is skipped; a
      matched line is safe when its new version satisfies `^<old>`. */
  function LineVerdict(line: string, fallback: Fallback): Outcome {
    match MatchLine(line)
    case None => Returned(true)
    case Some(pair) => Satisfies(pair.newer, pair.older, fallback)
  }

  /** Two verdicts in source order: the first stands unless it is "safe",
      as the early `return false` and an exception both end the loop. */
  function AndThen(first: Outcome, second: Outcome): (r: Outcome)
    ensures r == Returned(true) <==> first == Returned(true) && second == Returned(true)
    ensures r == first || r == second
  {
    if first == Returned(true) then second else first
  }

  /** The loop over `lines`, given the verdict it reaches on each line: the
      verdict of the first line that is not safe, or "safe" when there is none. */
  function Conjoin(lines: seq<string>, verdict: string -> Outcome): (r: Outcome)
    ensures r == Returned(true) <==> forall i :: 0 <= i < |lines| ==> verdict(lines[i]) == Returned(true)
    ensures r == Threw ==> exists i :: 0 <= i < |lines| && verdict(lines[i]) == Threw
  {
    if lines == [] then Returned(true)
    else
      var r := AndThen(verdict(lines[0]), Conjoin(lines[1..], verdict));
      assert forall i :: 1 <= i < |lines| ==> lines[1..][i - 1] == lines[i];
      r
  }

  /** The verdict is the verdict of the first line that is not safe. */
  lemma {:induction false} FirstUnsafeLine(lines: seq<string>, verdict: string -> Outcome) returns (i: nat)
    requires Conjoin(lines, verdict) != Returned(true)
    ensures i < |lines| && Conjoin(lines, verdict) == verdict(lines[i])
    ensures forall j :: 0 <= j < i ==> verdict(lines[j]) == Returned(true)
  {
    if verdict(lines[0]) != Returned(true) {
      i := 0;
    } else {
      var k := FirstUnsafeLine(lines[1..], verdict);
      i := k + 1;
    }
  }

  /** The verdict on two blocks of lines is the first block's verdict,
      followed by the second's when the first is safe. */
  lemma {:induction false} ConjoinAppend(a: seq<string>, b: seq<string>, verdict: string -> Outcome)
    ensures Conjoin(a + b, verdict) == AndThen(Conjoin(a, verdict), Conjoin(b, verdict))
  {
    if a == [] {
      assert a + b == b;
    } else {
      assert (a + b)[0] == a[0];
      assert (a + b)[1..] == a[1..] + b;
      ConjoinAppend(a[1..], b, verdict);
    }
  }

  /** Reordering lines keeps the verdict "safe" or not, and keeps the whole
      verdict when no line's verdict is an exception. */
  lemma {:induction false} ConjoinReordered(xs: seq<string>, ys: seq<string>, verdict: string -> Outcome)
    requires multiset(xs) == multiset(ys)
    ensures Conjoin(xs, verdict) == Returned(true) <==> Conjoin(ys, verdict) == Returned(true)
    ensures (forall i :: 0 <= i < |xs| ==> verdict(xs[i]) != Threw) ==> Conjoin(xs, verdict) == Conjoin(ys, verdict)
  {
    forall line ensures line in xs <==> line in ys {
      assert line in xs <==> line in multiset(xs);
      assert line in ys <==> line in multiset(ys);
    }
    if Conjoin(xs, verdict) != Returned(true) {
      var i := FirstUnsafeLine(xs, verdict);
      assert xs[i] in ys;
    }
    if Conjoin(ys, verdict) != Returned(true) {
      var i := FirstUnsafeLine(ys, verdict);
      assert ys[i] in xs;
    }
  }

  /** The loop of `isVersionBumpSafeToMerge` over the lines of a description. */
  function ClassifyLines(lines: seq<string>, fallback: Fallback): Outcome {
    Conjoin(lines, line => LineVerdict(line, fallback))
  }

  /** `isVersionBumpSafeToMerge(description)`. */
  function IsSafe(description: string, fallback: Fallback): Outcome {
    ClassifyLines(Split(description, '\n'), fallback)
  }

  /** The source's loop: skip unmatched lines, stop at the first matched line
      whose bump is not compatible (or whose check throws). */
  method IsVersionBumpSafeToMerge(description: string, fallback: Fallback) returns (safe: Outcome)
    ensures safe == IsSafe(description, fallback)
  {
    var lines := Split(description, '\n');
    for i := 0 to |lines|
      invariant ClassifyLines(lines[i..], fallback) == ClassifyLines(lines, fallback)
    {
      assert lines[i..][1..] == lines[i + 1..];
      var m := MatchLine(lines[i]);
      if m.None? {
        continue;
      }
      var verdict := Satisfies(m.value.newer, m.value.older, fallback);
      if verdict.Threw? {
        return Threw;
      }
      if !verdict.value {
        return Returned(false);
      }
    }
    assert lines[|lines|..] == [];
    return Returned(true);
  }

  /** A description is safe exactly when every line is: no matched line
      fails the caret check or throws. */
  lemma {:induction false} SafeIffEveryLineSafe(description: string, fallback: Fallback)
    ensures IsSafe(description, fallback) == Returned(true) <==>
            forall line :: line in Split(description, '\n') ==> LineVerdict(line, fallback) == Returned(true)
  {
    var lines := Split(description, '\n');
    assert forall i :: 0 <= i < |lines| ==> (line => LineVerdict(line, fallback))(lines[i]) == LineVerdict(lines[i], fallback);
  }

  /** A description in which no line matches either template is safe. */
  lemma {:induction false} NoMatchedLineIsSafe(description: string, fallback: Fallback)
    requires forall line :: line in Split(description, '\n') ==> MatchLine(line).None?
    ensures IsSafe(description, fallback) == Returned(true)
  {
    SafeIffEveryLineSafe(description, fallback);
  }

  /** Descriptions compose line-wise: `isSafe(a + "\n" + b)` is `isSafe(a)`
      followed by `isSafe(b)`; in particular it is safe exactly when both are. */
  lemma {:induction false} SafeJoin(a: string, b: string, fallback: Fallback)
    ensures IsSafe(a + "\n" + b, fallback) == AndThen(IsSafe(a, fallback), IsSafe(b, fallback))
    ensures IsSafe(a + "\n" + b, fallback) == Returned(true) <==>
            IsSafe(a, fallback) == Returned(true) && IsSafe(b, fallback) == Returned(true)
  {
    SplitAround(a, b, '\n');
    ConjoinAppend(Split(a, '\n'), Split(b, '\n'), line => LineVerdict(line, fallback));
  }

  /** A line neither pattern matches (prose, a blank line) can be inserted
      anywhere without changing the verdict. */
  lemma {:induction false} UnmatchedLineIgnored(a: seq<string>, line: string, b: seq<string>, fallback: Fallback)
    requires MatchLine(line).None?
    ensures ClassifyLines(a + [line] + b, fallback) == ClassifyLines(a + b, fallback)
  {
    var verdict := l => LineVerdict(l, fallback);
    ConjoinAppend(a + [line], b, verdict);
    ConjoinAppend(a, [line], verdict);
    ConjoinAppend(a, b, verdict);
    assert Conjoin([line], verdict) == Returned(true);
  }

  /** Reordering the lines does not change whether the description is safe,
      and when no check throws it does not change the verdict at all. */
  lemma {:induction false} ReorderedLines(xs: seq<string>, ys: seq<string>, fallback: Fallback)
    requires multiset(xs) == multiset(ys)
    ensures ClassifyLines(xs, fallback) == Returned(true) <==> ClassifyLines(ys, fallback) == Returned(true)
    ensures (forall i :: 0 <= i < |xs| ==> LineVerdict(xs[i], fallback) != Threw) ==>
              ClassifyLines(xs, fallback) == ClassifyLines(ys, fallback)
  {
    ConjoinReordered(xs, ys, line => LineVerdict(line, fallback));
  }

  /** Both versions of a matched line are strict `MAJOR.MINOR.PATCH` strings. */
  predicate IsStrictPair(pair: VersionPair) {
    Parse(pair.older).Some? && Parse(pair.newer).Some?
  }

  /** The bump of a line whose versions are both strict is compatible. */
  predicate CompatibleBump(pair: VersionPair)
    requires IsStrictPair(pair)
  {
    CaretAccepts(Parse(pair.older).value, Parse(pair.newer).value)
  }

  /** Every line that matches a template carries two strict versions. */
  predicate AllMatchedStrict(lines: seq<string>) {
    forall i :: 0 <= i < |lines| && MatchLine(lines[i]).Some? ==> IsStrictPair(MatchLine(lines[i]).value)
  }

  /** Every line that matches a template carries a compatible bump. */
  predicate AllMatchedCompatible(lines: seq<string>)
    requires AllMatchedStrict(lines)
  {
    forall i :: 0 <= i < |lines| && MatchLine(lines[i]).Some? ==> CompatibleBump(MatchLine(lines[i]).value)
  }

  /** When every matched line carries strict versions, the verdict is the
      conjunction of the caret ranges over the matched lines; the library's
      behaviour on other strings plays no part. */
  lemma {:induction false} StrictVerdict(lines: seq<string>, fallback: Fallback)
    requires AllMatchedStrict(lines)
    ensures ClassifyLines(lines, fallback) == Returned(AllMatchedCompatible(lines))
  {
    var verdict := line => LineVerdict(line, fallback);
    assert forall i :: 0 <= i < |lines| ==> verdict(lines[i]) != Threw;
    if Conjoin(lines, verdict) != Returned(true) {
      var i := FirstUnsafeLine(lines, verdict);
    }
  }

  // ----- Anchoring: what the two patterns do not match -----

  lemma {:induction false} LastOfConcat(x: string, y: string)
    requires |y| > 0
    ensures (x + y)[|x + y| - 1] == y[|y| - 1]
  {
  }

  lemma {:induction false} VersionsTextLast(older: string, newer: string, dotted: bool)
    requires IsVersionText(newer)
    ensures var v := VersionsText(older, newer, dotted);
            |v| > 0 && v[|v| - 1] == if dotted then '.' else newer[|newer| - 1]
  {
    var e := if dotted then newer + "." else newer;
    LastOfConcat(ToWord, e);
    LastOfConcat(older, ToWord + e);
  }

  /** `x + y` ends with `y`. */
  lemma {:induction false} SuffixOfConcat(x: string, y: string)
    ensures |y| <= |x + y| && (x + y)[|x + y| - |y|..] == y
  {
  }

  /** An `Updates` line ends with the text of its new version. */
  lemma {:induction false} UpdatesLineSuffix(pkg: string, older: string, newer: string)
    ensures var line := UpdatesLine(pkg, older, newer);
            |newer| <= |line| && line[|line| - |newer|..] == newer
  {
    var head := UpdatesHead + (pkg + (FromWord + (older + ToWord)));
    assert UpdatesLine(pkg, older, newer) == head + newer;
    SuffixOfConcat(head, newer);
  }

  /** A matched `Updates` line ends with its new version. */
  lemma {:induction false} UpdatesLineEnding(line: string)
    requires MatchUpdates(line).Some?
    ensures var newer := MatchUpdates(line).value.newer;
            |newer| <= |line| && line[|line| - |newer|..] == newer
    ensures |line| > 0 && InClass(line[|line| - 1], VersionChars)
  {
    var pair := MatchUpdates(line).value;
    var pkg := UpdatesMatchSound(line, pair.older, pair.newer);
    UpdatesLineSuffix(pkg, pair.older, pair.newer);
    var k := |line| - |pair.newer|;
    assert line[|line| - 1] == line[k..][|pair.newer| - 1] == pair.newer[|pair.newer| - 1];
  }

  /** A `Bumps` line must end with the `.` after the new version. */
  lemma {:induction false} BumpsFinalDot(line: string)
    requires MatchBumps(line).Some?
    ensures |line| > 0 && line[|line| - 1] == '.'
  {
    var pair := MatchBumps(line).value;
    var pkg, host, path := BumpsMatchWitness(line, pair.older, pair.newer);
    var v := VersionsText(pair.older, pair.newer, true);
    VersionsTextLast(pair.older, pair.newer, true);
    LastOfConcat(LinkTail, v);
    LastOfConcat(path, LinkTail + v);
    var r := path + (LinkTail + v);
    LastOfConcat(LinkHost, r);
    LastOfConcat([host], LinkHost + r);
    LastOfConcat(LinkHead, [host] + (LinkHost + r));
    LastOfConcat(pkg, LinkHead + ([host] + (LinkHost + r)));
    LastOfConcat(BumpsHead, pkg + (LinkHead + ([host] + (LinkHost + r))));
  }

  /** A matched line ends in a version character: the patterns are anchored
      at the end (`$`). */
  lemma {:induction false} MatchedLineEnding(line: string)
    requires MatchLine(line).Some?
    ensures |line| > 0 && InClass(line[|line| - 1], VersionChars)
  {
    if MatchUpdates(line).Some? {
      UpdatesLineEnding(line);
    } else {
      BumpsFinalDot(line);
    }
  }

  /** A `Bumps` line without its final `.` is ignored. */
  lemma {:induction false} BumpsWithoutDotIgnored(line: string)
    requires |line| > 0 ==> line[|line| - 1] != '.'
    requires !(UpdatesHead <= line)
    ensures MatchLine(line).None?
  {
    if MatchBumps(line).Some? {
      BumpsFinalDot(line);
    }
  }

  /** A line ending in a carriage return (a description with CRLF line
      breaks) matches neither pattern, so it never makes a description unsafe. */
  lemma {:induction false} CarriageReturnLineIgnored(line: string)
    requires |line| > 0 && line[|line| - 1] == '\r'
    ensures MatchLine(line).None?
  {
    if MatchLine(line).Some? {
      MatchedLineEnding(line);
    }
  }

  lemma {:induction false} NoLineTerminatorConcat(a: string, b: string)
    requires NoLineTerminator(a) && NoLineTerminator(b)
    ensures NoLineTerminator(a + b)
  {
    assert forall i :: 0 <= i < |a + b| ==> (a + b)[i] == (if i < |a| then a[i] else b[i - |a|]);
  }

  lemma {:induction false} VersionsTextOneLine(older: string, newer: string, dotted: bool)
    requires IsVersionText(older) && IsVersionText(newer)
    ensures NoLineTerminator(VersionsText(older, newer, dotted))
  {
    assert NoLineTerminator(ToWord) && NoLineTerminator(".");
    var e := if dotted then newer + "." else newer;
    if dotted {
      NoLineTerminatorConcat(newer, ".");
    }
    NoLineTerminatorConcat(ToWord, e);
    NoLineTerminatorConcat(older, ToWord + e);
  }

  /** An instance of the `Updates` template is a single line. */
  lemma {:induction false} UpdatesFormOneLine(line: string, pkg: string, older: string, newer: string)
    requires UpdatesForm(line, pkg, older, newer)
    ensures NoLineTerminator(line)
  {
    assert NoLineTerminator(UpdatesHead) && NoLineTerminator(FromWord) && NoLineTerminator(pkg);
    var v := VersionsText(older, newer, false);
    VersionsTextOneLine(older, newer, false);
    NoLineTerminatorConcat(FromWord, v);
    NoLineTerminatorConcat(pkg, FromWord + v);
    NoLineTerminatorConcat(UpdatesHead, pkg + (FromWord + v));
  }

  /** An instance of the `Bumps` template is a single line. */
  lemma {:induction false} BumpsFormOneLine(line: string, pkg: string, host: char, path: string, older: string, newer: string)
    requires BumpsForm(line, pkg, host, path, older, newer)
    ensures NoLineTerminator(line)
  {
    assert NoLineTerminator(BumpsHead) && NoLineTerminator(LinkHead) && NoLineTerminator(LinkHost);
    assert NoLineTerminator(LinkTail) && NoLineTerminator([host]) && NoLineTerminator(pkg);
    var v := VersionsText(older, newer, true);
    VersionsTextOneLine(older, newer, true);
    NoLineTerminatorConcat(LinkTail, v);
    var r := path + (LinkTail + v);
    NoLineTerminatorConcat(path, LinkTail + v);
    NoLineTerminatorConcat(LinkHost, r);
    NoLineTerminatorConcat([host], LinkHost + r);
    NoLineTerminatorConcat(LinkHead, [host] + (LinkHost + r));
    NoLineTerminatorConcat(pkg, LinkHead + ([host] + (LinkHost + r)));
    NoLineTerminatorConcat(BumpsHead, pkg + (LinkHead + ([host] + (LinkHost + r))));
  }

  /** The remainder of an `Updates` line after its package name. */
  lemma {:induction false} UpdatesAfterPackage(pkg: string, s: string)
    requires IsPackageName(pkg)
    ensures MatchUpdates(UpdatesHead + (pkg + (FromWord + s))) == MatchVersions(s, false)
  {
    Peel(UpdatesHead, pkg + (FromWord + s));
    SpanOf(pkg, FromWord + s, PackageChars);
    Peel(pkg, FromWord + s);
    Peel(FromWord, s);
  }

  /** Versions followed by text that starts outside `[0-9.]` do not match
      the end-anchored tail. */
  lemma {:induction false} VersionsTrailing(older: string, newer: string, t: string)
    requires IsVersionText(older)
    requires |t| > 0 && !InClass(t[0], VersionChars)
    ensures MatchVersions(older + (ToWord + (newer + t)), false).None?
  {
    AfterOlder(older, newer + t);
    assert (newer + t)[|newer|] == t[0];
  }

  /** An `Updates` line followed by more text (starting with anything but a
      digit or `.`) is ignored: the pattern is anchored at the end. */
  lemma {:induction false} UpdatesTrailingTextIgnored(pkg: string, older: string, newer: string, t: string)
    requires IsPackageName(pkg) && IsVersionText(older) && IsVersionText(newer)
    requires |t| > 0 && !InClass(t[0], VersionChars)
    ensures MatchLine(UpdatesLine(pkg, older, newer) + t).None?
  {
    var s := older + (ToWord + (newer + t));
    var line := UpdatesHead + (pkg + (FromWord + s));
    assert UpdatesLine(pkg, older, newer) + t == line;
    UpdatesAfterPackage(pkg, s);
    VersionsTrailing(older, newer, t);
    NotBumps(line);
  }

  /** A line that does not start with `U` is no `Updates` line. */
  lemma {:induction false} NotUpdates(line: string)
    requires |line| > 0 && line[0] != 'U'
    ensures MatchUpdates(line).None?
  {
    assert !(UpdatesHead <= line) by {
      assert UpdatesHead[0] == 'U';
    }
  }

  /** A line that does not start with `B` is no `Bumps` line. */
  lemma {:induction false} NotBumps(line: string)
    requires |line| > 0 && line[0] != 'B'
    ensures MatchBumps(line).None?
  {
    assert !(BumpsHead <= line) by {
      assert BumpsHead[0] == 'B';
    }
  }

  /** A package-name run that stops inside `pkg` stops at the same character
      of `pkg + t`. */
  lemma {:induction false} PackageStopsEarly(pkg: string, t: string) returns (n: nat)
    requires exists i :: 0 <= i < |pkg| && !InClass(pkg[i], PackageChars)
    ensures n < |pkg| && Span(pkg + t, PackageChars) == n && (pkg + t)[n..][0] == pkg[n]
  {
    n := Span(pkg, PackageChars);
    var i :| 0 <= i < |pkg| && !InClass(pkg[i], PackageChars);
    assert forall j :: 0 <= j < n ==> pkg[..n][j] == pkg[j];
    SpanPrefix(pkg, t, PackageChars);
    assert (pkg + t)[n..][0] == (pkg + t)[n];
  }

  lemma {:induction false} UpdatesBadPackage(pkg: string, s: string)
    requires exists i :: 0 <= i < |pkg| && !InClass(pkg[i], PackageChars)
    requires '`' !in pkg
    ensures MatchUpdates(UpdatesHead + (pkg + (FromWord + s))).None?
  {
    Peel(UpdatesHead, pkg + (FromWord + s));
    var n := PackageStopsEarly(pkg, FromWord + s);
    assert FromWord[0] == '`';
  }

  /** An `Updates` line whose package name holds no backtick and a
      character outside `[@a-zA-Z\-/0-9]` (a `.` or `_`, say) is ignored. */
  lemma {:induction false} UpdatesBadPackageIgnored(pkg: string, older: string, newer: string)
    requires exists i :: 0 <= i < |pkg| && !InClass(pkg[i], PackageChars)
    requires '`' !in pkg
    ensures MatchLine(UpdatesLine(pkg, older, newer)).None?
  {
    UpdatesBadPackage(pkg, VersionsText(older, newer, false));
    NotBumps(UpdatesLine(pkg, older, newer));
  }

  lemma {:induction false} BumpsBadPackage(pkg: string, tail: string)
    requires exists i :: 0 <= i < |pkg| && !InClass(pkg[i], PackageChars)
    requires ']' !in pkg
    ensures BumpsLinkText(BumpsHead + (pkg + (LinkHead + tail))).None?
  {
    Peel(BumpsHead, pkg + (LinkHead + tail));
    var n := PackageStopsEarly(pkg, LinkHead + tail);
    assert LinkHead[0] == ']';
  }

  /** A `Bumps` line whose package name holds a character outside
      `[@a-zA-Z\-/0-9]` (a `.` or `_`, say) is ignored. */
  lemma {:induction false} BumpsBadPackageIgnored(pkg: string, host: char, path: string, older: string, newer: string)
    requires exists i :: 0 <= i < |pkg| && !InClass(pkg[i], PackageChars)
    requires ']' !in pkg
    ensures MatchLine(BumpsLine(pkg, host, path, older, newer)).None?
  {
    BumpsBadPackage(pkg, [host] + (LinkHost + (path + (LinkTail + VersionsText(older, newer, true)))));
    NotUpdates(BumpsLine(pkg, host, path, older, newer));
  }

  /** A `Bumps` line whose `github.com` dot is a character outside the Basic
      Multilingual Plane (an emoji, say) is ignored. */
  lemma {:induction false} AstralHostIgnored(pkg: string, host: char, path: string, older: string, newer: string)
    requires IsPackageName(pkg) && (host as int) >= 0x1_0000
    ensures MatchLine(BumpsLine(pkg, host, path, older, newer)).None?
  {
    var r := path + (LinkTail + VersionsText(older, newer, true));
    var tail := [host] + (LinkHost + r);
    Peel(BumpsHead, pkg + (LinkHead + tail));
    SpanOf(pkg, LinkHead + tail, PackageChars);
    Peel(pkg, LinkHead + tail);
    Peel(LinkHead, tail);
    assert BumpsLine(pkg, host, path, older, newer)[0] == 'B';
    NotUpdates(BumpsLine(pkg, host, path, older, newer));
  }
}
