/**
 * The classifier on concrete descriptions: the two sample lines quoted in the
 * source's comments, and variations of them, each written as an instance of
 * its template.
 */
module Samples {
  import opened Wrappers
  import opened Text
  import opened SemVer
  import opened VersionBump

  /** A one-line description whose line matches with two strict versions is
      safe exactly when the caret range of the old version exists and holds the new one. */
  lemma {:induction false} SingleLineVerdict(line: string, older: string, newer: string, base: Version, target: Version, fallback: Fallback)
    requires NoLineTerminator(line) && MatchLine(line) == Some(VersionPair(older, newer))
    requires Parse(older) == Some(base) && Parse(newer) == Some(target)
    ensures IsSafe(line, fallback) == Returned(CaretAccepts(base, target))
  {
    assert '\n' !in line;
    SplitWithoutSeparator(line, '\n');
    var verdict := l => LineVerdict(l, fallback);
    assert [line][1..] == [];
    assert Conjoin([line], verdict) == AndThen(verdict(line), Returned(true));
  }

  /** A one-line `Updates` description with strict versions is safe exactly
      when the caret range of the old version exists and holds the new one. */
  lemma {:induction false} UpdatesVerdict(pkg: string, older: string, newer: string, base: Version, target: Version, fallback: Fallback)
    requires UpdatesForm(UpdatesLine(pkg, older, newer), pkg, older, newer)
    requires Parse(older) == Some(base) && Parse(newer) == Some(target)
    ensures IsSafe(UpdatesLine(pkg, older, newer), fallback) == Returned(CaretAccepts(base, target))
  {
    var line := UpdatesLine(pkg, older, newer);
    UpdatesMatches(pkg, older, newer);
    UpdatesFormOneLine(line, pkg, older, newer);
    SingleLineVerdict(line, older, newer, base, target, fallback);
  }

  /** A one-line `Bumps` description with strict versions is safe exactly
      when the caret range of the old version exists and holds the new one. */
  lemma {:induction false} BumpsVerdict(pkg: string, host: char, path: string, older: string, newer: string, base: Version, target: Version, fallback: Fallback)
    requires BumpsForm(BumpsLine(pkg, host, path, older, newer), pkg, host, path, older, newer)
    requires Parse(older) == Some(base) && Parse(newer) == Some(target)
    ensures IsSafe(BumpsLine(pkg, host, path, older, newer), fallback) == Returned(CaretAccepts(base, target))
  {
    var line := BumpsLine(pkg, host, path, older, newer);
    BumpsMatches(pkg, host, path, older, newer);
    assert line[0] == 'B';
    NotUpdates(line);
    BumpsFormOneLine(line, pkg, host, path, older, newer);
    SingleLineVerdict(line, older, newer, base, target, fallback);
  }

  /** A formatted version is a nonempty run of `[0-9.]`. */
  lemma {:induction false} FormatVersionChars(v: Version)
    ensures AllIn(Format(v), VersionChars) && |Format(v)| > 0
  {
    var a, b, c := Numeral(v.major), Numeral(v.minor), Numeral(v.patch);
    assert AllIn(a, VersionChars) && AllIn(b, VersionChars) && AllIn(c, VersionChars);
    AllInConcat(a, ".", VersionChars);
    AllInConcat(a + ".", b, VersionChars);
    AllInConcat(a + "." + b, ".", VersionChars);
    AllInConcat(a + "." + b + ".", c, VersionChars);
  }

  /** `Parse` reads back what `Format` writes. */
  lemma {:induction false} ParseOf(s: string, v: Version)
    requires InSafeRange(v) && Format(v) == s
    ensures Parse(s) == Some(v) && IsVersionText(s)
  {
    ParseFormat(v);
    FormatVersionChars(v);
  }

  lemma {:induction false} SamplePackages()
    ensures IsPackageName("@nestjs/jwt") && IsPackageName("@nestjs/axios") && NoLineTerminator("nestjs/axios")
    ensures IsSingleUnit('.')
  {
  }

  /** `Updates \`@nestjs/jwt\` from 9.0.0 to 10.0.1`, the sample in the source:
      a major bump, so the pull request is not safe. */
  lemma {:induction false} UpdatesSampleUnsafe(fallback: Fallback)
    ensures IsSafe(UpdatesLine("@nestjs/jwt", "9.0.0", "10.0.1"), fallback) == Returned(false)
  {
    SamplePackages();
    ParseOf("9.0.0", Version(9, 0, 0));
    ParseOf("10.0.1", Version(10, 0, 1));
    UpdatesVerdict("@nestjs/jwt", "9.0.0", "10.0.1", Version(9, 0, 0), Version(10, 0, 1), fallback);
  }

  /** `Updates \`@nestjs/jwt\` from 9.0.0 to 9.1.2`: a minor bump, safe. */
  lemma {:induction false} UpdatesMinorSafe(fallback: Fallback)
    ensures IsSafe(UpdatesLine("@nestjs/jwt", "9.0.0", "9.1.2"), fallback) == Returned(true)
  {
    SamplePackages();
    ParseOf("9.0.0", Version(9, 0, 0));
    ParseOf("9.1.2", Version(9, 1, 2));
    UpdatesVerdict("@nestjs/jwt", "9.0.0", "9.1.2", Version(9, 0, 0), Version(9, 1, 2), fallback);
  }

  /** `Bumps [@nestjs/axios](https://github.com/nestjs/axios) from 0.1.0 to 1.0.1.`,
      the sample in the source: `1.0.1` is outside `^0.1.0`, so the pull
      request is not safe. */
  lemma {:induction false} BumpsSampleUnsafe(fallback: Fallback)
    ensures IsSafe(BumpsLine("@nestjs/axios", '.', "nestjs/axios", "0.1.0", "1.0.1"), fallback) == Returned(false)
  {
    SamplePackages();
    ParseOf("0.1.0", Version(0, 1, 0));
    ParseOf("1.0.1", Version(1, 0, 1));
    BumpsVerdict("@nestjs/axios", '.', "nestjs/axios", "0.1.0", "1.0.1", Version(0, 1, 0), Version(1, 0, 1), fallback);
  }

  /** `Bumps [@nestjs/axios](https://github.com/nestjs/axios) from 0.1.0 to 0.1.3.`:
      a patch bump inside `^0.1.0`, safe. */
  lemma {:induction false} BumpsPatchSafe(fallback: Fallback)
    ensures IsSafe(BumpsLine("@nestjs/axios", '.', "nestjs/axios", "0.1.0", "0.1.3"), fallback) == Returned(true)
  {
    SamplePackages();
    ParseOf("0.1.0", Version(0, 1, 0));
    ParseOf("0.1.3", Version(0, 1, 3));
    BumpsVerdict("@nestjs/axios", '.', "nestjs/axios", "0.1.0", "0.1.3", Version(0, 1, 0), Version(0, 1, 3), fallback);
  }
}
