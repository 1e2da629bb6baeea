/**
 * The part of the `semver` package the classifier relies on:
 * `satisfies(version, "^" + base)`.
 *
 * Versions are read in the strict `MAJOR.MINOR.PATCH` form of section 2 of
 * Semantic Versioning 2.0.0 (non-negative integers without leading zeroes),
 * compared by the precedence of section 11, and the caret range follows the
 * node-semver rule: `^M.m.p` is `>=M.m.p <(M+1).0.0` when M > 0,
 * `>=0.m.p <0.(m+1).0` when M = 0 < m, and `>=0.0.p <0.0.(p+1)` otherwise.
 * The library builds that upper end as a version of its own, so a base whose
 * bumped component is already `Number.MAX_SAFE_INTEGER` yields no range, and
 * `satisfies` answers false.
 * What the library does with any other string is not modelled: the caller
 * supplies it as a `Fallback`.
 */
module SemVer {
  import opened Wrappers
  import opened Text

  datatype Version = Version(major: nat, minor: nat, patch: nat)

  /** node-semver refuses version components above `Number.MAX_SAFE_INTEGER`. */
  const MaxSafeInteger: nat := 0x1F_FFFF_FFFF_FFFF

  /** What a call into the library gives back: a boolean, or an exception. */
  datatype Outcome = Returned(value: bool) | Threw

  /** The library's answer to `satisfies(version, "^" + base)` on strings the
      model does not interpret (the first argument is `version`). */
  type Fallback = (string, string) -> Outcome

  predicate IsDigit(c: char) {
    '0' <= c <= '9'
  }

  predicate AllDigits(s: string) {
    forall i :: 0 <= i < |s| ==> IsDigit(s[i])
  }

  /** A numeric identifier as section 2 of Semantic Versioning 2.0.0 allows it: `0`, or digits not starting with `0`. */
  predicate IsNumeral(s: string) {
    |s| >= 1 && AllDigits(s) && (s[0] == '0' ==> |s| == 1)
  }

  /** The decimal value of a digit string. */
  function Value(s: string): nat
    requires AllDigits(s)
  {
    if s == [] then 0 else Value(s[..|s| - 1]) * 10 + (s[|s| - 1] as int - '0' as int)
  }

  /** The decimal numeral of `n`. */
  function Numeral(n: nat): (s: string)
    ensures IsNumeral(s)
  {
    if n < 10 then [('0' as int + n) as char]
    else Numeral(n / 10) + [('0' as int + n % 10) as char]
  }

  /** One component: a numeral within the library's safe range. */
  function ParseComponent(s: string): (r: Option<nat>)
    ensures r.Some? ==> r.value <= MaxSafeInteger && Numeral(r.value) == s
  {
    if IsNumeral(s) && Value(s) <= MaxSafeInteger then
      NumeralOfValue(s);
      Some(Value(s))
    else None
  }

  /** A strict `MAJOR.MINOR.PATCH` version string, or `None`. */
  function Parse(s: string): (r: Option<Version>)
  {
    var parts := Split(s, '.');
    if |parts| != 3 then None
    else
      match (ParseComponent(parts[0]), ParseComponent(parts[1]), ParseComponent(parts[2]))
      case (Some(major), Some(minor), Some(patch)) => Some(Version(major, minor, patch))
      case _ => None
  }

  /** The canonical text of a version. */
  function Format(v: Version): string {
    Numeral(v.major) + "." + Numeral(v.minor) + "." + Numeral(v.patch)
  }

  predicate InSafeRange(v: Version) {
    v.major <= MaxSafeInteger && v.minor <= MaxSafeInteger && v.patch <= MaxSafeInteger
  }

  lemma {:induction false} ValueOfNumeral(n: nat)
    ensures Value(Numeral(n)) == n
  {
    if n >= 10 {
      ValueOfNumeral(n / 10);
      var s := Numeral(n);
      assert s[..|s| - 1] == Numeral(n / 10);
    }
  }

  lemma {:induction false} ValueAtLeastLeadingDigit(s: string)
    requires AllDigits(s) && |s| >= 1
    ensures Value(s) >= s[0] as int - '0' as int
  {
    if |s| > 1 {
      ValueAtLeastLeadingDigit(s[..|s| - 1]);
    }
  }

  lemma {:induction false} NumeralOfValue(s: string)
    requires IsNumeral(s)
    ensures Numeral(Value(s)) == s
  {
    if |s| > 1 {
      var init := s[..|s| - 1];
      assert s[0] != '0';
      ValueAtLeastLeadingDigit(init);
      NumeralOfValue(init);
      assert s == init + [s[|s| - 1]];
    }
  }

  /** Printing then parsing a version gives it back. */
  lemma {:induction false} ParseFormat(v: Version)
    requires InSafeRange(v)
    ensures Parse(Format(v)) == Some(v)
  {
    var a, b, c := Numeral(v.major), Numeral(v.minor), Numeral(v.patch);
    assert '.' !in a && '.' !in b && '.' !in c;
    SplitWithoutSeparator(a, '.');
    SplitWithoutSeparator(b, '.');
    SplitWithoutSeparator(c, '.');
    SplitAround(b, c, '.');
    SplitAround(a, b + "." + c, '.');
    assert Format(v) == a + ['.'] + (b + ['.'] + c);
    ValueOfNumeral(v.major);
    ValueOfNumeral(v.minor);
    ValueOfNumeral(v.patch);
  }

  /** A string is accepted only in its canonical form: parsing then printing
      gives the same text back. */
  lemma {:induction false} FormatParse(s: string)
    requires Parse(s).Some?
    ensures Format(Parse(s).value) == s
  {
    var parts := Split(s, '.');
    JoinSplit(s, '.');
    assert Join(parts[2..], '.') == parts[2];
    assert Join(parts[1..], '.') == parts[1] + "." + parts[2];
  }

  /** Precedence of two release versions (section 11 of Semantic Versioning
      2.0.0): major, then minor, then patch, compared numerically. */
  predicate Less(a: Version, b: Version) {
    a.major < b.major
    || (a.major == b.major && a.minor < b.minor)
    || (a.major == b.major && a.minor == b.minor && a.patch < b.patch)
  }

  predicate LessEq(a: Version, b: Version) {
    Less(a, b) || a == b
  }

  /** Precedence is a strict total order on versions. */
  lemma {:induction false} LessIsStrictTotalOrder(a: Version, b: Version, c: Version)
    ensures !Less(a, a)
    ensures Less(a, b) && Less(b, c) ==> Less(a, c)
    ensures Less(a, b) || a == b || Less(b, a)
    ensures Less(a, b) ==> !Less(b, a)
  {
  }

  /** node-semver's caret rule, stated by cases on the base version. */
  predicate CaretSatisfies(base: Version, v: Version) {
    if base.major > 0 then v.major == base.major && LessEq(base, v)
    else if base.minor > 0 then v.major == 0 && v.minor == base.minor && v.patch >= base.patch
    else v == base
  }

  /** The exclusive upper end of the range `^base` (node-semver writes it `<U-0`,
      which for release versions is `<U`). */
  function CaretUpperBound(base: Version): (u: Version)
    ensures Less(base, u)
  {
    if base.major > 0 then Version(base.major + 1, 0, 0)
    else if base.minor > 0 then Version(0, base.minor + 1, 0)
    else Version(0, 0, base.patch + 1)
  }

  /** The case rule and the interval `[base, CaretUpperBound(base))` agree. */
  lemma {:induction false} CaretIsInterval(base: Version, v: Version)
    ensures CaretSatisfies(base, v) <==> LessEq(base, v) && Less(v, CaretUpperBound(base))
  {
  }

  /** The bumps the caret rule accepts and refuses. */
  lemma {:induction false} CaretCases(base: Version, v: Version)
    ensures CaretSatisfies(base, base)
    ensures Less(v, base) ==> !CaretSatisfies(base, v)
    ensures (base.major > 0 || base.minor > 0) && v == Version(base.major, base.minor, base.patch + 1) ==>
              CaretSatisfies(base, v)
    ensures base.major > 0 && v.major == base.major && v.minor > base.minor ==> CaretSatisfies(base, v)
    ensures v.major != base.major ==> !CaretSatisfies(base, v)
    ensures base.major == 0 && v.minor != base.minor ==> !CaretSatisfies(base, v)
    ensures base.major == 0 && base.minor == 0 && v != base ==> !CaretSatisfies(base, v)
  {
    LessIsStrictTotalOrder(v, base, base);
  }

  /** `satisfies(v, "^" + base)` on two strict versions: the range `^base`
      exists (its upper end is itself a valid version) and `v` lies in it. */
  predicate CaretAccepts(base: Version, v: Version) {
    InSafeRange(CaretUpperBound(base)) && CaretSatisfies(base, v)
  }

  /** On a base in the safe range, the range fails to exist exactly when the
      component the upper end increments is `Number.MAX_SAFE_INTEGER`;
      below that the answer is the caret rule. */
  lemma {:induction false} CaretAcceptsLimit(base: Version, v: Version)
    requires InSafeRange(base)
    ensures base.major > 0 ==>
              (CaretAccepts(base, v) <==> base.major < MaxSafeInteger && CaretSatisfies(base, v))
    ensures base.major == 0 && base.minor > 0 ==>
              (CaretAccepts(base, v) <==> base.minor < MaxSafeInteger && CaretSatisfies(base, v))
    ensures base.major == 0 && base.minor == 0 ==>
              (CaretAccepts(base, v) <==> base.patch < MaxSafeInteger && v == base)
  {
  }

  /** `satisfies(version, "^" + base)`: the caret range when both strings
      are strict versions, the library's own behaviour otherwise. */
  function Satisfies(version: string, base: string, fallback: Fallback): (r: Outcome)
    ensures Parse(version).Some? && Parse(base).Some? ==>
              r == Returned(CaretAccepts(Parse(base).value, Parse(version).value))
    ensures Parse(version).None? || Parse(base).None? ==> r == fallback(version, base)
  {
    match (Parse(base), Parse(version))
    case (Some(b), Some(v)) => Returned(CaretAccepts(b, v))
    case _ => fallback(version, base)
  }

  /** `satisfies(v, "^" + v)` is false when `v` has a major version of
      `Number.MAX_SAFE_INTEGER`: the upper end `(M+1).0.0` is refused. */
  lemma {:induction false} LargestMajorRefused(minor: nat, patch: nat, fallback: Fallback)
    requires minor <= MaxSafeInteger && patch <= MaxSafeInteger
    ensures var s := Format(Version(MaxSafeInteger, minor, patch));
            Satisfies(s, s, fallback) == Returned(false)
  {
    ParseFormat(Version(MaxSafeInteger, minor, patch));
  }
}
