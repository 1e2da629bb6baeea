# dependabot-auto-merge, modelled in Dafny

`dependabot-auto-merge` is a scheduled job. It scans a repository's open pull requests and picks the ones opened by the dependency bot (`dependabot[bot]`). If every dependency bump a pull request announces is caret-compatible, the job approves it when needed and turns on auto-merge.

This project models the job's core, `dependabot-auto-merge/src/main.ts`, in six modules:

- `Wrappers` (`wrappers.dfy`): the `Option` type that stands for JavaScript's `null` and for a request that failed.
- `Text` (`text.dfy`): JavaScript's `split` on one character, with its inverse `Join`.
- `SemVer` (`semver.dfy`): strict `MAJOR.MINOR.PATCH` versions and the caret range `^X.Y.Z` of `semver.satisfies`. It includes version precedence and a parse/format round trip.
  - node-semver builds the range's upper end as a version of its own. When the component it increments is already 2^53-1, that version is refused, no range exists, and `satisfies` answers false. The model follows this (`CaretAccepts`).
  - Any other string is handed to a `Fallback` parameter. That parameter stands for the library's answer. It may also be a thrown exception; node-semver's `satisfies` catches its own errors and answers false, so this is an over-approximation. It only costs `ReorderedLines` its unconditional form.
- `VersionBump` (`bump.dfy`): the classifier `isVersionBumpSafeToMerge`.
  - Two line recognisers implement the two anchored regular expressions as JavaScript runs them:
    - `.` never matches a line terminator.
    - `$` means end of input.
    - `[...]+` is greedy.
    - `.*` is greedy and backtracks.
    - The unescaped `.` of `github.com` matches any one UTF-16 code unit that is not a line terminator. The pattern has no `u` flag, so a character outside the Basic Multilingual Plane, which takes two code units, does not match it.
  - Each recogniser is proved to accept exactly the instances of its template and to capture the two versions.
  - The verdict on a description is a pure function over the lines. The source's loop, with its early `return false`, is a method proved equal to it.
- `AutoMerge` (`automerge.dfy`):
  - The eligibility filter `checkPullRequestApprovable`, as a pure function.
  - The GitHub wrapper, as a class `GitHub` that records every request in `trace`. Its answers and failures are left open as functions of a request's position in the run.
  - The merge executor `mergePullRequest`, as a method specified by the request sequence `MergeSteps`.
  - The repository pass `mergePullRequestsInRepository`, as a filter loop followed by a merge loop. Every concurrency ceiling of the source is 1, so both passes run sequentially in listing order.
- `Samples` (`samples.dfy`): the verdict on the two sample lines quoted in the source's comments, and on variations of them.

A `Fallback` throwing is modelled as `Outcome.Threw`. It ends the classifier loop, and the filter's `catch` turns it into "not approvable".

One consequence of the anchoring is proved in `VersionBump.CarriageReturnLineIgnored`. A description with CRLF line breaks leaves a `\r` at the end of every line piece but the last. None of those lines can match, so only the last line of such a description is ever checked.

## Model

| member | source | states |
|---|---|---|
| Text.Split | dependabot-auto-merge/src/main.ts:30 | `split('\n')` yields at least one piece, and no piece contains the separator |
| Text.JoinSplit | dependabot-auto-merge/src/main.ts:30 | joining the pieces with the separator gives back the description |
| Text.SplitJoin | dependabot-auto-merge/src/main.ts:30 | splitting a join of separator-free pieces gives back the pieces |
| Text.SplitWithoutSeparator | dependabot-auto-merge/src/main.ts:30 | a text without a line break is a single line |
| Text.SplitAround | dependabot-auto-merge/src/main.ts:30 | the lines of `a + "\n" + b` are the lines of `a` followed by the lines of `b` |
| SemVer.Numeral | dependabot-auto-merge/src/main.ts:57 | the decimal numeral of a number is a valid SemVer numeric identifier (no leading zero) |
| SemVer.ParseComponent | dependabot-auto-merge/src/main.ts:57 | an accepted component is at most 2^53-1 and is the canonical numeral of its value |
| SemVer.Parse | dependabot-auto-merge/src/main.ts:57 | definition of the strict version strings the model interprets; specified by `ParseFormat`, `FormatParse` and `ParseComponent` |
| SemVer.ValueOfNumeral | dependabot-auto-merge/src/main.ts:57 | reading a written number gives the number back |
| SemVer.NumeralOfValue | dependabot-auto-merge/src/main.ts:57 | a numeral without a leading zero is the numeral of its value |
| SemVer.ParseFormat | dependabot-auto-merge/src/main.ts:57 | every version with components up to 2^53-1 parses back from its text |
| SemVer.FormatParse | dependabot-auto-merge/src/main.ts:57 | every strict version string is the text of the version it parses to |
| SemVer.LessIsStrictTotalOrder | dependabot-auto-merge/src/main.ts:57 | version precedence is irreflexive, transitive, total and asymmetric |
| SemVer.CaretSatisfies | dependabot-auto-merge/src/main.ts:57 | definition of the caret rule by cases; specified by `CaretIsInterval` and `CaretCases` |
| SemVer.CaretUpperBound | dependabot-auto-merge/src/main.ts:57 | the exclusive upper end of `^base` lies above `base` |
| SemVer.CaretIsInterval | dependabot-auto-merge/src/main.ts:57 | `v` satisfies `^base` iff `base <= v < upper(base)`, the node-semver caret range |
| SemVer.CaretCases | dependabot-auto-merge/src/main.ts:57 | equal versions pass. A downgrade fails. A patch bump passes unless the base is `0.0.x`. A minor bump passes when major > 0. A major change fails. A minor change on `0.x` fails. `^0.0.p` admits only itself |
| SemVer.CaretAccepts | dependabot-auto-merge/src/main.ts:57 | definition of `satisfies` on two strict versions; specified by `CaretAcceptsLimit` and `LargestMajorRefused` |
| SemVer.CaretAcceptsLimit | dependabot-auto-merge/src/main.ts:57 | on a safe-range base, `satisfies` on strict versions is the caret rule exactly when the component the upper end increments is below 2^53-1; at 2^53-1 it is false |
| SemVer.Satisfies | dependabot-auto-merge/src/main.ts:57 | on two strict versions, `satisfies(new, "^" + old)` is true iff the caret range of `old` exists and holds `new`; on any other strings it is the library's answer |
| SemVer.LargestMajorRefused | dependabot-auto-merge/src/main.ts:57 | `satisfies(v, "^" + v)` is false when the major version of `v` is 2^53-1 |
| VersionBump.Span | dependabot-auto-merge/src/main.ts:40 | a greedy `[...]+` run stops at the first character outside the class |
| VersionBump.SpanOf | dependabot-auto-merge/src/main.ts:40 | a class run followed by an outside character spans exactly the run |
| VersionBump.MatchVersionsOf | dependabot-auto-merge/src/main.ts:40 | the tail `([0-9.]+) to ([0-9.]+)` (with `\.` for Bumps) accepts every instance and captures its versions |
| VersionBump.MatchVersionsSound | dependabot-auto-merge/src/main.ts:40 | whatever the tail accepts is an instance built from its two captures |
| VersionBump.MatchVersionsForm | dependabot-auto-merge/src/main.ts:40-44 | the tail accepts with captures `(older, newer)` iff the text is `older to newer` over `[0-9.]` |
| VersionBump.MatchUpdates | dependabot-auto-merge/src/main.ts:40 | definition of the `Updates` recogniser; specified by `UpdatesTemplate`, `UpdatesMatches` and `UpdatesMatchSound` |
| VersionBump.UpdatesMatches | dependabot-auto-merge/src/main.ts:40 | every `Updates` template instance matches, with its own versions as captures |
| VersionBump.UpdatesMatchSound | dependabot-auto-merge/src/main.ts:40 | every matched `Updates` line is a template instance for some package name |
| VersionBump.UpdatesTemplate | dependabot-auto-merge/src/main.ts:40 | the `Updates` pattern matches with captures `(older, newer)` iff the line is an instance for some package |
| VersionBump.LastWhereIsLast | dependabot-auto-merge/src/main.ts:44 | backtracking from the longest run finds the last stopping point that works, or proves there is none |
| VersionBump.LongestPathEnds | dependabot-auto-merge/src/main.ts:44 | where the greedy `.*` stops, the rest of the `Bumps` pattern matches |
| VersionBump.LongestPathIsGreedy | dependabot-auto-merge/src/main.ts:44 | the greedy `.*` stops no earlier than any point where the rest matches |
| VersionBump.LongestPathOf | dependabot-auto-merge/src/main.ts:44 | on a template instance, `.*` stops exactly at the end of the link path |
| VersionBump.MatchBumps | dependabot-auto-merge/src/main.ts:42-45 | definition of the `Bumps` recogniser; specified by `BumpsTemplate`, `BumpsMatches` and `BumpsMatchWitness` |
| VersionBump.BumpsMatches | dependabot-auto-merge/src/main.ts:44 | every `Bumps` template instance matches, with its own versions as captures; the `github.com` dot of an instance is one UTF-16 code unit |
| VersionBump.BumpsMatchWitness | dependabot-auto-merge/src/main.ts:44 | every matched `Bumps` line is a template instance for some package, host character and path |
| VersionBump.BumpsTemplate | dependabot-auto-merge/src/main.ts:44 | the `Bumps` pattern matches with captures `(older, newer)` iff the line is an instance for some package, host code unit and path |
| VersionBump.MatchLine | dependabot-auto-merge/src/main.ts:40-50 | definition of the match step (`Updates` first, then `Bumps`); specified by `UpdatesTemplate`, `BumpsTemplate` and the anchoring lemmas |
| VersionBump.LineVerdict | dependabot-auto-merge/src/main.ts:47-59 | definition of one line's verdict (an unmatched line is skipped, a matched one asks `satisfies`); specified by `NoMatchedLineIsSafe` and `StrictVerdict` |
| VersionBump.AndThen | dependabot-auto-merge/src/main.ts:56-59 | two verdicts in order are safe iff both are; otherwise the first failing one stands |
| VersionBump.Conjoin | dependabot-auto-merge/src/main.ts:31-62 | the loop's verdict is "safe" iff every line's verdict is; it throws only if some line's check throws |
| VersionBump.FirstUnsafeLine | dependabot-auto-merge/src/main.ts:31-59 | an unsafe verdict is the verdict of the first line that is not safe |
| VersionBump.ConjoinAppend | dependabot-auto-merge/src/main.ts:31-62 | the verdict over `a + b` is the verdict over `a`, then the verdict over `b` |
| VersionBump.ConjoinReordered | dependabot-auto-merge/src/main.ts:31-62 | a permutation of the lines keeps "safe"; it keeps the exact verdict when no check throws |
| VersionBump.ClassifyLines | dependabot-auto-merge/src/main.ts:31-62 | definition of the loop's verdict over the lines; specified by `StrictVerdict`, `ReorderedLines` and `UnmatchedLineIgnored` |
| VersionBump.IsSafe | dependabot-auto-merge/src/main.ts:29-63 | definition of the verdict on a description; specified by `SafeIffEveryLineSafe`, `SafeJoin`, `ReorderedLines` and `StrictVerdict`, and computed by `IsVersionBumpSafeToMerge` |
| VersionBump.IsVersionBumpSafeToMerge | dependabot-auto-merge/src/main.ts:29-63 | the loop with `continue` and early `return false` computes the verdict `IsSafe` |
| VersionBump.SafeIffEveryLineSafe | dependabot-auto-merge/src/main.ts:30-62 | a description is safe iff each of its lines is |
| VersionBump.NoMatchedLineIsSafe | dependabot-auto-merge/src/main.ts:47-62 | a description in which no line matches either pattern is safe |
| VersionBump.SafeJoin | dependabot-auto-merge/src/main.ts:30-62 | `isSafe(a + "\n" + b)` is `isSafe(a)` followed by `isSafe(b)`, so it is safe iff both are |
| VersionBump.UnmatchedLineIgnored | dependabot-auto-merge/src/main.ts:47-50 | inserting prose or a blank line anywhere does not change the verdict |
| VersionBump.ReorderedLines | dependabot-auto-merge/src/main.ts:30-62 | reordering the lines keeps "safe", and keeps the verdict when nothing throws |
| VersionBump.StrictVerdict | dependabot-auto-merge/src/main.ts:52-62 | when every matched line has strict versions, the verdict is true iff, on every matched line, the caret range of the old version exists and holds the new one |
| VersionBump.UpdatesLineEnding | dependabot-auto-merge/src/main.ts:40 | a matched `Updates` line ends with its captured new version, so its last character is in `[0-9.]` |
| VersionBump.BumpsFinalDot | dependabot-auto-merge/src/main.ts:44 | a matched `Bumps` line ends with `.` |
| VersionBump.MatchedLineEnding | dependabot-auto-merge/src/main.ts:40-45 | a matched line ends in a version character |
| VersionBump.BumpsWithoutDotIgnored | dependabot-auto-merge/src/main.ts:44 | a `Bumps` line without its final `.` is ignored |
| VersionBump.CarriageReturnLineIgnored | dependabot-auto-merge/src/main.ts:40-45 | a line ending in `\r` matches neither pattern |
| VersionBump.UpdatesAfterPackage | dependabot-auto-merge/src/main.ts:40 | after a well-formed package name, an `Updates` line matches as its version tail does |
| VersionBump.VersionsTrailing | dependabot-auto-merge/src/main.ts:40 | versions followed by other text do not match the end-anchored tail |
| VersionBump.UpdatesTrailingTextIgnored | dependabot-auto-merge/src/main.ts:40 | an `Updates` line with trailing text is ignored |
| VersionBump.NotUpdates | dependabot-auto-merge/src/main.ts:40 | a line not starting with `U` is no `Updates` line |
| VersionBump.NotBumps | dependabot-auto-merge/src/main.ts:44 | a line not starting with `B` is no `Bumps` line |
| VersionBump.UpdatesBadPackageIgnored | dependabot-auto-merge/src/main.ts:40 | an `Updates` line whose package name holds no backtick and has a character outside `[@a-zA-Z\-/0-9]` is ignored |
| VersionBump.BumpsBadPackageIgnored | dependabot-auto-merge/src/main.ts:44 | a `Bumps` line whose package name has a character outside `[@a-zA-Z\-/0-9]` is ignored |
| VersionBump.UpdatesFormOneLine | dependabot-auto-merge/src/main.ts:40 | an `Updates` template instance contains no line terminator |
| VersionBump.BumpsFormOneLine | dependabot-auto-merge/src/main.ts:44 | a `Bumps` template instance contains no line terminator |
| VersionBump.AstralHostIgnored | dependabot-auto-merge/src/main.ts:44 | a `Bumps` line whose `github.com` dot is a character outside the Basic Multilingual Plane is ignored |
| Samples.SingleLineVerdict | dependabot-auto-merge/src/main.ts:29-63 | a one-line description with strict versions is safe iff the caret range of the old version exists and holds the new one |
| Samples.UpdatesVerdict | dependabot-auto-merge/src/main.ts:40-58 | a one-line `Updates` description is safe iff the caret range of its old version exists and holds its new one |
| Samples.BumpsVerdict | dependabot-auto-merge/src/main.ts:44-58 | a one-line `Bumps` description is safe iff the caret range of its old version exists and holds its new one |
| Samples.ParseOf | dependabot-auto-merge/src/main.ts:57 | a formatted version parses back and is a `[0-9.]+` capture |
| Samples.UpdatesSampleUnsafe | dependabot-auto-merge/src/main.ts:33 | ``Updates `@nestjs/jwt` from 9.0.0 to 10.0.1`` is not safe |
| Samples.UpdatesMinorSafe | dependabot-auto-merge/src/main.ts:33 | ``Updates `@nestjs/jwt` from 9.0.0 to 9.1.2`` is safe |
| Samples.BumpsSampleUnsafe | dependabot-auto-merge/src/main.ts:35 | `Bumps [@nestjs/axios](https://github.com/nestjs/axios) from 0.1.0 to 1.0.1.` is not safe |
| Samples.BumpsPatchSafe | dependabot-auto-merge/src/main.ts:35 | the same `Bumps` line to `0.1.3` is safe |
| AutoMerge.Body | dependabot-auto-merge/src/main.ts:82 | `pullRequest.body \|\| ''`: a missing body reads as empty text |
| AutoMerge.ByBot | dependabot-auto-merge/src/main.ts:78 | definition of the author test `user?.login === 'dependabot[bot]'`; specified by `NotByBotRejected` and `CheckPullRequestApprovable` |
| AutoMerge.CheckPullRequestApprovable | dependabot-auto-merge/src/main.ts:65-94 | the result is the input pull request unchanged or null. It is non-null iff the author login is exactly `dependabot[bot]` and the body (or `''`) is classified safe; a classifier exception gives null |
| AutoMerge.NotByBotRejected | dependabot-auto-merge/src/main.ts:78-80 | a pull request with no author or another login is rejected |
| AutoMerge.AgeIgnored | dependabot-auto-merge/src/main.ts:72-76 | the verdict depends on neither `now` nor the creation time |
| AutoMerge.MissingBodyAccepted | dependabot-auto-merge/src/main.ts:82 | a bot pull request without a body is approvable |
| AutoMerge.StrictBodyDecides | dependabot-auto-merge/src/main.ts:82-84 | with strict versions on every matched line, a bot pull request is approvable iff on every matched line the caret range of the old version exists and holds the new one |
| AutoMerge.Approvable | dependabot-auto-merge/src/main.ts:123-133 | the filtered list contains exactly the approvable pull requests of the listing, and is no longer |
| AutoMerge.ApprovableAppend | dependabot-auto-merge/src/main.ts:131-133 | filtering commutes with concatenation, so accepted pull requests keep their listing order |
| AutoMerge.ApprovableSingle | dependabot-auto-merge/src/main.ts:131-133 | a single pull request is kept iff it is approvable |
| AutoMerge.GitHub.GetPullRequests | dependabot-auto-merge/src/main.ts:120 | a listing request is recorded and yields the service's listing or a failure |
| AutoMerge.GitHub.IsPullRequestApproved | dependabot-auto-merge/src/main.ts:102 | an approval query is recorded and yields the service's answer or a failure |
| AutoMerge.GitHub.ApprovePullRequest | dependabot-auto-merge/src/main.ts:103 | an approval is recorded and reports whether it succeeded |
| AutoMerge.GitHub.MarkAutoMerge | dependabot-auto-merge/src/main.ts:106 | an auto-merge request is recorded and reports whether it succeeded |
| AutoMerge.MergeSteps | dependabot-auto-merge/src/main.ts:101-112 | the executor makes one to three requests and always starts with the approval query |
| AutoMerge.MergeStepsProtocol | dependabot-auto-merge/src/main.ts:101-112 | all requests concern the one pull request. `Approve` is sent iff the query succeeded and answered "not approved". `EnableAutoMerge` is sent iff neither the query nor a needed approval failed, and it comes last |
| AutoMerge.MergePullRequest | dependabot-auto-merge/src/main.ts:96-113 | the requests the method makes are exactly `MergeSteps`; a failure ends them |
| AutoMerge.RunEachSnoc | dependabot-auto-merge/src/main.ts:137-143 | running the steps over `prs + [pr]` is the run over `prs` followed by the steps for `pr` |
| AutoMerge.MergePass | dependabot-auto-merge/src/main.ts:137-143 | definition of the merge pass's requests (the executor on each pull request in turn); specified by `MergePassSnoc` and `MergePassAttemptsAll`, and made by `MergeEach` |
| AutoMerge.MergePassSnoc | dependabot-auto-merge/src/main.ts:137-143 | the merge pass over `prs + [pr]` is the pass over `prs` followed by the executor on `pr` |
| AutoMerge.AttemptedAppend | dependabot-auto-merge/src/main.ts:137-143 | the attempted pull requests of two runs in a row are those of each, in order |
| AutoMerge.AttemptedSteps | dependabot-auto-merge/src/main.ts:101-112 | one executor run queries exactly its own pull request, once |
| AutoMerge.RunEachAttempted | dependabot-auto-merge/src/main.ts:137-143 | a run of steps that each query their own pull request queries the whole list, in order |
| AutoMerge.MergePassAttemptsAll | dependabot-auto-merge/src/main.ts:107-143 | every pull request handed to the merge pass is attempted, in order; one pull request's failure never stops the later ones |
| AutoMerge.FilterApprovable | dependabot-auto-merge/src/main.ts:123-133 | the filter loop builds exactly `Approvable(listing)` |
| AutoMerge.MergeEach | dependabot-auto-merge/src/main.ts:135-143 | the merge loop makes exactly the requests of the merge pass over its input |
| AutoMerge.MergePullRequestsInRepository | dependabot-auto-merge/src/main.ts:115-144 | a failed listing ends the pass after that one request. Otherwise the requests are the listing followed by the merge pass over the approvable pull requests (no filter request comes between), and the pull requests attempted are exactly the approvable ones, in listing order |

## Left out

- The `./github` wrapper and the `@actions/github` context (main.ts:1-16) are not part of this model. GitHub's answers are left open: `Service` says, as a function of a request's position in the run, whether it fails, what an approval query answers and what a listing returns.
- `promise-limit` and `Promise.all` (main.ts:121-143) are replaced by sequential loops. Every ceiling is 1, so tasks run one at a time in submission order. Neither the filter nor the executor lets an exception escape, so no task rejects.
- `semver.satisfies` on strings that are not strict `MAJOR.MINOR.PATCH` is left to the `Fallback` parameter. This covers leading zeros, fewer or more than three components, and components above 2^53-1. Node-semver accepts partial forms such as `^1.2` in a range, and its answers there are not modelled.
- `Date` parsing and `Date.now()` (main.ts:69, 72) are left out: the creation time and the clock are plain integers in milliseconds. They feed only the age test, which has no effect.
- `console.error` logging (main.ts:87-90, 109-111) is left out: logging is I/O and changes nothing the model observes.
- The top-level fan-out `mergeDependabotPullRequests` and the final rethrow (main.ts:146-171) are left out, along with the organization-to-repository map (main.ts:14-16). The map has one entry built from the runtime context. What a failed repository pass does to the ones queued after it depends on `promise-limit`'s internals.
- Strings are sequences of Unicode scalar values, so a string holding a lone UTF-16 surrogate cannot be written in the model. Such strings can occur in JavaScript, and the model says nothing about them.
- AutoMerge.CheckPullRequestApprovable: the `organization` and `repository` parameters are not modelled, because the source never reads them in the filter.
- AutoMerge.MergeSteps: which request failed, and the logged error message, are not recorded. Only the requests made are.
