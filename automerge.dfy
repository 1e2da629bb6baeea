/**
 * The auto-merge pass over one repository: the eligibility filter
 * (`checkPullRequestApprovable`), the per-pull-request merge executor
 * (`mergePullRequest`) and the repository driver
 * (`mergePullRequestsInRepository`), run against a GitHub collaborator
 * whose answers and failures are left open.
 */
module AutoMerge {
  import opened Wrappers
  import opened Text
  import opened SemVer
  import opened VersionBump

  /** One week in milliseconds: the age threshold of the (inactive) age check. */
  const PeriodWeek: int := 604800000

  /** The login under which the dependency-update bot opens pull requests. */
  const BotLogin: string := "dependabot[bot]"

  datatype User = User(login: string)

  /** The fields of a pull request the pass looks at; `createdAt` is the
      creation time in milliseconds since the epoch. */
  datatype PullRequest = PullRequest(number: int, user: Option<User>, body: Option<string>, createdAt: int)

  /** `pullRequest.body || ''`: a missing body reads as the empty text. */
  function Body(pr: PullRequest): (text: string)
    ensures pr.body.None? ==> text == ""
    ensures pr.body.Some? ==> text == pr.body.value
  {
    pr.body.GetOr("")
  }

  /** The author is the bot: `pullRequest.user?.login === 'dependabot[bot]'`. */
  predicate ByBot(pr: PullRequest) {
    pr.user.Some? && pr.user.value.login == BotLogin
  }

  /** `checkPullRequestApprovable`: the pull request itself when the bot wrote
      it and its description is safe, `None` otherwise. A classifier that
      throws is caught and also yields `None`. The age test is evaluated but,
      as in the source, decides nothing. */
  function CheckPullRequestApprovable(pr: PullRequest, now: int, fallback: Fallback): (r: Option<PullRequest>)
    ensures r.Some? ==> r.value == pr
    ensures r.Some? <==> ByBot(pr) && IsSafe(Body(pr), fallback) == Returned(true)
  {
    var recent := now - pr.createdAt < PeriodWeek;
    if !ByBot(pr) then None
    else match IsSafe(Body(pr), fallback)
      case Threw => None
      case Returned(safe) => if safe then Some(pr) else None
  }

  /** A pull request from anyone other than the bot is never approvable. */
  lemma {:induction false} NotByBotRejected(pr: PullRequest, now: int, fallback: Fallback)
    requires pr.user.None? || pr.user.value.login != BotLogin
    ensures CheckPullRequestApprovable(pr, now, fallback).None?
  {
  }

  /** The verdict depends neither on the clock nor on the creation time. */
  lemma {:induction false} AgeIgnored(pr: PullRequest, now: int, createdAt: int, later: int, fallback: Fallback)
    ensures CheckPullRequestApprovable(pr.(createdAt := createdAt), later, fallback).Some? ==
            CheckPullRequestApprovable(pr, now, fallback).Some?
  {
  }

  /** A bot pull request without a description is approvable. */
  lemma {:induction false} MissingBodyAccepted(pr: PullRequest, now: int, fallback: Fallback)
    requires ByBot(pr) && pr.body.None?
    ensures CheckPullRequestApprovable(pr, now, fallback) == Some(pr)
  {
    NoMatchedLineIsSafe("", fallback);
  }

  /** A bot pull request whose matched lines all carry strict `X.Y.Z`
      versions is approvable exactly when every one of those bumps is
      caret-compatible. */
  lemma {:induction false} StrictBodyDecides(pr: PullRequest, now: int, fallback: Fallback)
    requires ByBot(pr)
    requires AllMatchedStrict(Split(Body(pr), '\n'))
    ensures CheckPullRequestApprovable(pr, now, fallback).Some? <==> AllMatchedCompatible(Split(Body(pr), '\n'))
  {
    StrictVerdict(Split(Body(pr), '\n'), fallback);
  }

  /** `Approvable(prs)`: the approvable pull requests of `prs`, in their
      order (the `map` then `filter(pullRequest => pullRequest)` of the
      driver). */
  function Approvable(prs: seq<PullRequest>, now: int, fallback: Fallback): (accepted: seq<PullRequest>)
    ensures |accepted| <= |prs|
    ensures forall pr :: pr in accepted <==> pr in prs && CheckPullRequestApprovable(pr, now, fallback).Some?
  {
    if prs == [] then []
    else
      var rest := Approvable(prs[1..], now, fallback);
      assert forall pr :: pr in prs <==> pr == prs[0] || pr in prs[1..];
      if CheckPullRequestApprovable(prs[0], now, fallback).Some? then [prs[0]] + rest else rest
  }

  /** The filter commutes with concatenation, so it keeps the relative order
      of what it accepts. */
  lemma {:induction false} ApprovableAppend(a: seq<PullRequest>, b: seq<PullRequest>, now: int, fallback: Fallback)
    ensures Approvable(a + b, now, fallback) == Approvable(a, now, fallback) + Approvable(b, now, fallback)
  {
    if a == [] {
      assert a + b == b;
    } else {
      var head := if CheckPullRequestApprovable(a[0], now, fallback).Some? then [a[0]] else [];
      assert (a + b)[0] == a[0];
      assert (a + b)[1..] == a[1..] + b;
      ApprovableAppend(a[1..], b, now, fallback);
      calc {
        Approvable(a + b, now, fallback);
        head + Approvable(a[1..] + b, now, fallback);
        head + (Approvable(a[1..], now, fallback) + Approvable(b, now, fallback));
        (head + Approvable(a[1..], now, fallback)) + Approvable(b, now, fallback);
      }
    }
  }

  /** On one pull request the filter keeps it exactly when it is approvable. */
  lemma {:induction false} ApprovableSingle(pr: PullRequest, now: int, fallback: Fallback)
    ensures Approvable([pr], now, fallback) == if CheckPullRequestApprovable(pr, now, fallback).Some? then [pr] else []
  {
    assert [pr][1..] == [];
  }

  /** The requests the pass makes to GitHub. */
  datatype Call =
    | ListPullRequests(organization: string, repository: string)
    | IsApproved(pr: PullRequest, organization: string, repository: string)
    | Approve(pr: PullRequest, organization: string, repository: string)
    | EnableAutoMerge(pr: PullRequest, organization: string, repository: string)

  /** How GitHub answers: whether the request made as the `n`-th call of the
      run fails, the approval state it reports, and the open pull requests a
      listing returns. Any behaviour is allowed. */
  datatype Service = Service(
    fails: (nat, Call) -> bool,
    approved: (nat, Call) -> bool,
    listing: (nat, Call) -> seq<PullRequest>)

  /** The GitHub API wrapper, recording every request it receives. */
  class GitHub {
    const service: Service
    var trace: seq<Call>

    constructor (service: Service)
      ensures this.service == service && trace == []
    {
      this.service := service;
      trace := [];
    }

    /** `getPullRequests`: `None` when the request fails. */
    method GetPullRequests(organization: string, repository: string) returns (prs: Option<seq<PullRequest>>)
      modifies this
      ensures var call := ListPullRequests(organization, repository);
              trace == old(trace) + [call] &&
              prs == if service.fails(|old(trace)|, call) then None else Some(service.listing(|old(trace)|, call))
    {
      var call := ListPullRequests(organization, repository);
      prs := if service.fails(|trace|, call) then None else Some(service.listing(|trace|, call));
      trace := trace + [call];
    }

    /** `isPullRequestApproved`: `None` when the request fails. */
    method IsPullRequestApproved(pr: PullRequest, organization: string, repository: string) returns (approved: Option<bool>)
      modifies this
      ensures var call := IsApproved(pr, organization, repository);
              trace == old(trace) + [call] &&
              approved == if service.fails(|old(trace)|, call) then None else Some(service.approved(|old(trace)|, call))
    {
      var call := IsApproved(pr, organization, repository);
      approved := if service.fails(|trace|, call) then None else Some(service.approved(|trace|, call));
      trace := trace + [call];
    }

    /** `approvePullRequest`: whether the request succeeded. */
    method ApprovePullRequest(pr: PullRequest, organization: string, repository: string) returns (ok: bool)
      modifies this
      ensures var call := Approve(pr, organization, repository);
              trace == old(trace) + [call] && ok == !service.fails(|old(trace)|, call)
    {
      var call := Approve(pr, organization, repository);
      ok := !service.fails(|trace|, call);
      trace := trace + [call];
    }

    /** `markAutoMergeOnPullRequest`: whether the request succeeded. */
    method MarkAutoMerge(pr: PullRequest, organization: string, repository: string) returns (ok: bool)
      modifies this
      ensures var call := EnableAutoMerge(pr, organization, repository);
              trace == old(trace) + [call] && ok == !service.fails(|old(trace)|, call)
    {
      var call := EnableAutoMerge(pr, organization, repository);
      ok := !service.fails(|trace|, call);
      trace := trace + [call];
    }
  }

  /** The requests `mergePullRequest` makes for `pr` when its first request is
      the `n`-th call of the run: ask whether it is approved; approve it when
      the answer is no; then ask for auto-merge. A failing request ends the
      sequence (the source catches and logs it). */
  function MergeSteps(service: Service, n: nat, pr: PullRequest, organization: string, repository: string): (calls: seq<Call>)
    ensures 1 <= |calls| <= 3 && calls[0] == IsApproved(pr, organization, repository)
  {
    var query := IsApproved(pr, organization, repository);
    var approve := Approve(pr, organization, repository);
    var merge := EnableAutoMerge(pr, organization, repository);
    if service.fails(n, query) then [query]
    else if service.approved(n, query) then [query, merge]
    else if service.fails(n + 1, approve) then [query, approve]
    else [query, approve, merge]
  }

  /** The executor's protocol: every request concerns `pr`; it approves
      exactly when the query succeeded and said "not approved"; it requests
      auto-merge exactly when neither the query nor a needed approval failed,
      and that request comes last. */
  lemma {:induction false} MergeStepsProtocol(service: Service, n: nat, pr: PullRequest, organization: string, repository: string)
    ensures var calls := MergeSteps(service, n, pr, organization, repository);
            forall i :: 0 <= i < |calls| ==> !calls[i].ListPullRequests? && calls[i].pr == pr
    ensures var calls := MergeSteps(service, n, pr, organization, repository);
            var query := IsApproved(pr, organization, repository);
            Approve(pr, organization, repository) in calls <==>
            !service.fails(n, query) && !service.approved(n, query)
    ensures var calls := MergeSteps(service, n, pr, organization, repository);
            var query := IsApproved(pr, organization, repository);
            EnableAutoMerge(pr, organization, repository) in calls <==>
            !service.fails(n, query) &&
            (service.approved(n, query) || !service.fails(n + 1, Approve(pr, organization, repository)))
    ensures var calls := MergeSteps(service, n, pr, organization, repository);
            EnableAutoMerge(pr, organization, repository) in calls ==>
            calls[|calls| - 1] == EnableAutoMerge(pr, organization, repository)
  {
  }

  /** `mergePullRequest`. */
  method MergePullRequest(gh: GitHub, pr: PullRequest, organization: string, repository: string)
    modifies gh
    ensures gh.trace == old(gh.trace) + MergeSteps(gh.service, |old(gh.trace)|, pr, organization, repository)
  {
    var approved := gh.IsPullRequestApproved(pr, organization, repository);
    if approved.None? {
      return;
    }
    if !approved.value {
      var ok := gh.ApprovePullRequest(pr, organization, repository);
      if !ok {
        return;
      }
    }
    var _ := gh.MarkAutoMerge(pr, organization, repository);
  }

  /** The requests made for one pull request, given the position in the
      run of its first request. */
  type Step = (nat, PullRequest) -> seq<Call>

  /** The requests of running `step` on each of `prs` in turn, the first
      request being the `n`-th call of the run. */
  function RunEach(step: Step, n: nat, prs: seq<PullRequest>): (calls: seq<Call>)
    decreases prs
  {
    if prs == [] then []
    else
      var before := RunEach(step, n, prs[..|prs| - 1]);
      before + step(n + |before|, prs[|prs| - 1])
  }

  /** Running over `prs + [pr]` is running over `prs`, then `step` on `pr`. */
  lemma {:induction false} RunEachSnoc(step: Step, n: nat, prs: seq<PullRequest>, pr: PullRequest)
    ensures var before := RunEach(step, n, prs);
            RunEach(step, n, prs + [pr]) == before + step(n + |before|, pr)
  {
    assert (prs + [pr])[..|prs|] == prs;
  }

  /** `mergePullRequest` as a step. */
  function Executor(service: Service, organization: string, repository: string): Step {
    (k: nat, pr: PullRequest) => MergeSteps(service, k, pr, organization, repository)
  }

  /** The requests of the merge pass over `prs`, its first request being the
      `n`-th call of the run. */
  function MergePass(service: Service, n: nat, prs: seq<PullRequest>, organization: string, repository: string): seq<Call> {
    RunEach(Executor(service, organization, repository), n, prs)
  }

  /** The merge pass over `prs + [pr]` is the pass over `prs`, then the
      executor on `pr`. */
  lemma {:induction false} MergePassSnoc(service: Service, n: nat, prs: seq<PullRequest>, pr: PullRequest, organization: string, repository: string)
    ensures var before := MergePass(service, n, prs, organization, repository);
            MergePass(service, n, prs + [pr], organization, repository) ==
            before + MergeSteps(service, n + |before|, pr, organization, repository)
  {
    RunEachSnoc(Executor(service, organization, repository), n, prs, pr);
  }

  /** The pull requests whose approval state was queried, in request order. */
  function Attempted(calls: seq<Call>): (prs: seq<PullRequest>)
    ensures |prs| <= |calls|
  {
    if calls == [] then []
    else (if calls[0].IsApproved? then [calls[0].pr] else []) + Attempted(calls[1..])
  }

  lemma {:induction false} AttemptedAppend(a: seq<Call>, b: seq<Call>)
    ensures Attempted(a + b) == Attempted(a) + Attempted(b)
  {
    if a == [] {
      assert a + b == b;
    } else {
      var head := if a[0].IsApproved? then [a[0].pr] else [];
      assert (a + b)[0] == a[0];
      assert (a + b)[1..] == a[1..] + b;
      AttemptedAppend(a[1..], b);
      calc {
        Attempted(a + b);
        head + Attempted(a[1..] + b);
        head + (Attempted(a[1..]) + Attempted(b));
        (head + Attempted(a[1..])) + Attempted(b);
      }
    }
  }

  /** Each merge sequence starts with the one approval query of its pull request. */
  lemma {:induction false} AttemptedSteps(service: Service, n: nat, pr: PullRequest, organization: string, repository: string)
    ensures Attempted(MergeSteps(service, n, pr, organization, repository)) == [pr]
  {
    var calls := MergeSteps(service, n, pr, organization, repository);
    var merge := EnableAutoMerge(pr, organization, repository);
    assert Attempted([merge]) == [];
    if |calls| == 3 {
      assert calls[1..] == [Approve(pr, organization, repository), merge];
      assert calls[1..][1..] == [merge];
    } else if |calls| == 2 {
      assert calls[1..] == [calls[1]];
      assert Attempted(calls[1..]) == [];
    }
  }

  /** When every step queries exactly its own pull request, running the
      steps queries exactly `prs`, in order. */
  lemma {:induction false} RunEachAttempted(step: Step, n: nat, prs: seq<PullRequest>)
    requires forall k: nat, pr: PullRequest :: Attempted(step(k, pr)) == [pr]
    ensures Attempted(RunEach(step, n, prs)) == prs
    decreases prs
  {
    if prs != [] {
      var init, last := prs[..|prs| - 1], prs[|prs| - 1];
      var before := RunEach(step, n, init);
      assert RunEach(step, n, prs) == before + step(n + |before|, last);
      AttemptedAppend(before, step(n + |before|, last));
      RunEachAttempted(step, n, init);
      assert Attempted(step(n + |before|, last)) == [last];
      assert prs == init + [last];
    }
  }

  /** Every pull request handed to the merge pass is attempted, in order,
      whatever the earlier ones ran into: a failure for one pull request
      never stops the later ones. */
  lemma {:induction false} MergePassAttemptsAll(service: Service, n: nat, prs: seq<PullRequest>, organization: string, repository: string)
    ensures Attempted(MergePass(service, n, prs, organization, repository)) == prs
  {
    var step := Executor(service, organization, repository);
    forall k: nat, pr: PullRequest
      ensures Attempted(step(k, pr)) == [pr]
    {
      AttemptedSteps(service, k, pr, organization, repository);
    }
    RunEachAttempted(step, n, prs);
  }

  /** The filter pass of `mergePullRequestsInRepository`: check each
      fetched pull request in turn and keep the approvable ones. */
  method FilterApprovable(prs: seq<PullRequest>, now: int, fallback: Fallback) returns (approvable: seq<PullRequest>)
    ensures approvable == Approvable(prs, now, fallback)
  {
    approvable := [];
    for i := 0 to |prs|
      invariant approvable == Approvable(prs[..i], now, fallback)
    {
      var checked := CheckPullRequestApprovable(prs[i], now, fallback);
      assert prs[..i + 1] == prs[..i] + [prs[i]];
      ApprovableAppend(prs[..i], [prs[i]], now, fallback);
      ApprovableSingle(prs[i], now, fallback);
      if checked.Some? {
        approvable := approvable + [checked.value];
      }
    }
    assert prs[..|prs|] == prs;
  }

  /** The merge pass of `mergePullRequestsInRepository`: run the executor on
      each approvable pull request in turn. */
  method MergeEach(gh: GitHub, prs: seq<PullRequest>, organization: string, repository: string)
    modifies gh
    ensures gh.trace == old(gh.trace) + MergePass(gh.service, |old(gh.trace)|, prs, organization, repository)
  {
    ghost var start := gh.trace;
    for i := 0 to |prs|
      invariant gh.trace == start + MergePass(gh.service, |start|, prs[..i], organization, repository)
    {
      MergePassSnoc(gh.service, |start|, prs[..i], prs[i], organization, repository);
      assert prs[..i + 1] == prs[..i] + [prs[i]];
      MergePullRequest(gh, prs[i], organization, repository);
    }
    assert prs[..|prs|] == prs;
  }

  /** `mergePullRequestsInRepository`: list the open pull requests, filter
      them, then merge the approvable ones. Returns `false` when the listing
      fails (the source's promise rejects), after which nothing else is
      requested. */
  method MergePullRequestsInRepository(gh: GitHub, organization: string, repository: string, now: int, fallback: Fallback)
    returns (listed: bool)
    modifies gh
    ensures var n := |old(gh.trace)|;
            var listing := ListPullRequests(organization, repository);
            if gh.service.fails(n, listing) then
              !listed && gh.trace == old(gh.trace) + [listing]
            else
              listed &&
              gh.trace == old(gh.trace) + [listing] +
                MergePass(gh.service, n + 1, Approvable(gh.service.listing(n, listing), now, fallback), organization, repository)
    ensures listed ==>
              Attempted(gh.trace[|old(gh.trace)| + 1..]) ==
              Approvable(gh.service.listing(|old(gh.trace)|, ListPullRequests(organization, repository)), now, fallback)
  {
    var fetched := gh.GetPullRequests(organization, repository);
    if fetched.None? {
      return false;
    }
    var approvable := FilterApprovable(fetched.value, now, fallback);
    ghost var start := gh.trace;
    MergeEach(gh, approvable, organization, repository);
    MergePassAttemptsAll(gh.service, |start|, approvable, organization, repository);
    assert gh.trace[|start|..] == MergePass(gh.service, |start|, approvable, organization, repository);
    listed := true;
  }
}
