/** Submission admission (`post_job` in `handler/jobs.rs`): the checks a new job must
    pass before it is handed to the runner, evaluated in a fixed order with the first
    failing check deciding the response. */
module Admission {
  import opened Errors
  import opened Timestamps
  import Users

  /** The configured languages and problems; only membership is ever asked of them. */
  datatype Catalog = Catalog(languages: set<string>, problemIds: set<nat>)

  /** A contest as stored. Id 0 is the practice pseudo-contest; `from`/`to` are timestamps
      compared lexically; a `submissionLimit` of 0 means unlimited. */
  datatype Contest = Contest(
    id: nat, name: string, from: string, to: string,
    problemIds: seq<nat>, userIds: seq<nat>, submissionLimit: nat)

  /** The body of `POST /jobs`. */
  datatype JobRequest = JobRequest(
    sourceCode: string, language: string, userId: nat, contestId: nat, problemId: nat)

  /** What the rate-limit count reads of an earlier submission. */
  datatype Submission = Submission(userId: nat, problemId: nat, contestId: nat)

  /** Which check refused a request; it decides the error kind of the response. */
  datatype Reason =
    | UnknownLanguage | UnknownProblem | UnknownUser | UnknownContest
    | UserNotInContest | ProblemNotInContest
    | TooManySubmissions | NotStarted | AlreadyFinished
  {
    function Kind(): ErrorKind {
      match this
      case UnknownLanguage | UnknownProblem | UnknownUser | UnknownContest => NotFound
      case TooManySubmissions => RateLimit
      case UserNotInContest | ProblemNotInContest | NotStarted | AlreadyFinished => InvalidArgument
    }
  }

  datatype Decision = Admitted | Rejected(reason: Reason)

  /** Everything admission reads: catalog, users, contests and the earlier submissions. */
  datatype Judge = Judge(
    catalog: Catalog, users: Users.UserStore, contests: map<nat, Contest>, history: seq<Submission>)

  /** The number of earlier submissions with this user, problem and contest. */
  function CountPrior(history: seq<Submission>, userId: nat, problemId: nat, contestId: nat): (n: nat)
    ensures n <= |history|
    ensures Submission(userId, problemId, contestId) !in history ==> n == 0
  {
    if |history| == 0 then 0
    else
      (if history[0] == Submission(userId, problemId, contestId) then 1 else 0)
      + CountPrior(history[1..], userId, problemId, contestId)
  }

  /** Recording one more submission raises its own triple's count by one and no other. */
  lemma {:induction false} CountPriorAppend(history: seq<Submission>, s: Submission, userId: nat, problemId: nat, contestId: nat)
    ensures CountPrior(history + [s], userId, problemId, contestId)
         == CountPrior(history, userId, problemId, contestId) + (if s == Submission(userId, problemId, contestId) then 1 else 0)
    decreases |history|
  {
    if |history| > 0 {
      assert (history + [s])[1..] == history[1..] + [s];
      CountPriorAppend(history[1..], s, userId, problemId, contestId);
    } else {
      assert history + [s] == [s];
    }
  }

  /** The contest-specific checks, once the contest is known to exist. The time window is
      only looked at when the contest has a submission limit, and only after the count. */
  function ContestAdmission(c: Contest, history: seq<Submission>, req: JobRequest, now: string): (d: Decision)
    ensures d.Admitted? <==> ContestPermits(c, history, req, now)
    ensures req.userId !in c.userIds ==> d == Rejected(UserNotInContest)
    ensures c.submissionLimit == 0 && req.userId in c.userIds && req.problemId in c.problemIds ==> d.Admitted?
    ensures d == Rejected(TooManySubmissions) ==>
      c.submissionLimit != 0 && CountPrior(history, req.userId, req.problemId, req.contestId) >= c.submissionLimit
    ensures d == Rejected(NotStarted) || d == Rejected(AlreadyFinished) ==>
      c.submissionLimit != 0 && CountPrior(history, req.userId, req.problemId, req.contestId) < c.submissionLimit
  {
    if req.userId !in c.userIds then Rejected(UserNotInContest)
    else if req.problemId !in c.problemIds then Rejected(ProblemNotInContest)
    else if c.submissionLimit != 0 then
      if CountPrior(history, req.userId, req.problemId, req.contestId) >= c.submissionLimit then Rejected(TooManySubmissions)
      else if LexLess(now, c.from) then Rejected(NotStarted)
      else if LexLess(c.to, now) then Rejected(AlreadyFinished)
      else Admitted
    else Admitted
  }

  /** Declaratively, what a contest demands of an admitted submission: the user and the
      problem belong to it and, when it limits submissions, the user is under the limit
      for this problem and `from <= now <= to` (inclusive, lexically). */
  ghost predicate ContestPermits(c: Contest, history: seq<Submission>, req: JobRequest, now: string) {
    && req.userId in c.userIds
    && req.problemId in c.problemIds
    && (c.submissionLimit != 0 ==>
          && CountPrior(history, req.userId, req.problemId, req.contestId) < c.submissionLimit
          && LexLe(c.from, now)
          && LexLe(now, c.to))
  }

  /** Declaratively, when a request is admitted: the language, problem and user exist and,
      unless the request is for practice (contest 0), the contest exists and permits it. */
  ghost predicate Admissible(j: Judge, req: JobRequest, now: string) {
    && req.language in j.catalog.languages
    && req.problemId in j.catalog.problemIds
    && req.userId in j.users.users
    && (req.contestId != 0 ==>
          req.contestId in j.contests && ContestPermits(j.contests[req.contestId], j.history, req, now))
  }

  /** `post_job`'s checks in source order: language, problem, user, contest existence, then
      the contest checks. `now` stands for the handler's call to the clock. */
  function Admit(j: Judge, req: JobRequest, now: string): (d: Decision)
    ensures d.Admitted? <==> Admissible(j, req, now)
    ensures req.language !in j.catalog.languages ==> d == Rejected(UnknownLanguage)
    ensures d.Rejected? && d.reason.Kind() == NotFound <==>
      || req.language !in j.catalog.languages
      || req.problemId !in j.catalog.problemIds
      || req.userId !in j.users.users
      || (req.contestId != 0 && req.contestId !in j.contests)
    ensures req.contestId == 0 ==>
      (d.Admitted? <==> req.language in j.catalog.languages && req.problemId in j.catalog.problemIds && req.userId in j.users.users)
  {
    if req.language !in j.catalog.languages then Rejected(UnknownLanguage)
    else if req.problemId !in j.catalog.problemIds then Rejected(UnknownProblem)
    else if Users.GetUser(j.users, req.userId).Err? then Rejected(UnknownUser)
    else if req.contestId != 0 && req.contestId !in j.contests then Rejected(UnknownContest)
    else if req.contestId != 0 then ContestAdmission(j.contests[req.contestId], j.history, req, now)
    else Admitted
  }

  // ---------------------------------------------------------------------------
  // Reference definition: the admission rules as an ordered table, first failure wins.

  /** One admission rule: whether it holds, and the refusal if it does not. */
  datatype Check = Check(holds: bool, onFailure: Reason)

  /** The verdict of an ordered table of rules: the first rule that fails decides. */
  function FirstFailure(checks: seq<Check>): (d: Decision)
    ensures d.Admitted? <==> forall i :: 0 <= i < |checks| ==> checks[i].holds
    ensures d.Rejected? ==> exists i :: 0 <= i < |checks| && !checks[i].holds && checks[i].onFailure == d.reason
  {
    if |checks| == 0 then Admitted
    else if !checks[0].holds then Rejected(checks[0].onFailure)
    else FirstFailure(checks[1..])
  }

  /** Stands in for the contest in rules that the contest-existence rule has already decided. */
  const NoContest: Contest := Contest(0, "", "", "", [], [], 0)

  /** The admission rules in the order the handler applies them. Rules about a contest only
      constrain requests for an existing non-practice contest; the count and the time
      window only constrain contests with a submission limit. */
  function AdmissionChecks(j: Judge, req: JobRequest, now: string): (checks: seq<Check>)
    ensures |checks| == 9
  {
    var inContest := req.contestId != 0 && req.contestId in j.contests;
    var c := if inContest then j.contests[req.contestId] else NoContest;
    var limited := inContest && c.submissionLimit != 0;
    [ Check(req.language in j.catalog.languages, UnknownLanguage),
      Check(req.problemId in j.catalog.problemIds, UnknownProblem),
      Check(req.userId in j.users.users, UnknownUser),
      Check(req.contestId == 0 || req.contestId in j.contests, UnknownContest),
      Check(!inContest || req.userId in c.userIds, UserNotInContest),
      Check(!inContest || req.problemId in c.problemIds, ProblemNotInContest),
      Check(!limited || CountPrior(j.history, req.userId, req.problemId, req.contestId) < c.submissionLimit, TooManySubmissions),
      Check(!limited || !LexLess(now, c.from), NotStarted),
      Check(!limited || !LexLess(c.to, now), AlreadyFinished) ]
  }

  /** Rules that hold can be skipped: the verdict is decided by what follows them. */
  lemma {:induction false} FirstFailureSkipsPassing(checks: seq<Check>, k: nat)
    requires k <= |checks|
    requires forall i :: 0 <= i < k ==> checks[i].holds
    ensures FirstFailure(checks) == FirstFailure(checks[k..])
    decreases k
  {
    if k > 0 {
      assert checks[1..][k - 1..] == checks[k..];
      FirstFailureSkipsPassing(checks[1..], k - 1);
    }
  }

  /** The position of the first rule that fails, or the table's length if all hold. */
  function FirstFailingIndex(checks: seq<Check>): (k: nat)
    ensures k <= |checks|
    ensures forall i :: 0 <= i < k ==> checks[i].holds
    ensures k < |checks| ==> !checks[k].holds
  {
    if |checks| == 0 || !checks[0].holds then 0
    else 1 + FirstFailingIndex(checks[1..])
  }

  /** The table's verdict is decided by its first failing rule. */
  lemma FirstFailureAtIndex(checks: seq<Check>)
    ensures var k := FirstFailingIndex(checks);
            FirstFailure(checks) == if k == |checks| then Admitted else Rejected(checks[k].onFailure)
  {
    var k := FirstFailingIndex(checks);
    FirstFailureSkipsPassing(checks, k);
  }

  /** The handler's nested checks return exactly the first failing rule of the table. */
  lemma AdmitFollowsCheckOrder(j: Judge, req: JobRequest, now: string)
    ensures Admit(j, req, now) == FirstFailure(AdmissionChecks(j, req, now))
  {
    var checks := AdmissionChecks(j, req, now);
    FirstFailureAtIndex(checks);
    var k := if req.language !in j.catalog.languages then 0
      else if req.problemId !in j.catalog.problemIds then 1
      else if req.userId !in j.users.users then 2
      else if req.contestId == 0 then 9
      else if req.contestId !in j.contests then 3
      else
        var c := j.contests[req.contestId];
        if req.userId !in c.userIds then 4
        else if req.problemId !in c.problemIds then 5
        else if c.submissionLimit == 0 then 9
        else if CountPrior(j.history, req.userId, req.problemId, req.contestId) >= c.submissionLimit then 6
        else if LexLess(now, c.from) then 7
        else if LexLess(c.to, now) then 8
        else 9;
    FirstFailingIndexIs(checks, k);
  }

  /** A position before which every rule holds and at which one fails is the first failure. */
  lemma {:induction false} FirstFailingIndexIs(checks: seq<Check>, k: nat)
    requires k <= |checks|
    requires forall i :: 0 <= i < k ==> checks[i].holds
    requires k < |checks| ==> !checks[k].holds
    ensures FirstFailingIndex(checks) == k
    decreases k
  {
    if k > 0 {
      FirstFailingIndexIs(checks[1..], k - 1);
    }
  }

  // ---------------------------------------------------------------------------
  // Admission over time: each admitted job becomes a submission the count sees.

  /** `post_job` as a transition: an admitted request is recorded (by the runner, whose
      persistence is abstracted to this one record); a refused one changes nothing. */
  function Submit(j: Judge, req: JobRequest, now: string): (out: (Decision, Judge))
    ensures out.0 == Admit(j, req, now)
    ensures out.0.Rejected? ==> out.1 == j
    ensures out.0.Admitted? ==>
      out.1 == j.(history := j.history + [Submission(req.userId, req.problemId, req.contestId)])
  {
    var d := Admit(j, req, now);
    if d.Admitted? then (d, j.(history := j.history + [Submission(req.userId, req.problemId, req.contestId)]))
    else (d, j)
  }

  /** The same request submitted `n` times in a row at the same instant. */
  function SubmitRepeatedly(j: Judge, req: JobRequest, now: string, n: nat): (out: (seq<Decision>, Judge))
    ensures |out.0| == n
    ensures out.1.contests == j.contests && out.1.users == j.users && out.1.catalog == j.catalog
    decreases n
  {
    if n == 0 then ([], j)
    else
      var (d, j1) := Submit(j, req, now);
      var (ds, j2) := SubmitRepeatedly(j1, req, now, n - 1);
      ([d] + ds, j2)
  }

  /** A request that passes every check except possibly the submission count: everything
      exists, the contest is a real one with a limit, and `now` is inside its window. */
  ghost predicate LimitedAndInWindow(j: Judge, req: JobRequest, now: string) {
    && req.language in j.catalog.languages
    && req.problemId in j.catalog.problemIds
    && req.userId in j.users.users
    && req.contestId != 0
    && req.contestId in j.contests
    && var c := j.contests[req.contestId];
       && req.userId in c.userIds
       && req.problemId in c.problemIds
       && c.submissionLimit != 0
       && LexLe(c.from, now) && LexLe(now, c.to)
  }

  /** With a submission limit L and p earlier submissions, repeated submissions are admitted
      while fewer than L have been made and refused with `RateLimit` from then on. */
  lemma {:induction false} RateLimitEnforced(j: Judge, req: JobRequest, now: string, n: nat)
    requires LimitedAndInWindow(j, req, now)
    ensures var limit := j.contests[req.contestId].submissionLimit;
            var prior := CountPrior(j.history, req.userId, req.problemId, req.contestId);
            forall i :: 0 <= i < n ==>
              SubmitRepeatedly(j, req, now, n).0[i] == (if prior + i < limit then Admitted else Rejected(TooManySubmissions))
    decreases n
  {
    if n > 0 {
      var c := j.contests[req.contestId];
      var prior := CountPrior(j.history, req.userId, req.problemId, req.contestId);
      var (d, j1) := Submit(j, req, now);
      RateLimitEnforced(j1, req, now, n - 1);
      if d.Admitted? {
        CountPriorAppend(j.history, Submission(req.userId, req.problemId, req.contestId), req.userId, req.problemId, req.contestId);
        assert CountPrior(j1.history, req.userId, req.problemId, req.contestId) == prior + 1;
      }
    }
  }

  /** With a limit of 2 and no earlier submissions, the first two identical submissions are
      admitted and the third is refused with `RateLimit`. */
  lemma ThirdSubmissionOverLimitTwo(j: Judge, req: JobRequest, now: string)
    requires LimitedAndInWindow(j, req, now)
    requires j.contests[req.contestId].submissionLimit == 2
    requires CountPrior(j.history, req.userId, req.problemId, req.contestId) == 0
    ensures SubmitRepeatedly(j, req, now, 3).0 == [Admitted, Admitted, Rejected(TooManySubmissions)]
  {
    RateLimitEnforced(j, req, now, 3);
  }

  /** Admission to a limited contest implies `from <= now <= to`, and on well-formed
      timestamps this is chronological: the window is inclusive at both ends. */
  lemma AdmittedWithinWindow(j: Judge, req: JobRequest, now: string)
    requires Admit(j, req, now).Admitted?
    requires req.contestId != 0
    ensures req.contestId in j.contests
    ensures var c := j.contests[req.contestId];
            c.submissionLimit != 0 && IsTimestamp(c.from) && IsTimestamp(c.to) && IsTimestamp(now) ==>
              Instant(c.from) <= Instant(now) <= Instant(c.to)
  {
    var c := j.contests[req.contestId];
    if c.submissionLimit != 0 && IsTimestamp(c.from) && IsTimestamp(c.to) && IsTimestamp(now) {
      TimestampOrder(c.from, now);
      TimestampOrder(now, c.to);
    }
  }

  /** Practice submissions (contest 0) depend on nothing contest-related: neither the
      contests, nor earlier submissions, nor the clock. */
  lemma PracticeIgnoresContests(j: Judge, j': Judge, req: JobRequest, now: string, now': string)
    requires req.contestId == 0
    requires j.catalog == j'.catalog && j.users == j'.users
    ensures Admit(j, req, now) == Admit(j', req, now')
  {
  }
}
