/** The remaining request-level decisions of `handler/jobs.rs`: numeric path ids, the
    rejudge guard, the job-list time-bound policy, ranklist option defaulting, contest
    posting validation and the `POST /users` dispatch. */
module Handlers {
  import opened Errors
  import opened Digits
  import opened Timestamps
  import Users
  import Admission

  // ---------------------------------------------------------------------------
  // Numeric path segments: `/jobs/{jobid}`, `/contests/{contestid}`.

  /** A path id is parsed as a `u32`; a segment that does not parse gives `NotFound`. */
  function ParsePathId(path: string): (r: Result<nat>)
    ensures r.Err? <==> ParseU32(path).None?
    ensures r.Err? ==> r.kind == NotFound
    ensures r.Ok? ==> r.value < U32_LIMIT && ParseU32(path) == Some(r.value)
  {
    match ParseU32(path)
    case None => Err(NotFound)
    case Some(id) => Ok(id)
  }

  /** Every `u32` id, written in decimal, is found again from its path segment. */
  lemma PathIdRoundTrip(n: nat)
    requires n < U32_LIMIT
    ensures ParsePathId(ToDecimal(n)) == Ok(n)
  {
    ParseToDecimal(n);
  }

  /** `rejudge_job_by_id`'s guard: the job to reset, or `NotFound` when the segment is not a
      number or names an id the job counter `jobsId` has not issued yet. Only an `Ok`
      leads to a reset. */
  function RejudgeGuard(path: string, jobsId: nat): (r: Result<nat>)
    ensures r.Err? <==> ParseU32(path).None? || ParseU32(path).value >= jobsId
    ensures r.Err? ==> r.kind == NotFound
    ensures r.Ok? ==> r.value < jobsId && ParseU32(path) == Some(r.value)
  {
    match ParsePathId(path)
    case Err(e) => Err(e)
    case Ok(id) => if id >= jobsId then Err(NotFound) else Ok(id)
  }

  /** Every issued job id can be rejudged by its decimal path, and no unissued one can. */
  lemma RejudgeAcceptsExactlyIssued(n: nat, jobsId: nat)
    requires n < U32_LIMIT && jobsId <= U32_LIMIT
    ensures RejudgeGuard(ToDecimal(n), jobsId) == if n < jobsId then Ok(n) else Err(NotFound)
  {
    ParseToDecimal(n);
  }

  // ---------------------------------------------------------------------------
  // `GET /jobs`: malformed time bounds match nothing.

  /** The query of `GET /jobs`; every field is optional. */
  datatype JobsFilter = JobsFilter(
    userId: Option<nat>, userName: Option<string>, contestId: Option<nat>,
    problemId: Option<nat>, language: Option<string>,
    from: Option<string>, to: Option<string>,
    state: Option<string>, result: Option<string>)

  /** Either the empty list straight away, or a lookup with the filter as given. */
  datatype JobsListing = EmptyListing | Lookup(filter: JobsFilter)

  /** A present bound must be a well-formed timestamp. */
  predicate BoundOk(bound: Option<string>) {
    bound.None? || IsTimestamp(bound.value)
  }

  /** `get_jobs`: a `from` or `to` that is not a well-formed timestamp yields the empty
      list (never an error) before any lookup; otherwise the filter is looked up unchanged. */
  function ListJobs(filter: JobsFilter): (r: JobsListing)
    ensures r.Lookup? <==> BoundOk(filter.from) && BoundOk(filter.to)
    ensures r.Lookup? ==> r.filter == filter
  {
    if filter.from.Some? && !IsTimestamp(filter.from.value) then EmptyListing
    else if filter.to.Some? && !IsTimestamp(filter.to.value) then EmptyListing
    else Lookup(filter)
  }

  /** Whatever reaches the lookup has bounds that denote instants, so if the lookup
      compares lexically, its comparisons against them are chronological. */
  lemma LookupBoundsAreInstants(filter: JobsFilter, t: string)
    requires ListJobs(filter).Lookup? && IsTimestamp(t)
    ensures filter.from.Some? ==> (LexLe(filter.from.value, t) <==> Instant(filter.from.value) <= Instant(t))
    ensures filter.to.Some? ==> (LexLe(t, filter.to.value) <==> Instant(t) <= Instant(filter.to.value))
  {
    if filter.from.Some? {
      TimestampOrder(filter.from.value, t);
    }
    if filter.to.Some? {
      TimestampOrder(t, filter.to.value);
    }
  }

  // ---------------------------------------------------------------------------
  // `GET /contests/{id}/ranklist`: option parsing and defaults.

  datatype ScoringRule = Latest | Highest
  datatype TieBreaker = SubmissionTime | SubmissionCount | UserIdOrder | NoTieBreak
  datatype RankFilter = RankFilter(scoringRule: ScoringRule, tieBreaker: TieBreaker)

  /** The defaults when a parameter is absent: `highest` and `none`. */
  const DefaultRankFilter: RankFilter := RankFilter(Highest, NoTieBreak)

  /** The query-string spelling of each scoring rule. */
  function ScoringRuleName(rule: ScoringRule): (name: string)
    ensures ParseScoringRule(name) == Some(rule)
  {
    match rule
    case Latest => "latest"
    case Highest => "highest"
  }

  function ParseScoringRule(s: string): Option<ScoringRule> {
    if s == "latest" then Some(Latest)
    else if s == "highest" then Some(Highest)
    else None
  }

  /** The query-string spelling of each tie-breaker. */
  function TieBreakerName(tb: TieBreaker): (name: string)
    ensures ParseTieBreaker(name) == Some(tb)
  {
    match tb
    case SubmissionTime => "submission_time"
    case SubmissionCount => "submission_count"
    case UserIdOrder => "user_id"
    case NoTieBreak => "none"
  }

  function ParseTieBreaker(s: string): Option<TieBreaker> {
    if s == "submission_time" then Some(SubmissionTime)
    else if s == "submission_count" then Some(SubmissionCount)
    else if s == "user_id" then Some(UserIdOrder)
    else if s == "none" then Some(NoTieBreak)
    else None
  }

  /** Only the exact spellings of the options are recognised. */
  lemma ParseOptionsInvertNames(s: string)
    ensures ParseScoringRule(s).Some? ==> ScoringRuleName(ParseScoringRule(s).value) == s
    ensures ParseTieBreaker(s).Some? ==> TieBreakerName(ParseTieBreaker(s).value) == s
  {
  }

  /** Every option that is present is one of the recognised spellings. */
  predicate OptionsRecognised(scoringRule: Option<string>, tieBreaker: Option<string>) {
    && (scoringRule.None? || ParseScoringRule(scoringRule.value).Some?)
    && (tieBreaker.None? || ParseTieBreaker(tieBreaker.value).Some?)
  }

  /** `get_ranklist` before the ranking itself: the contest id from the path (`NotFound` if
      it does not parse), then the options, where an absent option keeps its default and a
      present but unknown one makes the query invalid (`InvalidArgument`). */
  function RanklistRequest(path: string, scoringRule: Option<string>, tieBreaker: Option<string>)
    : (r: Result<(nat, RankFilter)>)
    ensures ParseU32(path).None? ==> r == Err(NotFound)
    ensures r.Ok? ==> ParseU32(path) == Some(r.value.0)
    ensures r.Ok? && scoringRule.None? ==> r.value.1.scoringRule == DefaultRankFilter.scoringRule
    ensures r.Ok? && tieBreaker.None? ==> r.value.1.tieBreaker == DefaultRankFilter.tieBreaker
    ensures r.Ok? && scoringRule.Some? ==> ScoringRuleName(r.value.1.scoringRule) == scoringRule.value
    ensures r.Ok? && tieBreaker.Some? ==> TieBreakerName(r.value.1.tieBreaker) == tieBreaker.value
    ensures ParseU32(path).Some? && !OptionsRecognised(scoringRule, tieBreaker) ==> r == Err(InvalidArgument)
    ensures r.Err? && ParseU32(path).Some? ==>
      r.kind == InvalidArgument && !OptionsRecognised(scoringRule, tieBreaker)
  {
    match ParsePathId(path)
    case Err(e) => Err(e)
    case Ok(contestId) =>
      var sr := if scoringRule.Some? then ParseScoringRule(scoringRule.value) else Some(DefaultRankFilter.scoringRule);
      var tb := if tieBreaker.Some? then ParseTieBreaker(tieBreaker.value) else Some(DefaultRankFilter.tieBreaker);
      if sr.None? || tb.None? then Err(InvalidArgument)
      else Ok((contestId, RankFilter(sr.value, tb.value)))
  }

  /** Every option a client can name is accepted and kept, for every contest id. */
  lemma RanklistOptionsRoundTrip(id: nat, rule: ScoringRule, tb: TieBreaker)
    requires id < U32_LIMIT
    ensures RanklistRequest(ToDecimal(id), Some(ScoringRuleName(rule)), Some(TieBreakerName(tb)))
         == Ok((id, RankFilter(rule, tb)))
    ensures RanklistRequest(ToDecimal(id), None, None) == Ok((id, DefaultRankFilter))
  {
    ParseToDecimal(id);
  }

  // ---------------------------------------------------------------------------
  // `POST /contests`: validation before the contest is created or updated.

  /** The body of `POST /contests`; an absent `id` asks for a new contest. */
  datatype ContestBody = ContestBody(
    id: Option<nat>, name: string, from: string, to: string,
    problemIds: seq<nat>, userIds: seq<nat>, submissionLimit: nat)

  datatype ContestAction = CreateContest | UpdateContest(id: nat)

  datatype ContestReason = MissingProblem(problemId: nat) | MissingUser(userId: nat) | ContestZeroImmutable
  {
    function Kind(): ErrorKind {
      match this
      case MissingProblem(_) | MissingUser(_) => NotFound
      case ContestZeroImmutable => InvalidArgument
    }
  }

  datatype ContestDecision = Proceed(action: ContestAction) | Refuse(reason: ContestReason)

  /** The first element of `xs` that is not in `known`, scanning from the front. */
  function FirstMissing(xs: seq<nat>, known: set<nat>): (r: Option<nat>)
    ensures r.None? <==> forall i :: 0 <= i < |xs| ==> xs[i] in known
    ensures r.Some? ==> exists i :: 0 <= i < |xs| && xs[i] == r.value && r.value !in known &&
                                    forall k :: 0 <= k < i ==> xs[k] in known
  {
    if |xs| == 0 then None
    else if xs[0] !in known then Some(xs[0])
    else
      var rest := FirstMissing(xs[1..], known);
      if rest.Some? then
        assert exists i :: 0 <= i < |xs| - 1 && xs[1..][i] == rest.value && rest.value !in known &&
                           forall k :: 0 <= k < i ==> xs[1..][k] in known;
        var i :| 0 <= i < |xs| - 1 && xs[1..][i] == rest.value && rest.value !in known &&
                 forall k :: 0 <= k < i ==> xs[1..][k] in known;
        assert xs[i + 1] == rest.value;
        assert forall k :: 0 <= k < i + 1 ==> xs[k] in known by {
          forall k | 0 <= k < i + 1 ensures xs[k] in known {
            if k > 0 {
              assert xs[k] == xs[1..][k - 1];
            }
          }
        }
        rest
      else rest
  }

  /** `post_contest`'s checks, in order: every problem id is configured, then every user id
      names a user, then an update may not target contest 0. What follows (creating or
      updating the stored contest) belongs to the contests module, which is not modelled. */
  function ValidateContest(catalog: Admission.Catalog, users: Users.UserStore, body: ContestBody)
    : (d: ContestDecision)
    ensures d.Proceed? <==>
      && (forall i :: 0 <= i < |body.problemIds| ==> body.problemIds[i] in catalog.problemIds)
      && (forall i :: 0 <= i < |body.userIds| ==> body.userIds[i] in users.users)
      && body.id != Some(0)
    ensures d.Proceed? ==> d.action == if body.id.None? then CreateContest else UpdateContest(body.id.value)
    ensures d.Refuse? && d.reason.MissingProblem? ==>
      exists i :: 0 <= i < |body.problemIds| && body.problemIds[i] == d.reason.problemId &&
                  d.reason.problemId !in catalog.problemIds &&
                  forall k :: 0 <= k < i ==> body.problemIds[k] in catalog.problemIds
    ensures d.Refuse? && d.reason.MissingUser? ==>
      (forall i :: 0 <= i < |body.problemIds| ==> body.problemIds[i] in catalog.problemIds) &&
      exists i :: 0 <= i < |body.userIds| && body.userIds[i] == d.reason.userId &&
                  d.reason.userId !in users.users &&
                  forall k :: 0 <= k < i ==> body.userIds[k] in users.users
    ensures d == Refuse(ContestZeroImmutable) ==> body.id == Some(0)
    ensures (exists i :: 0 <= i < |body.problemIds| && body.problemIds[i] !in catalog.problemIds) ==>
      d.Refuse? && d.reason.MissingProblem?
    ensures (forall i :: 0 <= i < |body.problemIds| ==> body.problemIds[i] in catalog.problemIds) &&
            (exists i :: 0 <= i < |body.userIds| && body.userIds[i] !in users.users) ==>
      d.Refuse? && d.reason.MissingUser?
  {
    match FirstMissing(body.problemIds, catalog.problemIds)
    case Some(p) => Refuse(MissingProblem(p))
    case None =>
      match FirstMissing(body.userIds, users.users.Keys)
      case Some(u) => Refuse(MissingUser(u))
      case None =>
        match body.id
        case None => Proceed(CreateContest)
        case Some(id) => if id == 0 then Refuse(ContestZeroImmutable) else Proceed(UpdateContest(id))
  }

  /** No request body can change contest 0: asking to update it is always refused, whether
      for an unknown problem or user or, failing those, because it is contest 0. */
  lemma ContestZeroNeverChanged(catalog: Admission.Catalog, users: Users.UserStore, body: ContestBody)
    requires body.id == Some(0)
    ensures ValidateContest(catalog, users, body).Refuse?
  {
  }

  // ---------------------------------------------------------------------------
  // `POST /users`.

  /** `post_user`: a body with an `id` renames that user, one without creates a user.
      Only creation consumes an id from the counter; both keep names unique. The rename
      is the corrected `Users.UpdateUser`; `PostUserAgreesWithAsWritten` bounds where it
      differs from the update as written. */
  function PostUser(s: Users.UserStore, id: Option<nat>, name: string)
    : (out: (Result<Users.User>, Users.UserStore))
    ensures id.Some? ==> out == Users.UpdateUser(s, id.value, name)
    ensures id.None? ==> out == Users.CreateUser(s, name)
    ensures out.1.nextId == if id.None? then s.nextId + 1 else s.nextId
    ensures out.0.Ok? ==> out.0.value.name == name
    ensures out.0.Ok? && id.Some? ==> out.0.value.id == id.value
    ensures out.0.Ok? && id.None? ==> out.0.value.id == s.nextId
  {
    match id
    case Some(uid) => Users.UpdateUser(s, uid, name)
    case None => Users.CreateUser(s, name)
  }

  /** Below 2^31 the dispatched rename is exactly the update as written; the responses
      agree for every `u32` id. */
  lemma PostUserAgreesWithAsWritten(s: Users.UserStore, id: nat, name: string)
    requires id < U32_LIMIT
    ensures PostUser(s, Some(id), name).0 == Users.UpdateUserAsWritten(s, id, name).0
    ensures id < 0x8000_0000 ==> PostUser(s, Some(id), name) == Users.UpdateUserAsWritten(s, id, name)
  {
  }

  /** Every `POST /users`, whichever way it is dispatched, keeps user names unique. */
  lemma PostUserPreservesValid(s: Users.UserStore, id: Option<nat>, name: string)
    requires Users.Valid(s)
    ensures Users.Valid(PostUser(s, id, name).1)
  {
    match id
    case Some(uid) => Users.UpdateUserPreservesValid(s, uid, name);
    case None => Users.CreateUserPreservesValid(s, name);
  }
}
