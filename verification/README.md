# Online judge: request validation and user registry

A Dafny model of the request-validation layer of an online-judge service
(`src/handler/jobs.rs`) and of its user registry (`src/users/mod.rs`).

- **Admission** (`POST /jobs`) decides whether a submission is accepted. The checks run in a
  fixed order: language, problem, user, contest existence, contest membership, problem
  membership, submission count, time window. The first failing check decides the response.
  Contest 0 is the practice mode and skips every contest check. The count and the time window
  are only looked at when the contest has a non-zero `submission_limit`.
- **Other handler decisions**: numeric path ids (`u32` parsing, `NotFound` when that fails);
  the rejudge guard (an id the job counter has not issued gives `NotFound`); the `GET /jobs`
  policy that a malformed `from`/`to` yields an empty list rather than an error; ranklist
  option defaulting (`highest`/`none`); contest posting validation; and the `POST /users`
  dispatch (an `id` means rename, no `id` means create).
- **User registry**: a map from id to name plus the `usersid` counter. `create_user` reserves
  an id before it checks the name, so a refused creation still consumes an id. `update_user`
  renames one user and never lets two users share a name.

The data store is an immutable value (`Users.UserStore`, `Admission.Judge`). Every handler is
a pure function that returns its result, or its result together with the new state. The
clock is the parameter `now`. Error responses are `Errors.ErrorKind` values:
`NotFound`, `InvalidArgument`, `RateLimit`. Admission and contest validation also say
which check refused the request (`Admission.Reason`, `Handlers.ContestReason`). This stands
in for the message text, so the order of two checks that share an error kind can still be
observed.

Timestamps are strings in the fixed-width format `YYYY-MM-DDTHH:MM:SS.sssZ`. They are
compared with Rust's lexical `String` order (`Timestamps.LexLess`). Dafny's own `<` on
sequences means "proper prefix", so it is not used. `Timestamps.TimestampOrder` proves that
on well-formed timestamps this lexical order is chronological: it equals the numeric order
of the 17 digits `YYYYMMDDHHMMSSsss`.

Modules, one per file: `Errors` (errors.dfy), `Digits` (digits.dfy), `Timestamps`
(timestamps.dfy), `Users` (users.dfy), `Admission` (admission.dfy), `Handlers`
(handlers.dfy).

## Model

| member | source | states |
|---|---|---|
| Admission.Admit | src/handler/jobs.rs:96-178 | admitted exactly when language, problem and user exist and, for a contest other than 0, the contest exists, lists the user and the problem and, if it has a limit, the prior count is below the limit and `from <= now <= to`; an unknown language is always the reported error; a `NotFound` is returned exactly when one of the four existence checks fails; for contest 0 only the first three checks matter; each refusal reason maps (`Admission.Reason.Kind`) to the source's response: `NotFound` for an unknown language, problem, user or contest (lines 103, 112, 118, 121), `InvalidArgument` for a user or problem outside the contest and for a closed window (lines 131, 137, 170, 173), `RateLimit` for too many submissions (line 166) |
| Admission.ContestAdmission | src/handler/jobs.rs:126-176 | the contest checks admit exactly what the contest permits; a user outside `user_ids` is refused before anything else; a contest without a limit admits any member user and problem; `RateLimit` only when the limit is non-zero and the count has reached it; a time-window refusal only under a limit and after the count passed |
| Admission.AdmitFollowsCheckOrder | src/handler/jobs.rs:96-176 | the handler's verdict equals the first failing rule of the ordered rule table (language, problem, user, contest, membership, problem-in-contest, count, not started, finished), with the contest rules only applying to an existing real contest and the last three only under a limit |
| Admission.CountPrior | src/handler/jobs.rs:143-164 | the number of earlier submissions with the same user, problem and contest is at most the number of submissions, and 0 when there is none with that triple |
| Admission.CountPriorAppend | src/handler/jobs.rs:145 | recording a submission raises the count of its own triple by exactly one and leaves every other triple's count unchanged |
| Admission.Submit | src/handler/jobs.rs:165-178 | the decision is the admission verdict; a refused request changes nothing; an admitted one adds exactly its own (user, problem, contest) triple to the submissions the count reads |
| Admission.RateLimitEnforced | src/handler/jobs.rs:142-167 | with limit L and p earlier submissions, the i-th of n identical in-window submissions is admitted iff p + i < L and otherwise refused with the rate-limit reason |
| Admission.ThirdSubmissionOverLimitTwo | src/handler/jobs.rs:165-166 | with limit 2 and no earlier submissions, three identical submissions give admitted, admitted, `RateLimit` |
| Admission.AdmittedWithinWindow | src/handler/jobs.rs:168-174 | an admitted submission to a limited contest has `from <= now <= to` as instants: both bounds are inclusive |
| Admission.PracticeIgnoresContests | src/handler/jobs.rs:120-126 | for contest 0 the verdict does not depend on the contests, the earlier submissions or the clock |
| Timestamps.LexLess | src/handler/jobs.rs:169-172 | Rust's `<` on `String`: `a` precedes `b` exactly when at the first position where they differ `a`'s character is smaller, or `a` is a proper prefix of `b`; with LexLessTransitive, LexLessTotal and LexLessIrreflexive a strict total order, and by TimestampOrder chronological on timestamps |
| Timestamps.IsTimestamp | src/handler/jobs.rs:219-224 | the fixed-width shape that stands in for chrono's `%Y-%m-%dT%H:%M:%S%.3fZ` parse: accepted exactly when the string is a four-digit year, two-digit month, day, hour, minute and second and three-digit milliseconds with the literal separators and a final `Z`; by TimestampOrder such strings compare chronologically |
| Timestamps.LexLessTransitive | src/handler/jobs.rs:169-172 | the lexical string order used for the window is transitive |
| Timestamps.LexLessTotal | src/handler/jobs.rs:169-172 | of two distinct strings exactly one is lexically smaller |
| Timestamps.LexLessIrreflexive | src/handler/jobs.rs:169-172 | no string is lexically smaller than itself |
| Timestamps.TimestampOrder | src/handler/jobs.rs:168-174 | on two fixed-width timestamps, lexical `<` and `<=` agree with `<` and `<=` on the instants they denote |
| Digits.ParseU32 | src/handler/jobs.rs:245-250 | a segment parses exactly when it is one or more decimal digits, optionally after one leading `+`, whose value (leading zeros allowed) is below 2^32, and the result is that value; an empty segment, a bare `+`, a leading `-` or any later non-digit gives no number |
| Digits.ParseU32Rejects | src/handler/jobs.rs:245-250 | `1a`, `+`, `+x`, `-1` and `1+` do not parse |
| Digits.ParseU32Accepts | src/handler/jobs.rs:245-250 | `007` parses as 7 and `+42` as 42 |
| Digits.ParseU32Range | src/handler/jobs.rs:245-250 | `4294967295` parses and `4294967296` overflows |
| Digits.ToDecimal | src/users/mod.rs:51 | the decimal rendering of an id is a non-empty digit string without leading zeros whose value is the id |
| Digits.ParseToDecimal | src/handler/jobs.rs:189-194 | parsing the decimal rendering of any `u32`, with or without a leading `+`, gives the number back |
| Handlers.ParsePathId | src/handler/jobs.rs:188-194 | a path segment yields an id below 2^32 exactly when it parses as `u32`, and `NotFound` otherwise |
| Handlers.PathIdRoundTrip | src/handler/jobs.rs:337-343 | every `u32` id written in decimal is found again from its path segment |
| Handlers.RejudgeGuard | src/handler/jobs.rs:244-253 | a rejudge proceeds exactly when the segment parses and names an id below the job counter; otherwise `NotFound`, and no job is reset |
| Handlers.RejudgeAcceptsExactlyIssued | src/handler/jobs.rs:251-253 | for every `u32` id written in decimal, the rejudge proceeds with that id iff the counter has issued it |
| Handlers.ListJobs | src/handler/jobs.rs:218-229 | the lookup happens exactly when every present `from`/`to` is a well-formed timestamp, and it gets the filter unchanged; otherwise the answer is the empty list, never an error |
| Handlers.LookupBoundsAreInstants | src/handler/jobs.rs:218-227 | bounds that reach the lookup compare against any timestamp chronologically |
| Handlers.ScoringRuleName | src/handler/jobs.rs:57-63 | each scoring rule's query spelling parses back to that rule |
| Handlers.TieBreakerName | src/handler/jobs.rs:65-73 | each tie-breaker's query spelling parses back to that tie-breaker |
| Handlers.ParseScoringRule | src/handler/jobs.rs:57-63 | serde's decoding of the scoring rule: by ParseOptionsInvertNames it recognises exactly `latest` and `highest`, each as the rule it names; RanklistRequest turns anything else into `InvalidArgument` |
| Handlers.ParseTieBreaker | src/handler/jobs.rs:65-73 | serde's decoding of the tie-breaker: by ParseOptionsInvertNames it recognises exactly `submission_time`, `submission_count`, `user_id` and `none`, each as the tie-breaker it names; RanklistRequest turns anything else into `InvalidArgument` |
| Handlers.ParseOptionsInvertNames | src/handler/jobs.rs:57-73 | a recognised option value is exactly the spelling of the option it denotes |
| Handlers.RanklistRequest | src/handler/jobs.rs:366-389 | an unparsable contest id gives `NotFound` first; an absent scoring rule or tie-breaker keeps `highest`/`none`; a present one is kept as given; an unknown value gives `InvalidArgument` |
| Handlers.RanklistOptionsRoundTrip | src/handler/jobs.rs:376-385 | any contest id with any named options is accepted as given, and with no options gets the defaults |
| Handlers.FirstMissing | src/handler/jobs.rs:309-320 | reports the first element of the list that is not known, scanning from the front, and nothing exactly when all are known |
| Handlers.ValidateContest | src/handler/jobs.rs:309-329 | a contest body proceeds exactly when all its problems are configured, all its users exist and it does not target contest 0; the reported problem or user is the first unknown one in list order; an unknown problem is reported before any user check; an unknown user only once all problems passed, and then before the contest-0 refusal; proceeding creates when there is no id and updates that id otherwise; the refusal kinds (`Handlers.ContestReason.Kind`) are `NotFound` for a problem or user (lines 312, 318) and `InvalidArgument` for contest 0 (line 322) |
| Handlers.ContestZeroNeverChanged | src/handler/jobs.rs:321-322 | no body that targets contest 0 is ever let through |
| Handlers.PostUser | src/handler/jobs.rs:284-291 | a body with an id is exactly the rename `Users.UpdateUser` of that id, and one without is exactly the creation `Users.CreateUser`; so only creation advances the counter, and a successful response carries the requested name and the right id |
| Handlers.PostUserAgreesWithAsWritten | src/handler/jobs.rs:284-286 | for every `u32` id the dispatched rename answers like the update as written, and below 2^31 it also stores the same registry |
| Handlers.PostUserPreservesValid | src/handler/jobs.rs:284-291 | either branch of `POST /users` keeps user names unique and ids below the counter |
| Users.UserExists | src/users/mod.rs:66-74 | true exactly when some user has that name |
| Users.GetUser | src/users/mod.rs:44-64 | the user with that id and its stored name, or `NotFound` exactly when no user has that id |
| Users.GetUserId | src/users/mod.rs:22-42 | `NotFound` exactly when no user has that name; otherwise an id whose stored name is that name |
| Users.NameIdentifiesUser | src/users/mod.rs:32-39 | in a registry with unique names, a name belongs to one id only, so the id lookup has a single answer |
| Users.CreateUser | src/users/mod.rs:96-113 | the counter advances by exactly one even on failure; a taken name gives `InvalidArgument` and the map is unchanged; otherwise the new user has the pre-call counter as its id and the map gains exactly that entry |
| Users.CreateUserNeverOverwrites | src/users/mod.rs:99-112 | in a valid registry a creation keeps every existing user and name |
| Users.CreateUserPreservesValid | src/users/mod.rs:103-110 | creation keeps names unique and ids below the counter |
| Users.UpdateUser | src/users/mod.rs:76-94 | an unknown id gives `NotFound` with no change; the current name succeeds with no change; `InvalidArgument` exactly when another user holds the name, with no change; otherwise (the id exists, the name differs and nobody holds it) the rename succeeds: only the target's name changes, the counter is untouched, and the response carries the id and new name |
| Users.UpdateUserOnlyRenamesTarget | src/users/mod.rs:83-93 | after any update the set of ids, the counter and every other user's name are unchanged |
| Users.UpdateUserPreservesValid | src/users/mod.rs:83-90 | an update keeps names unique and ids below the counter |
| Users.AsI32 | src/users/mod.rs:89 | Rust's `u32 as i32`: a value in the `i32` range congruent to the input modulo 2^32 |
| Users.UpdateUserAsWritten | src/users/mod.rs:76-94 | the code as written answers like `UpdateUser`, agrees with it on ids below 2^31, and leaves the store untouched for ids of 2^31 or more |
| Users.UpdateUserAsWrittenLosesRename | src/users/mod.rs:87-93 | renaming user 2^31 answers with the new name while the stored name stays the old one |
| Users.ListUsers | src/users/mod.rs:115-133 | the listing holds every user once with its stored name, in strictly ascending id order |
| Users.CreateAllIssuesConsecutiveIds | src/users/mod.rs:99-100 | in a run of creations, the i-th is issued the id counter + i whether or not earlier ones failed, so ids never repeat and refused creations leave gaps |
| Users.CreateAllIdsDistinct | src/users/mod.rs:99-100 | two successful creations of one run get distinct ids, the later one larger |
| Users.CreateAllPreservesValid | src/users/mod.rs:96-113 | any run of creations keeps names unique and ids below the counter |

## Left out

- HTTP plumbing is not modelled: actix routing, `HttpResponse` bodies, serde JSON, and the `+` escaping of the job query (src/handler/jobs.rs:205-216). A query string that serde cannot decode at all gives `InvalidArgument` (src/handler/jobs.rs:208-213, 377-388); of these, only an unknown ranklist option value is modelled.
- Error message texts are not modelled. Each refusal is a reason value instead. The unknown-contest message of `post_job` interpolates the user id instead of the contest id (src/handler/jobs.rs:121-124). That affects only the text.
- Database failures are not modelled. This covers the `EXTERNAL` responses and `user_exists` answering `true` when a statement cannot be prepared (src/users/mod.rs:71); both are infrastructure faults. Each store is a map or a sequence.
- Locking and concurrency are not modelled. `create_user` reads and increments `usersid` under two separate lock acquisitions (src/users/mod.rs:99-100); the model makes the allocation one atomic step.
- Users.CreateUser: the `usersid` counter is an unbounded `nat`. The source's `u32` counter would overflow after 2^32 creations; that is not modelled.
- Admission.CountPrior: the count is an unbounded `nat`, where the source reads a `u32`.
- The runner module is not part of this model. That covers `runner::start`, `get_job`, `get_jobs`, `reset_job`, `get_a_job` and the spawned `runner::run`. It includes job ids, job states, results and the lookup that `GET /jobs` performs. Admission.Submit abstracts what `runner::start` persists down to the one (user, problem, contest) record that the rate-limit count reads.
- The contests module is not part of this model. `contest_exists`/`get_contest` are a lookup in the contest map. `create_contest`, `update_contest`, `get_contests` and the ranking computed by `contests::get_ranklist` are left out. Only the defaulting of the ranklist inputs is visible in the handler.
- The clock is not modelled: `Utc::now()` is the parameter `now`. chrono's `NaiveDateTime::parse_from_str` is replaced by a fixed-width shape check (`Timestamps.IsTimestamp`). The check does no calendar validation (month range, days per month, leap years), so it accepts some strings that chrono would refuse. Nor does it accept everything chrono accepts (see the `Timestamps.IsTimestamp` line below).
- Timestamps.IsTimestamp: accepts exactly the fixed-width shape `0000-00-00T00:00:00.000Z`, which differs from chrono's `%Y-%m-%dT%H:%M:%S%.3fZ` parse in both directions. It accepts impossible dates (see the clock line above), and chrono also takes numeric fields shorter than their width (`2022-8-27T…`), leading whitespace before a field, a missing fraction or a fraction of another length (`…:29Z`, `…:29.5Z`), and a signed year of any length (`+12022-…`). Modelling chrono's parser is out of scope; the shape is the form the judge itself writes (src/handler/jobs.rs:168).
- Handlers.ListJobs: a bound passes only in the fixed-width shape of `Timestamps.IsTimestamp`. The bounds listed on that line go to the empty list in the model, while the source looks them up.
- `post_contest` checks its user ids with `users::user_exists(pool, *user_id)` (src/handler/jobs.rs:316). `users::user_exists` takes a name (src/users/mod.rs:66), so this call passes a `u32` where a `&str` is expected. The model reads the check as "a user with this id exists".
- `post_job` checks problems against `config.problems`, while `post_contest` checks them against `prob_map`. The model uses one problem catalog for both, on the assumption that `prob_map` is keyed by the configured problem ids.
- Handlers.PostUser: a rename goes through the corrected `Users.UpdateUser`, not the update as written. For a user id of 2^31 or more the source keeps the old stored name, while the model stores the new one (see Findings; `Handlers.PostUserAgreesWithAsWritten` states where the two agree).
- Users.GetUserId: when names are not unique (outside `Users.Valid`), the SQL query returns whichever matching row comes first. The model returns some matching id.

## Findings

| source | as written | input that shows it | evidently intended | confidence | as-written member | corrected member |
|---|---|---|---|---|---|---|
| src/users/mod.rs:89 | the `UPDATE` binds the id as `user_id as i32` | renaming the user with id 2147483648 to an unused name: the response reports the new name, but the cast makes the id negative, no row matches, and the stored name is unchanged | bind the id unchanged, so that the rename the response reports actually happens | not executed; low: it needs 2^31 issued user ids, and the users table schema is not part of this model | Users.UpdateUserAsWritten (shown by Users.UpdateUserAsWrittenLosesRename) | Users.UpdateUser (dispatched by Handlers.PostUser) |
