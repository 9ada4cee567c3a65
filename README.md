# nixpkgs-tracker core, modelled in Dafny

nixpkgs-tracker is a small web application. It answers one question: which
nixpkgs branches already contain a given pull request? This project models the
logic behind that answer and proves properties of the model. The logic lives in
`src/lib/utils.ts` and in the OAuth callback handler
`src/routes/api/auth/callback/+server.ts`:

- **Branch universe** (`branches.dfy`): the fixed default branch list, merged
  with the newest release branches from the upstream ref listing. The steps are
  ref stripping, the release-name pattern, a descending sort, a cut to four,
  and an order-preserving dedup (`seqs.dfy`).
- **Pull-request projection** (`pulls.dfy`): the `closed` and `merged` flags
  and the copied fields.
- **Approvers** (`reviews.dfy`): the approving reviewers, one per login. The
  `Map` the source fills is modelled as a key order plus entries. The last
  approval of a login wins, but the login keeps the position of its first
  approval.
- **CI status** (`checks.dfy`): legacy statuses deduplicated by context, the
  first seen wins. Then one normalised entry per check-run.
- **Containment** (`compare.dfy`): the verdict read from the comparison status,
  with 404 read as "not contained".
- **History** (`history.dfy`): the browser-stored list of looked-up pull
  requests, as a class whose field is the stored item.
- **OAuth callback** (`callback.dfy`): the handler's chain of early returns
  (400, 403, 403, 500) as a decision function. The handler itself is a method
  over a cookie-jar object, and only its success path writes cookies.

Everything the code fetches is an input value. A `Response<T>` pairs an HTTP
status with the decoded body. An `Attempt<T>` stands for a `try` block that
either threw or returned a response. JavaScript values, truthiness, `||` and
`String(v)` are in `js.dfy`.

Three behaviours of the code are easy to miss, and the model keeps them:

- **CI failures** (`src/lib/utils.ts:162-173`). A CI response that is not ok
  empties its group only. A request that fails at the network level makes
  `Promise.all` reject, and then the whole call rejects. The model covers the
  first case (see "Left out" for the second).
- **An absent `merged_at` reads as merged** (`src/lib/utils.ts:119`). `merged`
  is `merged_at !== null`. A body with no such field at all, as an error body
  is, therefore reads as merged (`Pulls.AbsentMergedAtReadsAsMerged`).
- **Ref stripping** (`src/lib/utils.ts:65`). `ref.replace('refs/heads/', '')`
  has a string pattern, so it removes the first occurrence wherever it is. It
  is not limited to a leading one.

## Model

| member | source | states |
|---|---|---|
| Js.Or | src/routes/api/auth/callback/+server.ts:51 | `a \|\| b` is `a` when `a` is truthy and `b` otherwise; the result is truthy iff either operand is |
| Js.Truthy | src/lib/utils.ts:188 | a value is truthy iff it is none of the falsy scalars `undefined`, `null`, `false`, `0` and `''` |
| Js.Decimal | src/lib/utils.ts:184 | `toString()` of a natural number is a non-empty string of decimal digits that denotes the number, with no leading zero |
| Js.TextOfValue | src/routes/api/auth/callback/+server.ts:51 | `String(v)`: a string is itself; a non-negative number becomes its exact decimal text (digits only, no leading zero, denoting the number); a negative one becomes `-` followed by the exact decimal text of its magnitude |
| Seqs.Dedup | src/lib/utils.ts:71 | `Array.from(new Set(xs))` yields only elements of `xs` and is no longer than `xs` |
| Seqs.DedupHas | src/lib/utils.ts:71 | an element is in the deduplicated list iff it is in the input |
| Seqs.DedupNoDup | src/lib/utils.ts:71 | the deduplicated list has no element twice |
| Seqs.DedupSnoc | src/lib/utils.ts:71 | appending an element appends it to the result if it is new and changes nothing otherwise |
| Seqs.DedupPrefix | src/lib/utils.ts:71 | deduplicating `a + b` starts with the deduplication of `a`: earlier elements keep their first-seen order |
| Seqs.DedupTail | src/lib/utils.ts:71 | every element past that prefix comes from `b` and does not occur in `a` |
| Seqs.DedupOfNoDup | src/lib/utils.ts:71 | an input without repeats is returned unchanged |
| Seqs.DedupDisjoint | src/lib/utils.ts:71 | for parts sharing no element, deduplicating `a + b` is deduplicating `a` followed by deduplicating `b` |
| Branches.IndexOf | src/lib/utils.ts:65 | the search finds the first occurrence of the pattern at or after the start, or reports that there is none |
| Branches.StripHeads | src/lib/utils.ts:65 | a ref without `refs/heads/` is returned unchanged; otherwise the first occurrence is cut out, and putting the pattern back at that position gives the ref again |
| Branches.StripHeadsOfHeadRef | src/lib/utils.ts:65 | `refs/heads/<name>` becomes `<name>` |
| Branches.StripHeadsWithoutPattern | src/lib/utils.ts:65 | a ref that does not contain `refs/heads/` is left as it is |
| Branches.NoDotNoVersion | src/lib/utils.ts:66 | a string without a dot is not `\d+\.\d+` |
| Branches.IsReleaseName | src/lib/utils.ts:66 | a matching name has at least nine characters and starts with `nixos-` or `nixpkgs-` |
| Branches.NoDotNoTail | src/lib/utils.ts:66 | a string without a dot is not `\d+\.\d+(-small\|-darwin)?` |
| Branches.NoDotNoRelease | src/lib/utils.ts:66 | a name without a dot never matches the release pattern |
| Branches.DefaultsAreNotReleases | src/lib/utils.ts:3-9 | none of the five default branches matches the release pattern |
| Branches.VersionExamples | src/lib/utils.ts:66 | `24.05` and `24.11` are versions, with the dot at position 2 |
| Branches.PlainReleaseExample | src/lib/utils.ts:66 | `nixos-24.05` matches the release pattern |
| Branches.SmallReleaseExample | src/lib/utils.ts:66 | `nixos-24.11-small` matches the release pattern |
| Branches.DarwinReleaseExample | src/lib/utils.ts:66 | `nixpkgs-24.11-darwin` matches the release pattern |
| Branches.ReleaseNames | src/lib/utils.ts:66 | the filter keeps exactly the names that match the pattern: everything kept matches and came from the input, every matching input is kept, and the result is no longer than the input |
| Branches.ReleaseNamesAppend | src/lib/utils.ts:66 | the filter distributes over concatenation, so matching names keep their order and every repeat is kept |
| Branches.ReleaseNamesSingle | src/lib/utils.ts:66 | a single name is kept exactly when it matches; with the previous row this fixes the filter's result for every input |
| Branches.StripAll | src/lib/utils.ts:65 | the map strips every ref, position by position |
| Branches.Insert | src/lib/utils.ts:67 | inserting into a sorted run adds exactly that one element (as a multiset) |
| Branches.SortsBefore | src/lib/utils.ts:67 | for an antisymmetric collation, the comparator `b.localeCompare(a)` puts `a` first only when `a` collates after `b`: newest first |
| Branches.SortDescending | src/lib/utils.ts:67 | the sort is a permutation of its input |
| Branches.InsertKeepsDescending | src/lib/utils.ts:67 | inserting keeps a run descending, for an antisymmetric collation |
| Branches.SortIsDescending | src/lib/utils.ts:67 | the sort output is descending under `localeCompare`, for an antisymmetric collation |
| Branches.SortedFromInput | src/lib/utils.ts:67 | every sorted element comes from the sort's input |
| Branches.SortedReleases | src/lib/utils.ts:64-67 | the sorted release names are a permutation of the filtered, stripped refs, in descending order for an antisymmetric collation |
| Branches.NewestReleases | src/lib/utils.ts:64-68 | `.slice(0, 4)`: exactly the first min(4, n) names of the sorted release list, in order; so at most four names, each matching the release pattern and each a stripped upstream ref |
| Branches.GetAllBranches | src/lib/utils.ts:52-76 | the defaults come first in their own order; no duplicates; the defaults alone after a throw or a non-ok response; every further branch is one of the newest releases and not a default |
| Branches.DefaultsAlwaysOffered | src/lib/utils.ts:52-76 | every default branch is in the result, on success and on every failure |
| Branches.MergeOnSuccess | src/lib/utils.ts:71 | on success the result is exactly the defaults followed by the deduplicated newest releases |
| Branches.NewestReleasesOffered | src/lib/utils.ts:64-71 | after a successful listing, every one of the newest release names is among the offered branches |
| Branches.AddedBranchesAreNewestReleases | src/lib/utils.ts:64-71 | a branch beyond the defaults comes from a successful listing, matches the pattern, is a stripped ref, and is among the first four after the sort |
| Branches.BranchCountBound | src/lib/utils.ts:64-71 | the result has at most nine branches: the five defaults plus four releases |
| Pulls.OptionalField | src/lib/utils.ts:120 | `data.base?.ref` is undefined when the object is missing, else the field |
| Pulls.GetPR | src/lib/utils.ts:105-129 | `status` is the HTTP status; `closed` iff the state is `closed` and `merged_at` is falsy; `merged` iff `merged_at !== null`; `base` and `head_sha` are read through `?.`, so they are undefined when the object is missing and the field otherwise; the remaining fields are copied |
| Pulls.ClosedAndMergedExclusive | src/lib/utils.ts:118-119 | for a `merged_at` that is null or a timestamp, never both closed and merged; merged iff a timestamp is present |
| Pulls.AbsentMergedAtReadsAsMerged | src/lib/utils.ts:119 | a body with no `merged_at` reads as merged |
| Pulls.OpenIsNotClosed | src/lib/utils.ts:118 | an open pull request is never reported closed |
| Reviews.ApprovalLogins | src/lib/utils.ts:141-145 | there are no more approving logins than reviews |
| Reviews.ApprovalLoginsHas | src/lib/utils.ts:141-145 | a login is listed iff one of its reviews has state `APPROVED` |
| Reviews.LastApproval | src/lib/utils.ts:143 | the user kept for a login carries that login |
| Reviews.LastApprovalWins | src/lib/utils.ts:141-145 | the user kept is the one from that login's last approving review |
| Reviews.Collect | src/lib/utils.ts:140-145 | every key in the map's key order has an entry |
| Reviews.KeyOrderStep | src/lib/utils.ts:143 | `map.set` of a new key appends it to the key order; a present key keeps its place |
| Reviews.SetUser | src/lib/utils.ts:143 | `map.set` maps the login to the user and keeps every other entry; existing keys keep their places, at most one key is appended; keys and entries stay in step |
| Reviews.CollectKeys | src/lib/utils.ts:140-147 | the map's key order is the distinct approving logins, in order of first approval, and the keys are exactly the entries |
| Reviews.CollectUsers | src/lib/utils.ts:140-147 | each key maps to the user of that login's last approval |
| Reviews.GetReviews | src/lib/utils.ts:131-148 | `[]` for a non-ok response; otherwise the approvers: one per distinct approving login, ordered by first approval, each with the user of that login's last approval |
| Reviews.ApproversDistinct | src/lib/utils.ts:140-147 | no login is reported twice |
| Reviews.Approvers | src/lib/utils.ts:147 | one user per distinct approving login, in order of first approval, each carrying that login |
| Reviews.EveryApproverReported | src/lib/utils.ts:141-147 | every reviewer with an approving review is reported |
| Reviews.ReportedAreLastApprovals | src/lib/utils.ts:141-147 | every reported user is the user of some login's last approving review |
| Reviews.NonApprovalsIgnored | src/lib/utils.ts:142 | a review that is not an approval does not change the result |
| CiStatus.OrEmpty | src/lib/utils.ts:188 | `description \|\| ''` is the text when present and `''` otherwise |
| CiStatus.OkBody | src/lib/utils.ts:165-171 | a group is the body when the response is ok and empty otherwise |
| CiStatus.CheckRunState | src/lib/utils.ts:195-201 | `pending` iff the run is not completed; `success` iff completed with conclusion `success`; `neutral` iff completed and `skipped` or `neutral`; otherwise `failure` |
| CiStatus.ContextsOfHas | src/lib/utils.ts:179-182 | every status's context is among the contexts of the listing |
| CiStatus.ContextsStep | src/lib/utils.ts:181-182 | processing one more status adds its context to the processed set |
| CiStatus.LegacyEntries | src/lib/utils.ts:179-191 | the legacy group has at most one entry per status |
| CiStatus.LegacyEntryFields | src/lib/utils.ts:183-189 | the pushed status object: the id as its exact decimal text, the context as the name, the state and url unchanged, and the description or `''` |
| CiStatus.RunEntries | src/lib/utils.ts:194-210 | the check-run group has exactly one normalised entry per run, in order |
| CiStatus.CheckRunEntryFields | src/lib/utils.ts:203-209 | the pushed check-run object: the id as its exact decimal text, the run's name and url, one of the four states (`pending` iff not completed), and the output title or `''` |
| CiStatus.GetDetailedCIStatus | src/lib/utils.ts:158-213 | the two loops produce the legacy group followed by the check-run group |
| CiStatus.LegacyNamesAreContexts | src/lib/utils.ts:179-191 | every legacy entry is named after a context of the listing |
| CiStatus.LegacyNamesDistinct | src/lib/utils.ts:179-191 | no two legacy entries share a context |
| CiStatus.LegacyFirstSeenWins | src/lib/utils.ts:178-191 | every legacy entry comes from the first (newest) status with its context |
| CiStatus.MergedLegacyAt | src/lib/utils.ts:175-191 | the legacy entries come first, at their own positions |
| CiStatus.MergedBounds | src/lib/utils.ts:175-212 | the result has at least one entry per check-run and at most one per status plus one per check-run, and is empty when both responses fail |
| CiStatus.MergedRunAt | src/lib/utils.ts:193-212 | the total is the legacy count plus the run count, and run `i` sits right after the legacy entries at offset `i`: runs are never deduplicated |
| CiStatus.FailedGroupIsEmpty | src/lib/utils.ts:162-173 | a group whose response is not ok contributes nothing, and the other group is kept |
| CiStatus.LegacyKeepsPrefix | src/lib/utils.ts:180-191 | processing another status keeps the earlier legacy entries in place |
| CiStatus.ContextListed | src/lib/utils.ts:179-191 | every context of the listing has a legacy entry |
| CiStatus.EveryContextListed | src/lib/utils.ts:179-191 | the context of every status in the listing has a legacy entry |
| CiStatus.DuplicateContextExample | src/lib/utils.ts:175-212 | two statuses with one context plus one run give the newer status, then the run |
| Containment.IsContain | src/lib/utils.ts:215-224 | false on 404; otherwise true iff the comparison status is `identical` or `behind` |
| Containment.ContainedIffNotAhead | src/lib/utils.ts:219-223 | for a comparison that succeeded, contained iff the commit is zero commits ahead of the branch |
| Containment.NotContainedCases | src/lib/utils.ts:219-223 | `ahead`, `diverged`, a body without status, and 404 all give false |
| History.Saved | src/lib/utils.ts:241-249 | after a save the list has an entry for the saved number |
| History.HasPr | src/lib/utils.ts:245 | `some(h => h.pr === pr)`, scanning from the front, holds iff some entry has the number |
| History.WithoutPr | src/lib/utils.ts:263 | the filter leaves no entry with the number, keeps every other entry, and never grows the list |
| History.FirstTitle | src/lib/utils.ts:251-258 | `''` when no entry has the number; otherwise the title of the first entry that has it |
| History.HistoryStore.constructor | src/lib/utils.ts:234 | the store starts with the given stored item |
| History.HistoryStore.GetHistoryList | src/lib/utils.ts:232-239 | an absent item reads as the empty list; otherwise the stored list |
| History.HistoryStore.GetHistoryTitle | src/lib/utils.ts:251-258 | the title of the first entry for the number, or `''` |
| History.HistoryStore.SaveHistory | src/lib/utils.ts:241-249 | a known number leaves the store untouched; a new one is appended and written back |
| History.HistoryStore.DeleteHistory | src/lib/utils.ts:260-265 | the filtered list is always written back |
| History.SaveIdempotent | src/lib/utils.ts:245-248 | saving the same entry twice equals saving it once |
| History.SaveKeepsUnique | src/lib/utils.ts:244-248 | a list without repeated numbers stays so after a save |
| History.SavedTitle | src/lib/utils.ts:245-257 | after a save the title for that number is the new title if the number was new, and the old title otherwise: titles are never overwritten |
| History.SaveKeepsOtherTitles | src/lib/utils.ts:245-257 | a save leaves every other number's title as it was |
| History.DeleteKeepsOrder | src/lib/utils.ts:263 | the delete distributes over concatenation, so kept entries keep their order |
| History.DeleteAbsent | src/lib/utils.ts:263 | deleting an absent number changes nothing |
| History.DeleteIdempotent | src/lib/utils.ts:260-265 | deleting twice equals deleting once, and afterwards the title is `''` |
| History.DeleteKeepsUnique | src/lib/utils.ts:263 | a list without repeated numbers stays so after a delete |
| AuthCallback.QueryGet | src/routes/api/auth/callback/+server.ts:6-7 | `searchParams.get` is absent iff no pair has the name; otherwise it is the value of the first pair with that name |
| AuthCallback.Given | src/routes/api/auth/callback/+server.ts:10 | `!v` is false for a string that may be null exactly when it is present and truthy, i.e. not empty |
| AuthCallback.ExchangeError | src/routes/api/auth/callback/+server.ts:51 | the message is `error_description` if truthy, else `error` if truthy, else `Unknown error` |
| AuthCallback.Decide | src/routes/api/auth/callback/+server.ts:10-63 | refusals are 400, 403 or 500; 400 with its message iff a parameter or the cookie is missing or empty; acceptance only with all three present, a verified token whose state equals the parameter, and a truthy access token, which the session claims carry with a seven-day lifetime |
| AuthCallback.CookieJar.constructor | src/routes/api/auth/callback/+server.ts:5 | the jar holds the request's cookies and no pending writes |
| AuthCallback.CookieJar.Get | src/routes/api/auth/callback/+server.ts:8 | `cookies.get` returns the request cookie's value, or nothing when absent |
| AuthCallback.CookieJar.Set | src/routes/api/auth/callback/+server.ts:65-71 | `cookies.set` records that one write and nothing else |
| AuthCallback.CookieJar.Delete | src/routes/api/auth/callback/+server.ts:73 | `cookies.delete` records that one deletion and nothing else |
| AuthCallback.SuccessWrites | src/routes/api/auth/callback/+server.ts:65-73 | the success path adds the signed session cookie (path `/`, httpOnly, secure iff https, strict, seven days) and the state cookie's deletion, and leaves every other pending write as it was |
| AuthCallback.Get | src/routes/api/auth/callback/+server.ts:5-76 | a refusal answers with the decided status and message and writes no cookie; acceptance sets the session cookie (httpOnly, secure iff https, strict, seven days), deletes the state cookie and redirects 302 to `/` |
| AuthCallback.MissingParameterFirst | src/routes/api/auth/callback/+server.ts:10-12 | a missing parameter gives 400, whatever verification and the exchange would answer |
| AuthCallback.NoExchangeBeforeValidation | src/routes/api/auth/callback/+server.ts:10-33 | every 400 and 403 outcome is the same whatever the exchange answers: no exchange happens before validation passes |
| AuthCallback.BadTokenRefused | src/routes/api/auth/callback/+server.ts:18-27 | a token that fails verification, or whose claims are not both strings, gives 403 |
| AuthCallback.StateRoundTrip | src/routes/api/auth/callback/+server.ts:29-54 | any state other than the signed one gives 403; the signed state passes, and the exchange alone then decides between 500 and success |
| AuthCallback.ExchangeFailureReported | src/routes/api/auth/callback/+server.ts:49-54 | a 500 means the reply had no truthy access token, and its message names the upstream error |

## Left out

- `console.error` logging before the fallbacks of `getAllBranches`
  (`src/lib/utils.ts:60`, `:73`) is left out. It has no effect on the result.
- Network I/O is left out: `fetch`, request URLs, headers and the `header()`
  token attachment (`src/lib/utils.ts:43-50`). Responses are inputs.
- The token helpers `syncAuthToken`, `setToken`, `getToken` and `hasToken`
  (`src/lib/utils.ts:11-41`) are thin storage and fetch wrappers.
- The `browser` guard, `localStorage` itself and `JSON.parse`/`JSON.stringify`
  are left out. The stored item is the `HistoryStore.stored` field: `None`
  when absent or empty, otherwise the decoded list. Outside a browser the
  history functions are no-ops; that is not modelled.
- Reading the body with `response.json()` can throw on a body that is not
  JSON, and so can reading a field of `null`. For example, a review whose
  `user` is null, or a status without `id`. Those exceptions propagate to the
  caller and are not modelled, except in `getAllBranches`, where the `try`
  block is the `Attempt.Threw` case.
- CiStatus.GetDetailedCIStatus: only a non-ok response empties a group. A
  network failure of either request rejects `Promise.all` and so the whole
  call. That rejection is not modelled, and neither is the concurrency of the
  two requests.
- Branches.SortIsDescending: `localeCompare` with `numeric: true` is a foreign
  collation routine. It is a parameter here. The sort is modelled as a stable
  insertion sort, and it is proved descending only for an antisymmetric
  collation. The model does not fix which order the engine picks for
  collation ties, nor the order for an inconsistent comparator.
- AuthCallback.Decide: JWT signing and verification (`jose`), the session
  secret, the issued-at time and the expiry clock are left out. Verification
  is an input function from the cookie text to failure or to the payload's
  `state` and `mode` claims. The signed session is modelled as its claims.
- AuthCallback.Get: the code-for-token exchange is an input function from the
  code to the decoded reply. A reply that is not JSON, or a network failure,
  would throw; that is not modelled.
- Numbers are unbounded integers. Ids are only converted to text, so
  floating-point representation does not matter here.
- `src/routes/api/auth/github/+server.ts`, `src/routes/api/auth/token/+server.ts`
  and `src/routes/api/auth/logout/+server.ts` are not part of this model. They
  are framework glue: a redirect builder, a cookie read-back and a cookie
  delete.
