# thoth source management, modelled in Dafny

`thoth-sourcemanagement` gives a repository-maintenance bot one session object
for a repository on GitHub or GitLab. The session opens and closes issues,
assigns users, deletes branches and hands out its access token. When the
session authenticates as a GitHub App installation, a guard in front of every
public operation renews the short-lived installation token. The guard renews
it when the current time is strictly after a deadline, and then sets the
deadline nine and a half minutes ahead. The issue operations go through the issue library's objects, which
keep the token the session was created with; only the direct REST calls send
the renewed token. The package's build script reads the
version from the package's `__init__.py` and the requirement names from
`requirements.txt`.

This project models that core and proves properties about it:

- `errors.dfy` (`Errors`): Python's `None`-or-value, the HTTP methods of the requests sent, and the exceptions the code raises.
- `py_strings.dfy` (`PyStrings`): the Python string operations the code relies on, with Python's semantics: `startswith`, `split`, `rsplit("/", 1)`, slicing with clamped and negative bounds, and `str()` of an integer.
- `setup_script.dfy` (`SetupScript`): `get_version` and `get_install_requires`, as functions over the lines a file's `readlines()` returns.
- `github_authentication.dfy` (`GithubAuth`): the App credentials check, the JWT claim set and headers, and the two-request token exchange.
- `token_guard.dfy` (`TokenGuard`): the guard as a transition on the session's token state, plus properties over whole sequences of guarded calls.
- `issue_tracker.dfy` (`IssueTracker`): the repository's issue tracker as a class, and what finding, opening and closing an issue do to it.
- `forge_calls.dfy` (`ForgeCalls`): the direct REST calls for assigning and deleting branches, and the GitLab user-id lookup loop.
- `source_management.dfy` (`SourceManagement`): the session class. It has the constructor's checks in the source's order, the guard method, and every guarded operation. Operations nest the way the source nests them: `open_issue_if_not_exist` calls the guarded `get_issue`, and `assign` calls the guarded `_gitlab_assign`, which calls the guarded `_gitlab_fetch_userid`.

Time is whole seconds. A guarded call reads the clock once, as `now`. Each value
the outside world supplies is an input, carried in an `Env` value:

- GitHub's two answers to a token exchange.
- The status the forge gives each direct call.
- The GitLab user-search results.
- The JWT signer.

The session records each direct call it sends in a ghost `outbox` and counts its
token exchanges in a ghost `tokenRequests`. Each class method's contract ties
its outcome and new state to the guard's transition (`TokenGuard.GuardStep`)
and to a pure description of the operation (`IssueTracker.OpenIssue`,
`ForgeCalls.Assign`, and the others). The lemmas are proved about those
descriptions.

A static-token session is one created with `installation=False`. The guard's
docstring, "Check if access token as expired and refresh if necessary."
(`thoth/sourcemanagement/sourcemanagement.py:99`), describes only a token
check. So the evident intent is that a static-token session's calls pass
straight through, with nothing to refresh. The code does something else: the wrapped call sits inside
`if sourcemanagement.installation:`
(`thoth/sourcemanagement/sourcemanagement.py:104-110`). So every guarded
operation of a static-token session returns `None` and does nothing. The model
follows the code. `TokenGuard.GuardStep` answers `Skip` for such a session, and
every guarded method then returns `Skipped` with nothing changed.

`get_issue` walks `self.repository.get_issue_list()`. The issue library's
default listing holds open issues only, which the docstring of
`open_issue_if_not_exist` also says ("if does not exist already (as
opened)"). So the model's tracker keeps every issue, and `IssueTracker.Listed`
selects the open issues with the title. As a result, a closed issue is never
found again.

## Model

| member | source | states |
|---|---|---|
| `PyStrings.Find` | setup.py:30 | the first index at which the separator occurs, or none when it occurs nowhere (the scan under `split`) |
| `PyStrings.Split` | setup.py:41 | at least one piece; `SplitJoin`, `SplitPiecesFree` and `SplitLeftmost` together fix the pieces uniquely as Python's leftmost, non-overlapping cut |
| `PyStrings.SplitJoin` | setup.py:41 | joining the pieces of `split(sep)` with `sep` gives back the line |
| `PyStrings.SplitPiecesFree` | setup.py:41 | no piece of `split(sep)` contains the separator |
| `PyStrings.SplitLeftmost` | setup.py:41 | every cut is at the leftmost occurrence: each piece but the last, followed by the separator, has its first occurrence right after the piece, and the last piece has none; this holds also for a separator that overlaps itself, such as `" = "` |
| `PyStrings.SplitOverlapping` | setup.py:41 | `"x = = y".split(" = ")` is `["x", "= y"]`, not `["x =", "y"]` |
| `PyStrings.RFind` | thoth/sourcemanagement/sourcemanagement.py:67 | the index of the last `/`, with no `/` after it; none exactly when there is no `/` |
| `PyStrings.RSplitOnce` | thoth/sourcemanagement/sourcemanagement.py:67 | one or two pieces; with `RFind`, two exactly when there is a `/`, namely the text before and after the last one (`SplitSlug`, `SplitSlugJoin`) |
| `PyStrings.SliceDropsOneAndTwo` | setup.py:41 | `[1:-2]` drops the first and last two characters, and gives `""` on a string shorter than three |
| `PyStrings.Slice` | setup.py:41 | total for every pair of bounds and never longer than the string; `SliceDropsOneAndTwo` gives `[1:-2]` its meaning |
| `PyStrings.IntStr` | thoth/sourcemanagement/github_authentication.py:83 | `str()` of an int: a leading minus sign exactly for a negative number, and only digits for a non-negative one |
| `PyStrings.IntStrInjective` | thoth/sourcemanagement/github_authentication.py:83 | distinct integers print as distinct strings |
| `SetupScript.VersionOfLine` | setup.py:41 | IndexError exactly when the line has no `" = "` |
| `SetupScript.GetVersion` | setup.py:38-42 | ValueError exactly when no line starts with `"__version__ ="` |
| `SetupScript.GetVersionFirstMatch` | setup.py:38-41 | the first line starting with `"__version__ ="` alone decides the result |
| `SetupScript.GetVersionIgnoresLaterLines` | setup.py:38-41 | lines after a matching line never change the result |
| `SetupScript.VersionLineRoundTrip` | setup.py:41 | the line `__version__ = "v"` plus newline reads back as `v` when `v` has no `" = "` |
| `SetupScript.InitModuleVersion` | setup.py:35-41 | the package's `__init__.py`, whose version line is line 19 of that file, yields `"0.4.3"`, whatever comment, docstring or blank lines precede it |
| `SetupScript.FirstToken` | setup.py:30 | the entry is a prefix of its line with no space, that stops at the first space or is the whole line (newline kept) |
| `SetupScript.GetInstallRequires` | setup.py:30 | at most one entry per line, and no entry contains a space |
| `SetupScript.InstallRequiresAppend` | setup.py:30 | the comprehension works line by line: concatenated files give concatenated entries |
| `SetupScript.InstallRequiresPerLine` | setup.py:30 | with no empty line, entry `k` is the first token of line `k` |
| `SetupScript.InstallRequiresSkipsEmpty` | setup.py:30 | an empty line contributes no entry |
| `GithubAuth.ClaimSet` | thoth/sourcemanagement/github_authentication.py:56-65 | `iat` is now, `exp` is `iat + 600`, `iss` is the app id; the token is unexpired (section 4.1.4 of RFC 7519) exactly before `now + 600` |
| `GithubAuth.AppHeader` | thoth/sourcemanagement/github_authentication.py:54-72 | exactly the keys `Authorization` and `Accept`; the bearer credential is the JWT signed over the claim set; `Accept` is the machine-man preview type |
| `GithubAuth.ExchangeToken` | thoth/sourcemanagement/github_authentication.py:74-88 | a GET to the installation URL, then a POST to the token URL of the id it returned, both with the App headers; success exactly on status 201 with a readable body, giving its `"token"` field; ValueError on any other status. `GithubAuth.GithubAuthentication.GetAccessToken` is this exchange for the object's slug and App id, and only delegates to it |
| `GithubAuth.InstallationUrl` | thoth/sourcemanagement/github_authentication.py:78 | the URL lies under `https://api.github.com/repos/` and the slug reads back from a fixed position in it (hence `InstallationUrlInjective`) |
| `GithubAuth.FormatId` | thoth/sourcemanagement/github_authentication.py:79-83 | `"{}".format(installation_id)`: non-empty text that starts with `N` exactly when the id is missing (`None` prints as `"None"`, a number as its digits) |
| `GithubAuth.AccessTokensUrl` | thoth/sourcemanagement/github_authentication.py:83 | the URL lies under `https://api.github.com/app/installations/` and the installation id reads back from a fixed position in it (hence `AccessTokensUrlInjective`) |
| `GithubAuth.InstallationUrlInjective` | thoth/sourcemanagement/github_authentication.py:78 | the lookup URL names one repository slug |
| `GithubAuth.AccessTokensUrlInjective` | thoth/sourcemanagement/github_authentication.py:83 | the token URL names one installation id (a missing id prints as `None` and differs from every number) |
| `GithubAuth.GithubAuthentication.constructor` | thoth/sourcemanagement/github_authentication.py:36-43 | the slug, key text and app id are stored as given |
| `GithubAuth.GithubAuthentication.Create` | thoth/sourcemanagement/github_authentication.py:34-49 | ValueError exactly when the app id is missing or empty or the key text is empty; otherwise the credentials are stored |
| `TokenGuard.Lift` | thoth/sourcemanagement/sourcemanagement.py:104-112 | a run call yields its body's outcome, a skipped call yields `None`, a failed exchange propagates its exception |
| `TokenGuard.GuardStep` | thoth/sourcemanagement/sourcemanagement.py:103-110 | a static-token session is skipped and unchanged; the exchange raises through only when the deadline has strictly passed; a run call sees a deadline not yet passed; the state changes only on expiry, to the fetched token and `now + 570` |
| `TokenGuard.NestedGuardStable` | thoth/sourcemanagement/sourcemanagement.py:105-110 | right after a guard admitted a call, a second guard at the same instant admits it without asking for a token |
| `TokenGuard.GuardDeadlineMonotone` | thoth/sourcemanagement/sourcemanagement.py:105-109 | the guard never moves the deadline back |
| `TokenGuard.Refreshes` | thoth/sourcemanagement/sourcemanagement.py:105-109 | a sequence of calls refreshes at most once per call |
| `TokenGuard.NoRefreshBeforeDeadline` | thoth/sourcemanagement/sourcemanagement.py:105 | calls that happen no later than the deadline never renew the token |
| `TokenGuard.AtMostOneRefreshPerInterval` | thoth/sourcemanagement/sourcemanagement.py:105-109 | in any window of 570 seconds the guard renews the token at most once, whatever the order of the calls and however often the exchange fails |
| `TokenGuard.StaticSessionUnchanged` | thoth/sourcemanagement/sourcemanagement.py:104 | a static-token session's token state never changes over any sequence of calls |
| `IssueTracker.FirstListed` | thoth/sourcemanagement/sourcemanagement.py:122-126 | the position of the first listed issue with exactly that title, no earlier one matching; none exactly when no issue matches |
| `IssueTracker.FindIssue` | thoth/sourcemanagement/sourcemanagement.py:122-126 | the issue returned is in the tracker, open and titled exactly so; `None` exactly when no open issue has the title |
| `IssueTracker.FirstListedFrame` | thoth/sourcemanagement/sourcemanagement.py:122-124 | trackers that agree on which positions match give the same first match |
| `IssueTracker.LabelSet` | thoth/sourcemanagement/sourcemanagement.py:152 | `set(labels or [])`: the labels given, none when `None` |
| `IssueTracker.LabelSetIgnoresRepeats` | thoth/sourcemanagement/sourcemanagement.py:152 | a repeated label counts once; `None` and `[]` both give the empty set |
| `IssueTracker.OpenIssue` | thoth/sourcemanagement/sourcemanagement.py:136-155 | the issue returned is open, titled so and in the tracker afterwards; exactly one issue is added when none was listed under the title and none otherwise (the lemmas below give the rest) |
| `IssueTracker.OpenIssueExisting` | thoth/sourcemanagement/sourcemanagement.py:139-149 | an existing title: nothing is created and no other issue changes; the first match gains exactly one comment when a refresh producer exists and returns a non-empty comment, and none otherwise; that issue is returned |
| `IssueTracker.OpenIssueCreates` | thoth/sourcemanagement/sourcemanagement.py:150-153 | an absent title: exactly one open issue is appended, numbered next, with the title, the body and the deduplicated labels; from then on `get_issue` finds it |
| `IssueTracker.OpenIssueNumbered` | thoth/sourcemanagement/sourcemanagement.py:151 | opening keeps issue `k` numbered `k + 1` |
| `IssueTracker.OpenIssueIdempotent` | thoth/sourcemanagement/sourcemanagement.py:136-155 | opening the same title again without a refresh comment returns the same issue and changes nothing |
| `IssueTracker.CloseIssue` | thoth/sourcemanagement/sourcemanagement.py:160-166 | the tracker keeps its length, and when no open issue has the title it is left exactly as it was (nothing commented, nothing closed) |
| `IssueTracker.CloseIssueExisting` | thoth/sourcemanagement/sourcemanagement.py:165-166 | the first match gets the comment, even `None`, and is closed; nothing else about it changes, and no other issue changes |
| `IssueTracker.CloseIssueNumbered` | thoth/sourcemanagement/sourcemanagement.py:165-166 | closing keeps the numbering |
| `IssueTracker.CloseThenNothingListed` | thoth/sourcemanagement/sourcemanagement.py:160-166 | once the only open issue with the title is closed, `get_issue` finds none and a second close changes nothing, and opening the title again appends a fresh open issue numbered next |
| `IssueTracker.BuildFailedReport` | thoth/sourcemanagement/sourcemanagement.py:150-153 | on an empty tracker, labels `["bug", "bot", "bug"]` give issue number 1, open, labelled `{"bug", "bot"}` |
| `IssueTracker.Repository.GetIssue` | thoth/sourcemanagement/sourcemanagement.py:122-126 | the loop returns the first listed issue with the title, or `None` |
| `IssueTracker.Repository.CreateIssue` | thoth/sourcemanagement/sourcemanagement.py:151 | one open issue is appended, numbered next, with no comments or labels |
| `IssueTracker.Repository.AddLabels` | thoth/sourcemanagement/sourcemanagement.py:152 | the labels are added to that issue only |
| `IssueTracker.Repository.Comment` | thoth/sourcemanagement/sourcemanagement.py:146 | one comment is appended to that issue only |
| `IssueTracker.Repository.Close` | thoth/sourcemanagement/sourcemanagement.py:166 | that issue only is marked closed |
| `ForgeCalls.Url` | thoth/sourcemanagement/sourcemanagement.py:43 | GitHub endpoints lie under `https://api.github.com/repos/`, GitLab ones under `https://gitlab.com//api/v4/` |
| `ForgeCalls.RaiseForStatus` | thoth/sourcemanagement/sourcemanagement.py:178 | raises HTTPError exactly on a 4xx or 5xx status |
| `ForgeCalls.LastUserId` | thoth/sourcemanagement/sourcemanagement.py:189-190 | the id of the last user found; IndexError on an empty result |
| `ForgeCalls.LookupCalls` | thoth/sourcemanagement/sourcemanagement.py:184-188 | one search per username, in order, with the `token` header |
| `ForgeCalls.IdsOf` | thoth/sourcemanagement/sourcemanagement.py:190-192 | one search adds the last user's id when it is truthy, and nothing otherwise |
| `ForgeCalls.UserIds` | thoth/sourcemanagement/sourcemanagement.py:181-193 | at most one id per username, and no id is 0 |
| `ForgeCalls.Sent` | thoth/sourcemanagement/sourcemanagement.py:184-190 | every search is sent when the lookup returns; up to and including the first unreadable one when it raises |
| `ForgeCalls.UserIdsStopsAtError` | thoth/sourcemanagement/sourcemanagement.py:184-190 | once a search raises, later usernames change neither the outcome nor the calls sent |
| `ForgeCalls.FetchStopsAt` | thoth/sourcemanagement/sourcemanagement.py:184-190 | when every earlier search was readable, the first unreadable search raises the lookup's error and is the last search sent |
| `ForgeCalls.UserIdsAppend` | thoth/sourcemanagement/sourcemanagement.py:184-193 | ids come in username order: the lookup of `a + b` is that of `a` followed by that of `b` |
| `ForgeCalls.UserIdsSkipsFalsy` | thoth/sourcemanagement/sourcemanagement.py:191-192 | a username whose last user has id `None` or `0` contributes nothing |
| `ForgeCalls.UserIdsAllFound` | thoth/sourcemanagement/sourcemanagement.py:183-193 | when every last id is truthy, the result holds exactly those ids, one per username, in order |
| `ForgeCalls.UserIdsExample` | thoth/sourcemanagement/sourcemanagement.py:183-193 | alice (last of two users: 10), bob (20) and carol (0) give `[10, 20]` |
| `ForgeCalls.GitLabFetchUserIds` | thoth/sourcemanagement/sourcemanagement.py:183-193 | never more searches than usernames, and at least one for a non-empty list |
| `ForgeCalls.FetchUserIds` | thoth/sourcemanagement/sourcemanagement.py:183-193 | the loop returns or raises what `UserIds` describes and sends the searches `Sent` counts |
| `ForgeCalls.TokenHeader` | thoth/sourcemanagement/sourcemanagement.py:174 | `f"token {self.token}"`: an `Authorization` value with the `token ` scheme, followed by the token, or by `None` when it is missing |
| `ForgeCalls.GitHubAssign` | thoth/sourcemanagement/sourcemanagement.py:171-178 | one POST to the issue's assignees with the `token` header and the account names; raises exactly on a 4xx or 5xx status |
| `ForgeCalls.GitLabAssign` | thoth/sourcemanagement/sourcemanagement.py:198-206 | only GitLab is called; success needs every search to be readable and sends one search per assignee plus the PUT |
| `ForgeCalls.GitLabAssignSendsIds` | thoth/sourcemanagement/sourcemanagement.py:198-206 | readable searches: one search per assignee in order, then one PUT with the ids found and the `private_token` parameter, whose status decides the outcome |
| `ForgeCalls.GitLabAssignStopsEarly` | thoth/sourcemanagement/sourcemanagement.py:198 | an unreadable search raises its error and no PUT is sent |
| `ForgeCalls.GitHubDeleteBranch` | thoth/sourcemanagement/sourcemanagement.py:238-243 | one DELETE of `git/refs/heads/<branch>` with the `token` header; raises exactly on a 4xx or 5xx status |
| `ForgeCalls.GitLabDeleteBranch` | thoth/sourcemanagement/sourcemanagement.py:249-253 | one DELETE of `repository/branches/<branch>` with the `private_token` parameter; raises exactly on a 4xx or 5xx status |
| `ForgeCalls.Assign` | thoth/sourcemanagement/sourcemanagement.py:212-217 | every call goes to the session's own forge; another service type raises NotImplementedError and sends nothing (`AssignStaysOnForge` adds the converse) |
| `ForgeCalls.DeleteBranch` | thoth/sourcemanagement/sourcemanagement.py:279-284 | every call goes to the session's own forge, one DELETE for GitHub and GitLab; another service type raises NotImplementedError and sends nothing |
| `ForgeCalls.AssignStaysOnForge` | thoth/sourcemanagement/sourcemanagement.py:212-217 | GitHub sessions call only GitHub and GitLab sessions only GitLab; any other service type raises NotImplementedError and sends nothing |
| `ForgeCalls.AllOnUrls` | thoth/sourcemanagement/sourcemanagement.py:43 | every call of an effect that stays on a forge is sent to a URL under that forge's API root |
| `ForgeCalls.DeleteBranchStaysOnForge` | thoth/sourcemanagement/sourcemanagement.py:279-284 | the same dispatch for deleting a branch: exactly one DELETE on the session's forge, or NotImplementedError with nothing sent |
| `SourceManagement.SplitSlug` | thoth/sourcemanagement/sourcemanagement.py:67 | ValueError exactly when the slug has no `/`; otherwise `namespace + "/" + repo == slug` and `repo` has no `/` |
| `SourceManagement.SplitSlugJoin` | thoth/sourcemanagement/sourcemanagement.py:67 | conversely, any namespace and `/`-free name joined by `/` split back into themselves |
| `SourceManagement.InitialToken` | thoth/sourcemanagement/sourcemanagement.py:73-77 | a static-token session keeps its token and fails with ValueError exactly when the token is falsy; an installation session fails on missing App credentials, and otherwise takes the token exchange's result |
| `SourceManagement.SourceManagement.constructor` | thoth/sourcemanagement/sourcemanagement.py:62-71 | the session's fields hold the given values and nothing has been sent |
| `SourceManagement.SourceManagement.Create` | thoth/sourcemanagement/sourcemanagement.py:49-80 | errors in the source's order (slug, token or installation, credentials and exchange, service type) and success exactly when none applies; deadline `now + 570`; one token exchange for an installation session |
| `SourceManagement.SourceManagement.RefreshAccessToken` | thoth/sourcemanagement/sourcemanagement.py:99-112 | the decision and new token state are the guard's transition; one token request exactly when the deadline has strictly passed |
| `SourceManagement.SourceManagement.NestedCallAdmitted` | thoth/sourcemanagement/sourcemanagement.py:138 | a guarded call made from inside an admitted one is admitted at the same state |
| `SourceManagement.SourceManagement.GetAccessToken` | thoth/sourcemanagement/sourcemanagement.py:114-117 | the token and deadline after the guard, or `None` for a static-token session |
| `SourceManagement.SourceManagement.GetIssue` | thoth/sourcemanagement/sourcemanagement.py:119-126 | the first listed issue with the title after the guard; the tracker is untouched |
| `SourceManagement.SourceManagement.OpenIssueIfNotExist` | thoth/sourcemanagement/sourcemanagement.py:128-155 | the tracker and result are those `OpenIssue` describes when admitted, with a single token refresh across the nested `get_issue`; nothing changes otherwise |
| `SourceManagement.SourceManagement.CloseIssueIfExists` | thoth/sourcemanagement/sourcemanagement.py:157-166 | the tracker is as `CloseIssue` describes when admitted, with a single token refresh across the nested `get_issue`; nothing changes otherwise |
| `SourceManagement.SourceManagement.GithubAssign` | thoth/sourcemanagement/sourcemanagement.py:168-178 | the calls and outcome of `GitHubAssign` with the token after the guard |
| `SourceManagement.SourceManagement.GitlabFetchUserid` | thoth/sourcemanagement/sourcemanagement.py:180-193 | the searches and outcome of the user-id lookup with the token after the guard |
| `SourceManagement.SourceManagement.GitlabAssign` | thoth/sourcemanagement/sourcemanagement.py:195-206 | the calls and outcome of `GitLabAssign`, with a single token refresh across the nested lookup |
| `SourceManagement.SourceManagement.Assign` | thoth/sourcemanagement/sourcemanagement.py:208-217 | the calls and outcome of the dispatch `ForgeCalls.Assign` over the service type, with one refresh at most |
| `SourceManagement.SourceManagement.GithubDeleteBranch` | thoth/sourcemanagement/sourcemanagement.py:235-244 | the call and outcome of `GitHubDeleteBranch` with the token after the guard |
| `SourceManagement.SourceManagement.GitlabDeleteBranch` | thoth/sourcemanagement/sourcemanagement.py:246-253 | the call and outcome of `GitLabDeleteBranch` with the token after the guard |
| `SourceManagement.SourceManagement.DeleteBranch` | thoth/sourcemanagement/sourcemanagement.py:275-284 | the calls and outcome of the dispatch `ForgeCalls.DeleteBranch` over the service type, with one refresh at most |

## Left out

- `_init_helper`, `list_branches`, `get_prs` and `open_merge_request`: these are thin wrappers over the issue library's service and project objects, whose behaviour the repository does not contain. Only the `NotImplementedError` that `_init_helper` raises for another service type is modelled, in `SourceManagement.SourceManagement.Create`.
- HTTP traffic and JSON decoding: every reply is an input, reduced to the fields the code reads. `ForgeCalls.ForgeReplies` answers as a function of the request, so two identical requests (a username searched twice, say) get the same answer, where the forge could answer each separately. A body of the wrong shape becomes `MalformedResponse`, where Python raises a JSON, attribute or type error.
- `quote_plus` on the GitLab project path: it is a parameter of `ForgeCalls.Url`, and the recorded calls keep their endpoint structured.
- RS256 signing, PEM key loading and the encoding of the key to `cert_bytes`: the JWT is the result of a `sign` parameter applied to the claim set, and a key that does not load is not modelled.
- Environment variables and file reads: the text of the private key file and the `GITHUB_APP_ID` value are parameters. A missing key file (`FileNotFoundError`) is not modelled. The lines of `__init__.py` and `requirements.txt` are also parameters, and `setuptools.setup` is not modelled.
- The clock: one integer `now` per guarded call. The guard's two reads of `datetime.now()`, and the two `time.time()` reads in one token exchange, give the same value. The model also uses this one `now` for two different clocks: the guard's local `datetime.now()` and the JWT's epoch seconds `int(time.time())`.
- `SourceManagement.SourceManagement.GetIssue`, `OpenIssueIfNotExist`, `CloseIssueIfExists`: the issue library's service and project objects are opened once, by `_init_helper` during construction (sourcemanagement.py:80, 86-95), with the construction-time token. The guard replaces `self.token` but never reopens them, so listing, creating, commenting on, labelling and closing issues keep using the first token after every refresh. Only the direct REST calls send the refreshed token. The model's `Repository` carries no token and its calls never fail, so it does not show this. `GuardStep`'s promise that the token's deadline has not passed is about the session's `token` field only.
- `SourceManagement.SourceManagement.OpenIssueIfNotExist`, `CloseIssueIfExists`, `GitlabAssign`, `Assign` and `DeleteBranch`: a nested guarded call runs at the outer call's instant. Its own guard therefore always admits it without a refresh. In the source each nested guard reads the clock again, so an inner guard one second after an outer guard at its deadline would refresh. If that exchange failed, it would raise ValueError after the outer guard had admitted the call. The model has no such path.
- Issue numbers and listing order: the forge assigns the numbers. The model numbers issue `k` of the tracker as `k + 1`, so a new issue gets the next number. It also takes the issue library's default listing to be in creation order, oldest first. The repository does not show that order, and it decides which of two open issues with the same title `get_issue` returns.
- Issue handles: `get_issue` returns a live issue object. The model returns the issue's value as it stands after the call.
- Logging, the exception classes of `exception.py` (raised only by the left-out wrappers), and concurrent use of one session.
- `TokenGuard.Refreshes`: states only the bound by the number of calls. The sharper facts about refreshes are the lemmas `NoRefreshBeforeDeadline` and `AtMostOneRefreshPerInterval`.
