/** The REST calls a session makes to GitHub and GitLab directly: assign
    users to an issue and delete a branch on either forge, and look GitLab
    user ids up by username. Each operation is described by the calls it
    sends, in order, and what it returns or raises; the forge's answers
    are inputs. */
module ForgeCalls {
  import opened Errors
  import opened PyStrings

  const GitHubApi := "https://api.github.com"
  const GitLabApi := "https://gitlab.com//api/v4"

  /** The forges a session can talk to; any other service type is not
      implemented. */
  datatype ServiceType = GitHub | GitLab | Unsupported(name: string)

  /** The resources the direct calls address. */
  datatype Endpoint =
    | GitHubAssignees(slug: string, issueId: int)
    | GitLabUsers(username: string)
    | GitLabIssue(slug: string, issueId: int)
    | GitHubBranchRef(slug: string, branch: string)
    | GitLabBranch(slug: string, branch: string)

  predicate OnGitHub(e: Endpoint) {
    e.GitHubAssignees? || e.GitHubBranchRef?
  }

  /** The URL of an endpoint; `quotePlus` is the URL-encoding applied to
      the GitLab project path. */
  function Url(e: Endpoint, quotePlus: string -> string): (url: string)
    ensures OnGitHub(e) ==> StartsWith(url, GitHubApi + "/repos/")
    ensures !OnGitHub(e) ==> StartsWith(url, GitLabApi + "/")
  {
    match e
    case GitHubAssignees(slug, id) => (GitHubApi + "/repos/") + (slug + "/issues/" + IntStr(id) + "/assignees")
    case GitLabUsers(name) => (GitLabApi + "/") + ("users?username=" + name)
    case GitLabIssue(slug, id) => (GitLabApi + "/") + ("projects/" + quotePlus(slug) + "/issues/" + IntStr(id))
    case GitHubBranchRef(slug, branch) => (GitHubApi + "/repos/") + (slug + "/git/refs/heads/" + branch)
    case GitLabBranch(slug, branch) =>
      (GitLabApi + "/") + ("projects/" + quotePlus(slug) + "/repository/branches/" + branch)
  }

  /** How a call carries the session's token: an `Authorization` header
      value, or the `private_token` query parameter (which `requests`
      leaves out when the token is `None`). */
  datatype Credential = AuthorizationHeader(value: string) | PrivateTokenParam(token: Option<string>)

  /** `f"token {self.token}"`: a missing token prints as "None". */
  function TokenHeader(token: Option<string>): (c: Credential)
    ensures c.AuthorizationHeader? && StartsWith(c.value, "token ")
    // the token reads back after the scheme; a missing one prints as "None"
    ensures c.value[|"token "|..] == if token.Some? then token.value else "None"
  {
    AuthorizationHeader("token " + (if token.Some? then token.value else "None"))
  }

  /** The JSON body a call sends. */
  datatype Payload = NoPayload | Assignees(names: seq<string>) | AssigneeIds(ids: seq<int>)

  datatype ForgeCall = ForgeCall(verb: Verb, endpoint: Endpoint, credential: Credential, payload: Payload)

  /** The decoded answer to a GitLab user search: the `"id"` of each user
      found, in order (`None` when a user has no id), or a body that is
      not a list of objects. */
  datatype UserReply = UndecodableUsers | Users(ids: seq<Option<int>>)

  /** How the forges answer: the status of each call, and the user search
      result for each username. */
  datatype ForgeReplies = ForgeReplies(status: ForgeCall -> int, users: string -> UserReply)

  /** The calls an operation sends, in order, and what it returns or raises. */
  datatype Effect<+T> = Effect(calls: seq<ForgeCall>, result: Result<T>)

  /** `response.raise_for_status()`: client errors (4xx) and server
      errors (5xx) raise. */
  function RaiseForStatus(status: int): (r: Result<()>)
    ensures r.Err? <==> 400 <= status < 600
    ensures r.Err? ==> r.error == HttpError(status)
  {
    if 400 <= status < 600 then Err(HttpError(status)) else Ok(())
  }

  /** `res.pop().get("id")`: the id of the last user found; popping an
      empty list raises IndexError. */
  function LastUserId(reply: UserReply): (r: Result<Option<int>>)
    ensures r.Err? <==> reply.UndecodableUsers? || reply.ids == []
    ensures r.Ok? ==> r.value == reply.ids[|reply.ids| - 1]
  {
    match reply
    case UndecodableUsers => Err(MalformedResponse)
    case Users(ids) => if ids == [] then Err(IndexError) else Ok(ids[|ids| - 1])
  }

  /** Python truthiness of a user id: `None` and `0` are false. */
  predicate TruthyId(id: Option<int>) {
    id.Some? && id.value != 0
  }

  /** The search for one username. */
  function UserLookup(username: string, token: Option<string>): ForgeCall {
    ForgeCall(Get, GitLabUsers(username), TokenHeader(token), NoPayload)
  }

  /** One search per username, in order. */
  function LookupCalls(usernames: seq<string>, token: Option<string>): (calls: seq<ForgeCall>)
    ensures |calls| == |usernames|
    ensures forall k :: 0 <= k < |usernames| ==> calls[k] == UserLookup(usernames[k], token)
  {
    seq(|usernames|, k requires 0 <= k < |usernames| => UserLookup(usernames[k], token))
  }

  /** The ids one search contributes: the last user's id when truthy. */
  function IdsOf(reply: UserReply): (r: Result<seq<int>>)
    ensures r.Err? <==> LastUserId(reply).Err?
    ensures r.Ok? ==> r.value == if TruthyId(LastUserId(reply).value) then [LastUserId(reply).value.value] else []
  {
    match LastUserId(reply)
    case Err(e) => Err(e)
    case Ok(id) => Ok(if TruthyId(id) then [id.value] else [])
  }

  /** Two lookups in a row: the first error raised, else both id lists. */
  function Chain(x: Result<seq<int>>, y: Result<seq<int>>): Result<seq<int>> {
    match x
    case Err(e) => Err(e)
    case Ok(p) =>
      match y
      case Err(e) => Err(e)
      case Ok(q) => Ok(p + q)
  }

  lemma ChainAssociative(x: Result<seq<int>>, y: Result<seq<int>>, z: Result<seq<int>>)
    ensures Chain(Chain(x, y), z) == Chain(x, Chain(y, z))
  {
    if x.Ok? && y.Ok? && z.Ok? {
      assert (x.value + y.value) + z.value == x.value + (y.value + z.value);
    }
  }

  /** What `_gitlab_fetch_userid(usernames)` returns or raises: the truthy
      ids of the last user of each search, in username order; the first
      search that cannot be read raises. */
  function UserIds(usernames: seq<string>, users: string -> UserReply): (r: Result<seq<int>>)
    ensures r.Ok? ==> |r.value| <= |usernames|
    ensures r.Ok? ==> forall k :: 0 <= k < |r.value| ==> r.value[k] != 0
    decreases |usernames|
  {
    if usernames == [] then Ok([])
    else Chain(UserIds(usernames[..|usernames| - 1], users), IdsOf(users(usernames[|usernames| - 1])))
  }

  /** How many searches `_gitlab_fetch_userid(usernames)` sends: all of
      them when it returns, up to and including the failing one when it
      raises. */
  function Sent(usernames: seq<string>, users: string -> UserReply): (n: nat)
    ensures n <= |usernames|
    ensures UserIds(usernames, users).Ok? ==> n == |usernames|
    ensures UserIds(usernames, users).Err? ==> 1 <= n && UserIds(usernames[..n], users).Err?
                                               && UserIds(usernames[..n - 1], users).Ok?
    decreases |usernames|
  {
    if usernames == [] then 0
    else
      var prefix := usernames[..|usernames| - 1];
      if UserIds(prefix, users).Err? then
        var n := Sent(prefix, users);
        assert prefix[..n] == usernames[..n] && prefix[..n - 1] == usernames[..n - 1];
        n
      else
        assert usernames[..|usernames| - 1] == prefix;
        assert usernames[..|usernames|] == usernames;
        |usernames|
  }

  /** Once a prefix of the usernames raises, the rest is never looked at. */
  lemma {:induction false} UserIdsStopsAtError(usernames: seq<string>, users: string -> UserReply, i: nat)
    requires i <= |usernames| && UserIds(usernames[..i], users).Err?
    ensures UserIds(usernames, users) == UserIds(usernames[..i], users)
    ensures Sent(usernames, users) == Sent(usernames[..i], users)
    decreases |usernames| - i
  {
    if i < |usernames| {
      var longer := usernames[..|usernames| - 1];
      assert longer[..i] == usernames[..i];
      UserIdsStopsAtError(longer, users, i);
    } else {
      assert usernames[..i] == usernames;
    }
  }

  /** The lookup works username by username: the ids for `a + b` are the
      ids for `a` followed by those for `b`, and an error in `a` comes
      first. */
  lemma {:induction false} UserIdsAppend(a: seq<string>, b: seq<string>, users: string -> UserReply)
    ensures UserIds(a + b, users) == Chain(UserIds(a, users), UserIds(b, users))
    decreases |b|
  {
    if b == [] {
      assert a + b == a;
      if UserIds(a, users).Ok? {
        assert UserIds(a, users).value + [] == UserIds(a, users).value;
      }
    } else {
      var b' := b[..|b| - 1];
      var last := IdsOf(users(b[|b| - 1]));
      assert (a + b)[..|a + b| - 1] == a + b';
      assert (a + b)[|a + b| - 1] == b[|b| - 1];
      UserIdsAppend(a, b', users);
      ChainAssociative(UserIds(a, users), UserIds(b', users), last);
    }
  }

  /** A username whose last user has no truthy id adds nothing. */
  lemma UserIdsSkipsFalsy(a: seq<string>, u: string, b: seq<string>, users: string -> UserReply)
    requires users(u).Users? && users(u).ids != [] && !TruthyId(users(u).ids[|users(u).ids| - 1])
    ensures UserIds(a + [u] + b, users) == UserIds(a + b, users)
  {
    assert [u][..0] == [];
    assert UserIds([u], users) == Ok([]);
    UserIdsAppend(a, [u], users);
    UserIdsAppend(a + [u], b, users);
    UserIdsAppend(a, b, users);
    if UserIds(a, users).Ok? {
      assert UserIds(a, users).value + [] == UserIds(a, users).value;
    }
  }

  /** When every search finds users and the last of each has a truthy id,
      the result holds those ids, one per username, in order. */
  lemma {:induction false} UserIdsAllFound(usernames: seq<string>, users: string -> UserReply)
    requires forall k :: 0 <= k < |usernames| ==>
               users(usernames[k]).Users? && users(usernames[k]).ids != []
               && TruthyId(users(usernames[k]).ids[|users(usernames[k]).ids| - 1])
    ensures UserIds(usernames, users).Ok?
    ensures |UserIds(usernames, users).value| == |usernames|
    ensures forall k :: 0 <= k < |usernames| ==>
              Some(UserIds(usernames, users).value[k]) == users(usernames[k]).ids[|users(usernames[k]).ids| - 1]
    decreases |usernames|
  {
    if usernames != [] {
      var prefix := usernames[..|usernames| - 1];
      assert forall k :: 0 <= k < |prefix| ==> prefix[k] == usernames[k];
      UserIdsAllFound(prefix, users);
    }
  }

  /** "alice" (two users found; the last has id 10), "bob" (id 20) and
      "carol" (id 0) give ids [10, 20]. */
  lemma UserIdsExample(users: string -> UserReply)
    requires users("alice") == Users([Some(3), Some(10)])
    requires users("bob") == Users([Some(20)])
    requires users("carol") == Users([Some(0)])
    ensures UserIds(["alice", "bob", "carol"], users) == Ok([10, 20])
  {
    assert ["alice", "bob", "carol"][..2] == ["alice", "bob"];
    assert ["alice", "bob"][..1] == ["alice"];
    assert ["alice"][..0] == [];
    assert IdsOf(users("alice")) == Ok([10]);
    assert IdsOf(users("bob")) == Ok([20]);
    assert IdsOf(users("carol")) == Ok([]);
    assert UserIds(["alice"], users) == Chain(Ok([]), Ok([10]));
    assert [] + [10] == [10];
    assert UserIds(["alice", "bob"], users) == Chain(Ok([10]), Ok([20]));
    assert [10] + [20] == [10, 20];
    assert UserIds(["alice", "bob", "carol"], users) == Chain(Ok([10, 20]), Ok([]));
    assert [10, 20] + [] == [10, 20];
  }

  /** One more username: its search is appended, and its ids follow the
      earlier ones. */
  lemma PrefixStep(usernames: seq<string>, users: string -> UserReply, token: Option<string>, i: nat)
    requires i < |usernames|
    ensures LookupCalls(usernames[..i + 1], token) == LookupCalls(usernames[..i], token) + [UserLookup(usernames[i], token)]
    ensures UserIds(usernames[..i + 1], users) == Chain(UserIds(usernames[..i], users), IdsOf(users(usernames[i])))
  {
    var p := usernames[..i + 1];
    assert |p| == i + 1 && p[..i] == usernames[..i] && p[i] == usernames[i];
  }

  /** The first search that cannot be read decides the outcome, and it is
      the last search sent. */
  lemma FetchStopsAt(usernames: seq<string>, users: string -> UserReply, i: nat)
    requires i < |usernames| && UserIds(usernames[..i], users).Ok? && IdsOf(users(usernames[i])).Err?
    ensures UserIds(usernames, users) == IdsOf(users(usernames[i]))
    ensures Sent(usernames, users) == i + 1
  {
    var p := usernames[..i + 1];
    assert |p| == i + 1 && p[..i] == usernames[..i] && p[i] == usernames[i];
    assert UserIds(p, users) == Chain(UserIds(usernames[..i], users), IdsOf(users(usernames[i])));
    assert Sent(p, users) == i + 1;
    UserIdsStopsAtError(usernames, users, i + 1);
  }

  /** The searches and the outcome of `_gitlab_fetch_userid`. */
  function GitLabFetchUserIds(usernames: seq<string>, token: Option<string>, users: string -> UserReply): (x: Effect<seq<int>>)
    ensures |x.calls| <= |usernames|
    ensures usernames != [] ==> x.calls != []
  {
    Effect(LookupCalls(usernames[..Sent(usernames, users)], token), UserIds(usernames, users))
  }

  /** The loop of `_gitlab_fetch_userid`: one search per username, in
      order, stopping at the first reply that cannot be read. */
  method FetchUserIds(usernames: seq<string>, token: Option<string>, users: string -> UserReply)
    returns (r: Result<seq<int>>, calls: seq<ForgeCall>)
    ensures Effect(calls, r) == GitLabFetchUserIds(usernames, token, users)
  {
    var ids: seq<int> := [];
    calls := [];
    var i := 0;
    while i < |usernames|
      invariant 0 <= i <= |usernames|
      invariant UserIds(usernames[..i], users) == Ok(ids)
      invariant calls == LookupCalls(usernames[..i], token)
    {
      var username := usernames[i];
      PrefixStep(usernames, users, token, i);
      calls := calls + [UserLookup(username, token)];
      match users(username)
      case UndecodableUsers =>
        FetchStopsAt(usernames, users, i);
        return Err(MalformedResponse), calls;
      case Users(found) =>
        if found == [] {
          FetchStopsAt(usernames, users, i);
          return Err(IndexError), calls;
        }
        var id := found[|found| - 1];
        var more := if TruthyId(id) then [id.value] else [];
        assert IdsOf(users(username)) == Ok(more);
        ids := ids + more;
      i := i + 1;
    }
    assert usernames[..i] == usernames;
    return Ok(ids), calls;
  }

  /** `_github_assign`: one POST listing the assignees by account name. */
  function GitHubAssign(slug: string, token: Option<string>, issueId: int, assignees: seq<string>,
                        replies: ForgeReplies): (x: Effect<()>)
    ensures |x.calls| == 1 && x.calls[0].verb == Post && x.calls[0].endpoint == GitHubAssignees(slug, issueId)
    ensures x.calls[0].credential == TokenHeader(token) && x.calls[0].payload == Assignees(assignees)
    ensures x.result.Err? <==> 400 <= replies.status(x.calls[0]) < 600
  {
    var call := ForgeCall(Post, GitHubAssignees(slug, issueId), TokenHeader(token), Assignees(assignees));
    Effect([call], RaiseForStatus(replies.status(call)))
  }

  /** `_gitlab_assign`: the id searches, then one PUT with the ids found. */
  function GitLabAssign(slug: string, token: Option<string>, issueId: int, assignees: seq<string>,
                        replies: ForgeReplies): (x: Effect<()>)
    ensures x.result.Ok? ==> UserIds(assignees, replies.users).Ok? && |x.calls| == |assignees| + 1
    ensures forall k :: 0 <= k < |x.calls| ==> !OnGitHub(x.calls[k].endpoint)
  {
    var fetch := GitLabFetchUserIds(assignees, token, replies.users);
    match fetch.result
    case Err(e) => Effect(fetch.calls, Err(e))
    case Ok(ids) =>
      var call := ForgeCall(Put, GitLabIssue(slug, issueId), PrivateTokenParam(token), AssigneeIds(ids));
      Effect(fetch.calls + [call], RaiseForStatus(replies.status(call)))
  }

  /** `assign`: dispatch on the service type. */
  function Assign(service: ServiceType, slug: string, token: Option<string>, issueId: int,
                  assignees: seq<string>, replies: ForgeReplies): (x: Effect<()>)
    ensures AllOn(x.calls, service)
    ensures service.Unsupported? ==> x == Effect([], Err(NotImplementedError))
  {
    match service
    case GitHub => GitHubAssign(slug, token, issueId, assignees, replies)
    case GitLab => GitLabAssign(slug, token, issueId, assignees, replies)
    case Unsupported(_) => Effect([], Err(NotImplementedError))
  }

  /** `_github_delete_branch`: one DELETE of the branch's ref. */
  function GitHubDeleteBranch(slug: string, token: Option<string>, branch: string, replies: ForgeReplies): (x: Effect<()>)
    ensures |x.calls| == 1 && x.calls[0].verb == Delete && x.calls[0].endpoint == GitHubBranchRef(slug, branch)
    ensures x.calls[0].credential == TokenHeader(token)
    ensures x.result.Err? <==> 400 <= replies.status(x.calls[0]) < 600
  {
    var call := ForgeCall(Delete, GitHubBranchRef(slug, branch), TokenHeader(token), NoPayload);
    Effect([call], RaiseForStatus(replies.status(call)))
  }

  /** `_gitlab_delete_branch`: one DELETE of the project's branch. */
  function GitLabDeleteBranch(slug: string, token: Option<string>, branch: string, replies: ForgeReplies): (x: Effect<()>)
    ensures |x.calls| == 1 && x.calls[0].verb == Delete && x.calls[0].endpoint == GitLabBranch(slug, branch)
    ensures x.calls[0].credential == PrivateTokenParam(token)
    ensures x.result.Err? <==> 400 <= replies.status(x.calls[0]) < 600
  {
    var call := ForgeCall(Delete, GitLabBranch(slug, branch), PrivateTokenParam(token), NoPayload);
    Effect([call], RaiseForStatus(replies.status(call)))
  }

  /** `delete_branch`: dispatch on the service type. */
  function DeleteBranch(service: ServiceType, slug: string, token: Option<string>, branch: string,
                        replies: ForgeReplies): (x: Effect<()>)
    ensures AllOn(x.calls, service)
    ensures service.Unsupported? ==> x == Effect([], Err(NotImplementedError))
    ensures !service.Unsupported? ==> |x.calls| == 1 && x.calls[0].verb == Delete
  {
    match service
    case GitHub => GitHubDeleteBranch(slug, token, branch, replies)
    case GitLab => GitLabDeleteBranch(slug, token, branch, replies)
    case Unsupported(_) => Effect([], Err(NotImplementedError))
  }

  /** Every call of an effect addresses the given forge. */
  predicate AllOn(calls: seq<ForgeCall>, service: ServiceType) {
    forall k :: 0 <= k < |calls| ==> (OnGitHub(calls[k].endpoint) <==> service.GitHub?)
  }

  /** The calls of an effect that stays on a forge are sent to URLs under
      that forge's API root: `https://api.github.com/repos/` for GitHub
      and `https://gitlab.com//api/v4/` otherwise. */
  lemma AllOnUrls(calls: seq<ForgeCall>, service: ServiceType, quotePlus: string -> string)
    requires AllOn(calls, service)
    ensures forall k :: 0 <= k < |calls| ==>
              StartsWith(Url(calls[k].endpoint, quotePlus),
                         if service.GitHub? then GitHubApi + "/repos/" else GitLabApi + "/")
  {
    forall k | 0 <= k < |calls|
      ensures StartsWith(Url(calls[k].endpoint, quotePlus),
                         if service.GitHub? then GitHubApi + "/repos/" else GitLabApi + "/")
    {
      assert OnGitHub(calls[k].endpoint) <==> service.GitHub?;
    }
  }

  /** Assigning talks only to the session's own forge, and an unsupported
      service raises NotImplementedError without sending anything. */
  lemma AssignStaysOnForge(service: ServiceType, slug: string, token: Option<string>, issueId: int,
                           assignees: seq<string>, replies: ForgeReplies)
    ensures var x := Assign(service, slug, token, issueId, assignees, replies);
            AllOn(x.calls, service)
            && (service.Unsupported? <==> x.result == Err(NotImplementedError) && x.calls == [])
  {
    var x := Assign(service, slug, token, issueId, assignees, replies);
    if service.GitLab? {
      var fetch := GitLabFetchUserIds(assignees, token, replies.users);
      assert forall k :: 0 <= k < |fetch.calls| ==> fetch.calls[k].endpoint.GitLabUsers?;
      assert x.calls != [];
    }
  }

  /** Deleting a branch talks only to the session's own forge, and an
      unsupported service raises NotImplementedError without sending
      anything. */
  lemma DeleteBranchStaysOnForge(service: ServiceType, slug: string, token: Option<string>, branch: string,
                                 replies: ForgeReplies)
    ensures var x := DeleteBranch(service, slug, token, branch, replies);
            AllOn(x.calls, service)
            && (service.Unsupported? <==> x.result == Err(NotImplementedError) && x.calls == [])
            && (!service.Unsupported? ==> |x.calls| == 1 && x.calls[0].verb == Delete
                                            && (x.result.Err? <==> 400 <= replies.status(x.calls[0]) < 600))
  {
  }

  /** GitLab assignment: when every search can be read, one search per
      assignee goes out in order, then a single PUT carrying the ids found,
      whose status decides the outcome. */
  lemma GitLabAssignSendsIds(slug: string, token: Option<string>, issueId: int, assignees: seq<string>,
                             replies: ForgeReplies)
    requires UserIds(assignees, replies.users).Ok?
    ensures var x := GitLabAssign(slug, token, issueId, assignees, replies);
            var put := ForgeCall(Put, GitLabIssue(slug, issueId), PrivateTokenParam(token),
                                 AssigneeIds(UserIds(assignees, replies.users).value));
            x.calls == LookupCalls(assignees, token) + [put]
            && x.result == RaiseForStatus(replies.status(put))
  {
    assert assignees[..|assignees|] == assignees;
  }

  /** GitLab assignment: a search that cannot be read raises before any
      PUT is sent. */
  lemma GitLabAssignStopsEarly(slug: string, token: Option<string>, issueId: int, assignees: seq<string>,
                               replies: ForgeReplies)
    requires UserIds(assignees, replies.users).Err?
    ensures var x := GitLabAssign(slug, token, issueId, assignees, replies);
            x.result == Err(UserIds(assignees, replies.users).error)
            && forall k :: 0 <= k < |x.calls| ==> x.calls[k].verb == Get
  {
  }
}
