/** A source management session for one repository on GitHub or GitLab:
    construction, the token guard in front of every public operation, and
    the operations themselves. The two HTTP replies of a token exchange,
    the forges' answers to direct calls, the JWT signer and the clock are
    the `Env` of each call; the issue tracker is the `Repository` the
    session was opened on. */
module SourceManagement {
  import opened Errors
  import opened PyStrings
  import opened TokenGuard
  import opened IssueTracker
  import GithubAuth
  import ForgeCalls

  /** What one call of a session sees of the outside world: the time, the
      JWT signer, GitHub's answers to a token exchange, and the forges'
      answers to direct calls. */
  datatype Env = Env(now: int, sign: GithubAuth.Claims -> string, app: GithubAuth.AppReplies,
                     forge: ForgeCalls.ForgeReplies)

  /** `namespace, repo = slug.rsplit("/", 1)`: unpacking fails unless the
      slug contains a "/". */
  function SplitSlug(slug: string): (r: Result<(string, string)>)
    ensures r.Ok? <==> '/' in slug
    ensures r.Err? ==> r.error == ValueError(SlugUnpack)
    ensures r.Ok? ==> r.value.0 + "/" + r.value.1 == slug && '/' !in r.value.1
  {
    var parts := RSplitOnce(slug, '/');
    if |parts| != 2 then Err(ValueError(SlugUnpack))
    else
      var i := RFind(slug, '/').value;
      assert slug == slug[..i] + "/" + slug[i + 1..];
      Ok((parts[0], parts[1]))
  }

  /** The split is the only one with a "/"-free repository name: any
      namespace and name joined by "/" split back into themselves. */
  lemma SplitSlugJoin(namespace: string, repo: string)
    requires '/' !in repo
    ensures SplitSlug(namespace + "/" + repo) == Ok((namespace, repo))
  {
    var slug := namespace + "/" + repo;
    var i := |namespace|;
    assert slug[i] == '/';
    assert forall j :: i < j < |slug| ==> slug[j] == repo[j - i - 1];
    var r := RFind(slug, '/');
    assert r.Some?;
    assert r.value == i;
    assert slug[..i] == namespace && slug[i + 1..] == repo;
  }

  /** The token a new session holds once authentication is done, or the
      exception construction raises first: a static-token session needs a
      truthy token; an installation session needs both App credentials and
      then exchanges them for a token. */
  function InitialToken(slug: string, token: Option<string>, installation: bool, privateKey: string,
                        appId: Option<string>, env: Env): (r: Result<Option<string>>)
    ensures !installation ==> (r.Err? <==> !Truthy(token))
    ensures !installation && r.Ok? ==> r.value == token
    ensures !installation && r.Err? ==> r.error == ValueError(NoTokenNorInstallation)
    ensures installation && (!Truthy(appId) || privateKey == "") ==> r == Err(ValueError(MissingCredentials))
    ensures installation && Truthy(appId) && privateKey != "" ==>
              r == GithubAuth.ExchangeToken(slug, appId.value, env.now, env.sign, env.app).result
  {
    if !installation then
      if !Truthy(token) then Err(ValueError(NoTokenNorInstallation)) else Ok(token)
    else if !Truthy(appId) || privateKey == "" then Err(ValueError(MissingCredentials))
    else GithubAuth.ExchangeToken(slug, appId.value, env.now, env.sign, env.app).result
  }

  /** An open session. The service type, the slug and its parts, the
      authentication mode and the authenticator never change; the token and
      its deadline change only in the guard. `tokenRequests` counts token
      exchanges and `outbox` records the direct calls sent to the forges. */
  class SourceManagement {
    const serviceType: ForgeCalls.ServiceType
    const serviceUrl: string
    const slug: string
    const namespace: string
    const repo: string
    const installation: bool
    const githubAuth: GithubAuth.GithubAuthentication?
    const repository: Repository
    var token: Option<string>
    var tokenExpireTime: int
    ghost var tokenRequests: nat
    ghost var outbox: seq<ForgeCalls.ForgeCall>

    ghost predicate Valid()
      reads this, repository
    {
      && namespace + "/" + repo == slug && '/' !in repo
      && (installation ==> githubAuth != null && githubAuth.slug == slug && githubAuth.Valid())
      && repository.Valid()
    }

    /** The part of the session the guard works on. */
    function State(): TokenState
      reads this
    {
      TokenState(installation, token, tokenExpireTime)
    }

    /** What the authenticator would return or raise if asked for a token
        in `env`. */
    function Fetched(env: Env): Result<Option<string>> {
      if githubAuth == null then Ok(None)
      else GithubAuth.ExchangeToken(slug, githubAuth.githubAppId, env.now, env.sign, env.app).result
    }

    /** The guard's decision and new state for a call made in `env`. */
    function Step(env: Env): (Admission, TokenState)
      reads this
    {
      GuardStep(State(), env.now, Fetched(env))
    }

    constructor (serviceType: ForgeCalls.ServiceType, serviceUrl: string, slug: string, namespace: string,
                 repo: string, installation: bool, githubAuth: GithubAuth.GithubAuthentication?,
                 repository: Repository, token: Option<string>, tokenExpireTime: int, tokenRequests: nat)
      ensures this.serviceType == serviceType && this.serviceUrl == serviceUrl && this.slug == slug
      ensures this.namespace == namespace && this.repo == repo && this.installation == installation
      ensures this.githubAuth == githubAuth && this.repository == repository
      ensures this.token == token && this.tokenExpireTime == tokenExpireTime
      ensures this.tokenRequests == tokenRequests && outbox == []
    {
      this.serviceType := serviceType;
      this.serviceUrl := serviceUrl;
      this.slug := slug;
      this.namespace := namespace;
      this.repo := repo;
      this.installation := installation;
      this.githubAuth := githubAuth;
      this.repository := repository;
      this.token := token;
      this.tokenExpireTime := tokenExpireTime;
      this.tokenRequests := tokenRequests;
      outbox := [];
    }

    /** `SourceManagement(service_type, service_url, slug, token,
        installation)` in `env`, with the text of the App's private key file
        and the `GITHUB_APP_ID` setting. The checks run in the source's
        order: the slug, then the token or installation, then the App
        credentials and the token exchange, then the service type. The
        deadline is set nine and a half minutes ahead in every case. */
    static method Create(serviceType: ForgeCalls.ServiceType, serviceUrl: string, slug: string,
                         token: Option<string>, installation: bool, privateKey: string,
                         appId: Option<string>, repository: Repository, env: Env)
      returns (r: Result<SourceManagement>)
      requires repository.Valid()
      ensures SplitSlug(slug).Err? ==> r == Err(ValueError(SlugUnpack))
      ensures SplitSlug(slug).Ok? && InitialToken(slug, token, installation, privateKey, appId, env).Err? ==>
                r == Err(InitialToken(slug, token, installation, privateKey, appId, env).error)
      ensures (SplitSlug(slug).Ok? && InitialToken(slug, token, installation, privateKey, appId, env).Ok?
               && serviceType.Unsupported?) ==> r == Err(NotImplementedError)
      ensures r.Ok? <==> SplitSlug(slug).Ok?
                         && InitialToken(slug, token, installation, privateKey, appId, env).Ok?
                         && !serviceType.Unsupported?
      ensures r.Ok? ==> fresh(r.value) && r.value.Valid()
      ensures r.Ok? ==> r.value.serviceType == serviceType && r.value.serviceUrl == serviceUrl
                        && r.value.slug == slug && r.value.installation == installation
                        && r.value.repository == repository
                        && (r.value.namespace, r.value.repo) == SplitSlug(slug).value
      ensures r.Ok? ==> r.value.token == InitialToken(slug, token, installation, privateKey, appId, env).value
                        && r.value.tokenExpireTime == env.now + RefreshInterval
                        && r.value.tokenRequests == (if installation then 1 else 0)
                        && r.value.outbox == []
    {
      var split := SplitSlug(slug);
      if split.Err? {
        return Err(split.error);
      }
      var (namespace, repo) := split.value;
      var deadline := env.now + RefreshInterval;
      if !installation && !Truthy(token) {
        return Err(ValueError(NoTokenNorInstallation));
      }
      var auth: GithubAuth.GithubAuthentication? := null;
      var current := token;
      if installation {
        var created := GithubAuth.GithubAuthentication.Create(slug, privateKey, appId);
        if created.Err? {
          return Err(created.error);
        }
        auth := created.value;
        var exchange := auth.GetAccessToken(env.now, env.sign, env.app);
        if exchange.result.Err? {
          return Err(exchange.result.error);
        }
        current := exchange.result.value;
      }
      if serviceType.Unsupported? {
        return Err(NotImplementedError);
      }
      var session := new SourceManagement(serviceType, serviceUrl, slug, namespace, repo, installation, auth,
                                          repository, current, deadline, if installation then 1 else 0);
      return Ok(session);
    }

    /** The guard `refresh_access_token`, run in front of a call made in
        `env`: renews the token of an installation session whose deadline
        has passed, and decides whether the wrapped call runs. */
    method RefreshAccessToken(env: Env) returns (a: Admission)
      requires Valid()
      modifies this
      ensures Valid()
      ensures (a, State()) == old(Step(env))
      ensures tokenRequests == old(tokenRequests) + (if Expired(old(State()), env.now) then 1 else 0)
      ensures outbox == old(outbox)
    {
      if !installation {
        return Skip;
      }
      if env.now > tokenExpireTime {
        tokenRequests := tokenRequests + 1;
        var exchange := githubAuth.GetAccessToken(env.now, env.sign, env.app);
        if exchange.result.Err? {
          return Abort(exchange.result.error);
        }
        token := exchange.result.value;
        tokenExpireTime := env.now + RefreshInterval;
      }
      return Run;
    }

    /** After the guard admitted a call, a nested guarded call at the same
        instant is admitted too and leaves the token alone. */
    lemma NestedCallAdmitted(env: Env, before: TokenState)
      requires GuardStep(before, env.now, Fetched(env)) == (Run, State())
      ensures Step(env) == (Run, State())
    {
      NestedGuardStable(before, env.now, Fetched(env), Fetched(env));
    }

    /** `get_access_token`: the token and its deadline after the guard. */
    method GetAccessToken(env: Env) returns (r: Call<(Option<string>, int)>)
      requires Valid()
      modifies this
      ensures Valid()
      ensures State() == old(Step(env)).1
      ensures tokenRequests == old(tokenRequests) + (if Expired(old(State()), env.now) then 1 else 0)
      ensures outbox == old(outbox)
      ensures r == Lift(old(Step(env)).0, Returned((token, tokenExpireTime)))
    {
      var a := RefreshAccessToken(env);
      if !a.Run? {
        return Lift(a, Skipped);
      }
      return Returned((token, tokenExpireTime));
    }

    /** `get_issue(title)`: the first listed issue with that title. */
    method GetIssue(env: Env, title: string) returns (r: Call<Option<Issue>>)
      requires Valid()
      modifies this
      ensures Valid()
      ensures State() == old(Step(env)).1
      ensures tokenRequests == old(tokenRequests) + (if Expired(old(State()), env.now) then 1 else 0)
      ensures outbox == old(outbox)
      ensures r == Lift(old(Step(env)).0, Returned(FindIssue(repository.issues, title)))
    {
      var a := RefreshAccessToken(env);
      if !a.Run? {
        return Lift(a, Skipped);
      }
      var found := repository.GetIssue(title);
      return Returned(found);
    }

    /** `open_issue_if_not_exist(title, body, refresh_comment, labels)`. */
    method OpenIssueIfNotExist(env: Env, title: string, body: string, refresh: Option<Issue -> Option<string>>,
                               labels: Option<seq<string>>) returns (r: Call<Issue>)
      requires Valid()
      modifies this, repository
      ensures Valid()
      ensures State() == old(Step(env)).1
      ensures tokenRequests == old(tokenRequests) + (if Expired(old(State()), env.now) then 1 else 0)
      ensures outbox == old(outbox)
      ensures var (after, issue) := OpenIssue(old(repository.issues), title, body, refresh, labels);
              r == Lift(old(Step(env)).0, Returned(issue))
              && repository.issues == if old(Step(env)).0.Run? then after else old(repository.issues)
    {
      ghost var before := State();
      var a := RefreshAccessToken(env);
      if !a.Run? {
        return Lift(a, Skipped);
      }
      NestedCallAdmitted(env, before);
      var inner := GetIssue(env, title);
      match inner
      case Returned(found) =>
        if found.Some? {
          var issue := found.value;
          if refresh.None? {
            return Returned(issue);
          }
          var comment := refresh.value(issue);
          if Truthy(comment) {
            repository.Comment(issue.id, comment);
            return Returned(repository.issues[issue.id - 1]);
          }
          return Returned(issue);
        } else {
          var created := repository.CreateIssue(title, body);
          repository.AddLabels(created.id, LabelSet(labels));
          assert {} + LabelSet(labels) == LabelSet(labels);
          return Returned(repository.issues[created.id - 1]);
        }
      case _ =>
        assert false;
    }

    /** `close_issue_if_exists(title, comment)`. */
    method CloseIssueIfExists(env: Env, title: string, comment: Option<string>) returns (r: Call<()>)
      requires Valid()
      modifies this, repository
      ensures Valid()
      ensures State() == old(Step(env)).1
      ensures tokenRequests == old(tokenRequests) + (if Expired(old(State()), env.now) then 1 else 0)
      ensures outbox == old(outbox)
      ensures r == Lift(old(Step(env)).0, Returned(()))
      ensures repository.issues == if old(Step(env)).0.Run? then CloseIssue(old(repository.issues), title, comment)
                                   else old(repository.issues)
    {
      ghost var before := State();
      var a := RefreshAccessToken(env);
      if !a.Run? {
        return Lift(a, Skipped);
      }
      NestedCallAdmitted(env, before);
      var inner := GetIssue(env, title);
      match inner
      case Returned(found) =>
        if found.None? {
          return Returned(());
        }
        repository.Comment(found.value.id, comment);
        repository.Close(found.value.id);
        return Returned(());
      case _ =>
        assert false;
    }

    /** `_github_assign(issue, assignees)`. */
    method GithubAssign(env: Env, issue: Issue, assignees: seq<string>) returns (r: Call<()>)
      requires Valid()
      modifies this
      ensures Valid()
      ensures State() == old(Step(env)).1
      ensures tokenRequests == old(tokenRequests) + (if Expired(old(State()), env.now) then 1 else 0)
      ensures var x := ForgeCalls.GitHubAssign(slug, token, issue.id, assignees, env.forge);
              r == Lift(old(Step(env)).0, FromResult(x.result))
              && outbox == old(outbox) + if old(Step(env)).0.Run? then x.calls else []
    {
      var a := RefreshAccessToken(env);
      if !a.Run? {
        return Lift(a, Skipped);
      }
      var x := ForgeCalls.GitHubAssign(slug, token, issue.id, assignees, env.forge);
      outbox := outbox + x.calls;
      return FromResult(x.result);
    }

    /** `_gitlab_fetch_userid(usernames)`. */
    method GitlabFetchUserid(env: Env, usernames: seq<string>) returns (r: Call<seq<int>>)
      requires Valid()
      modifies this
      ensures Valid()
      ensures State() == old(Step(env)).1
      ensures tokenRequests == old(tokenRequests) + (if Expired(old(State()), env.now) then 1 else 0)
      ensures var x := ForgeCalls.GitLabFetchUserIds(usernames, token, env.forge.users);
              r == Lift(old(Step(env)).0, FromResult(x.result))
              && outbox == old(outbox) + if old(Step(env)).0.Run? then x.calls else []
    {
      var a := RefreshAccessToken(env);
      if !a.Run? {
        return Lift(a, Skipped);
      }
      var ids, calls := ForgeCalls.FetchUserIds(usernames, token, env.forge.users);
      outbox := outbox + calls;
      return FromResult(ids);
    }

    /** `_gitlab_assign(issue, assignees)`. */
    method GitlabAssign(env: Env, issue: Issue, assignees: seq<string>) returns (r: Call<()>)
      requires Valid()
      modifies this
      ensures Valid()
      ensures State() == old(Step(env)).1
      ensures tokenRequests == old(tokenRequests) + (if Expired(old(State()), env.now) then 1 else 0)
      ensures var x := ForgeCalls.GitLabAssign(slug, token, issue.id, assignees, env.forge);
              r == Lift(old(Step(env)).0, FromResult(x.result))
              && outbox == old(outbox) + if old(Step(env)).0.Run? then x.calls else []
    {
      ghost var before := State();
      var a := RefreshAccessToken(env);
      if !a.Run? {
        return Lift(a, Skipped);
      }
      NestedCallAdmitted(env, before);
      var fetched := GitlabFetchUserid(env, assignees);
      match fetched
      case Raised(e) =>
        return Raised(e);
      case Returned(ids) =>
        var put := ForgeCalls.ForgeCall(Put, ForgeCalls.GitLabIssue(slug, issue.id),
                                        ForgeCalls.PrivateTokenParam(token), ForgeCalls.AssigneeIds(ids));
        outbox := outbox + [put];
        return FromResult(ForgeCalls.RaiseForStatus(env.forge.status(put)));
      case Skipped =>
        assert false;
    }

    /** `assign(issue, assignees)`: dispatch on the service type. */
    method Assign(env: Env, issue: Issue, assignees: seq<string>) returns (r: Call<()>)
      requires Valid()
      modifies this
      ensures Valid()
      ensures State() == old(Step(env)).1
      ensures tokenRequests == old(tokenRequests) + (if Expired(old(State()), env.now) then 1 else 0)
      ensures var x := ForgeCalls.Assign(serviceType, slug, token, issue.id, assignees, env.forge);
              r == Lift(old(Step(env)).0, FromResult(x.result))
              && outbox == old(outbox) + if old(Step(env)).0.Run? then x.calls else []
    {
      ghost var before := State();
      var a := RefreshAccessToken(env);
      if !a.Run? {
        return Lift(a, Skipped);
      }
      NestedCallAdmitted(env, before);
      match serviceType
      case GitHub =>
        r := GithubAssign(env, issue, assignees);
      case GitLab =>
        r := GitlabAssign(env, issue, assignees);
      case Unsupported(_) =>
        r := Raised(NotImplementedError);
    }

    /** `_github_delete_branch(branch)`. */
    method GithubDeleteBranch(env: Env, branch: string) returns (r: Call<()>)
      requires Valid()
      modifies this
      ensures Valid()
      ensures State() == old(Step(env)).1
      ensures tokenRequests == old(tokenRequests) + (if Expired(old(State()), env.now) then 1 else 0)
      ensures var x := ForgeCalls.GitHubDeleteBranch(slug, token, branch, env.forge);
              r == Lift(old(Step(env)).0, FromResult(x.result))
              && outbox == old(outbox) + if old(Step(env)).0.Run? then x.calls else []
    {
      var a := RefreshAccessToken(env);
      if !a.Run? {
        return Lift(a, Skipped);
      }
      var x := ForgeCalls.GitHubDeleteBranch(slug, token, branch, env.forge);
      outbox := outbox + x.calls;
      return FromResult(x.result);
    }

    /** `_gitlab_delete_branch(branch)`. */
    method GitlabDeleteBranch(env: Env, branch: string) returns (r: Call<()>)
      requires Valid()
      modifies this
      ensures Valid()
      ensures State() == old(Step(env)).1
      ensures tokenRequests == old(tokenRequests) + (if Expired(old(State()), env.now) then 1 else 0)
      ensures var x := ForgeCalls.GitLabDeleteBranch(slug, token, branch, env.forge);
              r == Lift(old(Step(env)).0, FromResult(x.result))
              && outbox == old(outbox) + if old(Step(env)).0.Run? then x.calls else []
    {
      var a := RefreshAccessToken(env);
      if !a.Run? {
        return Lift(a, Skipped);
      }
      var x := ForgeCalls.GitLabDeleteBranch(slug, token, branch, env.forge);
      outbox := outbox + x.calls;
      return FromResult(x.result);
    }

    /** `delete_branch(branch_name)`: dispatch on the service type. */
    method DeleteBranch(env: Env, branch: string) returns (r: Call<()>)
      requires Valid()
      modifies this
      ensures Valid()
      ensures State() == old(Step(env)).1
      ensures tokenRequests == old(tokenRequests) + (if Expired(old(State()), env.now) then 1 else 0)
      ensures var x := ForgeCalls.DeleteBranch(serviceType, slug, token, branch, env.forge);
              r == Lift(old(Step(env)).0, FromResult(x.result))
              && outbox == old(outbox) + if old(Step(env)).0.Run? then x.calls else []
    {
      ghost var before := State();
      var a := RefreshAccessToken(env);
      if !a.Run? {
        return Lift(a, Skipped);
      }
      NestedCallAdmitted(env, before);
      match serviceType
      case GitHub =>
        r := GithubDeleteBranch(env, branch);
      case GitLab =>
        r := GitlabDeleteBranch(env, branch);
      case Unsupported(_) =>
        r := Raised(NotImplementedError);
    }
  }
}
