/** The issue tracker of one repository as the session sees it, and what
    `get_issue`, `open_issue_if_not_exist` and `close_issue_if_exists` do
    to it. The tracker is a list of issues in the forge's listing order;
    an issue's number is its position plus one. The default listing, which
    `get_issue` walks, holds the open issues only. */
module IssueTracker {
  import opened Errors

  /** One issue: its number, title, body, the comments posted on it in
      order (a comment may be `None`), whether it is closed, and its labels. */
  datatype Issue = Issue(id: nat, title: string, body: string, comments: seq<Option<string>>,
                         closed: bool, labels: set<string>)

  /** `issue` is listed by default and carries `title`. */
  predicate Listed(issue: Issue, title: string) {
    !issue.closed && issue.title == title
  }

  /** The position of the first listed issue titled `title`. */
  function FirstListed(issues: seq<Issue>, title: string): (r: Option<nat>)
    ensures r.Some? ==> r.value < |issues| && Listed(issues[r.value], title)
    ensures r.Some? ==> forall j :: 0 <= j < r.value ==> !Listed(issues[j], title)
    ensures r.None? <==> forall j :: 0 <= j < |issues| ==> !Listed(issues[j], title)
    decreases |issues|
  {
    if issues == [] then None
    else if Listed(issues[0], title) then Some(0)
    else
      match FirstListed(issues[1..], title)
      case None => None
      case Some(i) => Some(i + 1)
  }

  /** What `get_issue(title)` returns: that first listed issue, or `None`. */
  function FindIssue(issues: seq<Issue>, title: string): (r: Option<Issue>)
    ensures r.Some? ==> r.value in issues && Listed(r.value, title)
    ensures r.None? <==> forall j :: 0 <= j < |issues| ==> !Listed(issues[j], title)
  {
    match FirstListed(issues, title)
    case None => None
    case Some(k) => Some(issues[k])
  }

  /** Two trackers that agree, issue by issue, on what is listed under
      `title` give the same first match. */
  lemma {:induction false} FirstListedFrame(a: seq<Issue>, b: seq<Issue>, title: string)
    requires |a| == |b|
    requires forall j :: 0 <= j < |a| ==> (Listed(a[j], title) <==> Listed(b[j], title))
    ensures FirstListed(a, title) == FirstListed(b, title)
    decreases |a|
  {
    if a != [] && !Listed(a[0], title) {
      FirstListedFrame(a[1..], b[1..], title);
    }
  }

  /** The tracker's numbering: issue `k` in the list is issue number
      `k + 1`. */
  predicate Numbered(issues: seq<Issue>) {
    forall k :: 0 <= k < |issues| ==> issues[k].id == k + 1
  }

  /** `set(labels or [])`: a missing label list counts as empty, and
      repeated labels count once. */
  function LabelSet(labels: Option<seq<string>>): (r: set<string>)
    ensures forall l :: l in r <==> labels.Some? && l in labels.value
  {
    match labels
    case None => {}
    case Some(ls) => set l | l in ls
  }

  lemma LabelSetIgnoresRepeats(ls: seq<string>, l: string)
    requires l in ls
    ensures LabelSet(Some(ls + [l])) == LabelSet(Some(ls))
    ensures LabelSet(None) == LabelSet(Some([])) == {}
  {
    assert forall m :: m in ls + [l] <==> m in ls;
  }

  function Commented(issue: Issue, comment: Option<string>): Issue {
    issue.(comments := issue.comments + [comment])
  }

  /** The issue the tracker creates for `create_issue(title, body)` once
      it holds `n` issues. */
  function NewIssue(n: nat, title: string, body: string): Issue {
    Issue(n + 1, title, body, [], false, {})
  }

  /** `open_issue_if_not_exist`: the tracker afterwards and the issue
      returned. `refresh` is the optional refresh-comment callable, `body`
      what the body callable returns. */
  function OpenIssue(issues: seq<Issue>, title: string, body: string,
                     refresh: Option<Issue -> Option<string>>, labels: Option<seq<string>>): (out: (seq<Issue>, Issue))
    // the issue returned is open, carries the title and is in the tracker
    ensures Listed(out.1, title) && out.1 in out.0
    // an issue is created exactly when none was listed under the title
    ensures |out.0| == |issues| + (if FirstListed(issues, title).None? then 1 else 0)
  {
    match FirstListed(issues, title)
    case Some(k) =>
      if refresh.None? then (issues, issues[k])
      else
        var c := refresh.value(issues[k]);
        if Truthy(c) then
          var commented := Commented(issues[k], c);
          assert issues[k := commented][k] == commented;
          (issues[k := commented], commented)
        else (issues, issues[k])
    case None =>
      var created := NewIssue(|issues|, title, body).(labels := LabelSet(labels));
      (issues + [created], created)
  }

  /** An open issue titled `title` exists: nothing is created, no other
      issue is touched, and the first such issue gains the refresh comment
      when there is a refresh callable and its comment is non-empty. */
  lemma OpenIssueExisting(issues: seq<Issue>, title: string, body: string,
                          refresh: Option<Issue -> Option<string>>, labels: Option<seq<string>>, k: nat)
    requires FirstListed(issues, title) == Some(k)
    ensures var (after, issue) := OpenIssue(issues, title, body, refresh, labels);
            |after| == |issues| && issue == after[k]
            && (forall j :: 0 <= j < |issues| && j != k ==> after[j] == issues[j])
            && after[k].(comments := []) == issues[k].(comments := [])
            && after[k].comments ==
                 issues[k].comments +
                 (if refresh.Some? && Truthy(refresh.value(issues[k])) then [refresh.value(issues[k])] else [])
  {
  }

  /** No open issue is titled `title`: exactly one issue is added, open,
      numbered next, with the body and the deduplicated labels, and it is
      the one `get_issue(title)` finds from then on. */
  lemma OpenIssueCreates(issues: seq<Issue>, title: string, body: string,
                         refresh: Option<Issue -> Option<string>>, labels: Option<seq<string>>)
    requires FirstListed(issues, title).None?
    ensures var (after, issue) := OpenIssue(issues, title, body, refresh, labels);
            after == issues + [issue]
            && issue == Issue(|issues| + 1, title, body, [], false, LabelSet(labels))
            && FirstListed(after, title) == Some(|issues|)
            && FindIssue(after, title) == Some(issue)
  {
    var (after, issue) := OpenIssue(issues, title, body, refresh, labels);
    assert forall j :: 0 <= j < |issues| ==> after[j] == issues[j];
    assert Listed(after[|issues|], title);
  }

  /** Opening keeps the tracker's numbering. */
  lemma OpenIssueNumbered(issues: seq<Issue>, title: string, body: string,
                          refresh: Option<Issue -> Option<string>>, labels: Option<seq<string>>)
    requires Numbered(issues)
    ensures Numbered(OpenIssue(issues, title, body, refresh, labels).0)
  {
  }

  /** Opening the same title a second time, without a refresh comment,
      finds the issue the first call returned and changes nothing. */
  lemma OpenIssueIdempotent(issues: seq<Issue>, title: string, body: string, body2: string,
                            refresh: Option<Issue -> Option<string>>, labels: Option<seq<string>>,
                            labels2: Option<seq<string>>)
    ensures var (after, issue) := OpenIssue(issues, title, body, refresh, labels);
            OpenIssue(after, title, body2, None, labels2) == (after, issue)
  {
    var (after, issue) := OpenIssue(issues, title, body, refresh, labels);
    match FirstListed(issues, title)
    case None =>
      OpenIssueCreates(issues, title, body, refresh, labels);
    case Some(k) =>
      OpenIssueExisting(issues, title, body, refresh, labels, k);
      FirstListedFrame(issues, after, title);
  }

  /** `close_issue_if_exists`: the first open issue titled `title` gets
      `comment` (which may be `None`) and is closed; without one the
      tracker is unchanged. */
  function CloseIssue(issues: seq<Issue>, title: string, comment: Option<string>): (after: seq<Issue>)
    ensures |after| == |issues|
    // without an open issue of that title nothing is commented or closed
    ensures FirstListed(issues, title).None? ==> after == issues
  {
    match FirstListed(issues, title)
    case None => issues
    case Some(k) => issues[k := Commented(issues[k], comment).(closed := true)]
  }

  /** Closing touches the first matching issue only: it is closed, one
      comment longer, and otherwise as it was. */
  lemma CloseIssueExisting(issues: seq<Issue>, title: string, comment: Option<string>, k: nat)
    requires FirstListed(issues, title) == Some(k)
    ensures var after := CloseIssue(issues, title, comment);
            after[k].closed && after[k].comments == issues[k].comments + [comment]
            && after[k].(comments := [], closed := false) == issues[k].(comments := [], closed := false)
            && forall j :: 0 <= j < |issues| && j != k ==> after[j] == issues[j]
  {
  }

  /** Closing keeps the tracker's numbering. */
  lemma CloseIssueNumbered(issues: seq<Issue>, title: string, comment: Option<string>)
    requires Numbered(issues)
    ensures Numbered(CloseIssue(issues, title, comment))
  {
  }

  /** Once the only open issue titled `title` is closed, a second close
      finds nothing and does nothing, and opening that title again creates
      a fresh issue. */
  lemma CloseThenNothingListed(issues: seq<Issue>, title: string, comment: Option<string>, k: nat,
                               comment2: Option<string>, body: string, labels: Option<seq<string>>)
    requires FirstListed(issues, title) == Some(k)
    requires forall j :: 0 <= j < |issues| && j != k ==> !Listed(issues[j], title)
    ensures var after := CloseIssue(issues, title, comment);
            FirstListed(after, title).None? && CloseIssue(after, title, comment2) == after
            && OpenIssue(after, title, body, None, labels) ==
               (after + [Issue(|issues| + 1, title, body, [], false, LabelSet(labels))],
                Issue(|issues| + 1, title, body, [], false, LabelSet(labels)))
  {
    var after := CloseIssue(issues, title, comment);
    assert forall j :: 0 <= j < |after| ==> !Listed(after[j], title);
    OpenIssueCreates(after, title, body, None, labels);
  }

  /** A new tracker and the report of a failed build with labels
      `["bug", "bot", "bug"]`: issue number 1, open, labelled once each. */
  lemma BuildFailedReport()
    ensures OpenIssue([], "Build failed", "log", None, Some(["bug", "bot", "bug"])) ==
            ([Issue(1, "Build failed", "log", [], false, {"bug", "bot"})],
             Issue(1, "Build failed", "log", [], false, {"bug", "bot"}))
  {
    var labels := Some(["bug", "bot", "bug"]);
    assert LabelSet(labels) == {"bug", "bot"};
    assert FirstListed([], "Build failed") == None;
    var created := NewIssue(0, "Build failed", "log").(labels := LabelSet(labels));
    assert created == Issue(1, "Build failed", "log", [], false, {"bug", "bot"});
    assert OpenIssue([], "Build failed", "log", None, labels) == ([] + [created], created);
    assert [] + [created] == [created];
  }

  /** The tracker of one repository. Its numbering never changes. */
  class Repository {
    var issues: seq<Issue>

    ghost predicate Valid()
      reads this
    {
      Numbered(issues)
    }

    constructor (issues: seq<Issue>)
      requires Numbered(issues)
      ensures Valid() && this.issues == issues
    {
      this.issues := issues;
    }

    /** The loop of `get_issue`: walk the listing and return the first
        issue with the title. */
    method GetIssue(title: string) returns (r: Option<Issue>)
      ensures r == FindIssue(issues, title)
    {
      var i := 0;
      while i < |issues|
        invariant 0 <= i <= |issues|
        invariant forall j :: 0 <= j < i ==> !Listed(issues[j], title)
      {
        if Listed(issues[i], title) {
          assert FirstListed(issues, title) == Some(i);
          return Some(issues[i]);
        }
        i := i + 1;
      }
      return None;
    }

    /** `create_issue(title, body)`. */
    method CreateIssue(title: string, body: string) returns (issue: Issue)
      requires Valid()
      modifies this
      ensures Valid()
      ensures issue == NewIssue(|old(issues)|, title, body)
      ensures issues == old(issues) + [issue]
    {
      issue := NewIssue(|issues|, title, body);
      issues := issues + [issue];
    }

    /** `issue.add_label(*labels)` on issue number `id`. */
    method AddLabels(id: nat, labels: set<string>)
      requires Valid() && 1 <= id <= |issues|
      modifies this
      ensures Valid()
      ensures issues == old(issues)[id - 1 := old(issues)[id - 1].(labels := old(issues)[id - 1].labels + labels)]
    {
      issues := issues[id - 1 := issues[id - 1].(labels := issues[id - 1].labels + labels)];
    }

    /** `issue.comment(comment)` on issue number `id`. */
    method Comment(id: nat, comment: Option<string>)
      requires Valid() && 1 <= id <= |issues|
      modifies this
      ensures Valid()
      ensures issues == old(issues)[id - 1 := Commented(old(issues)[id - 1], comment)]
    {
      issues := issues[id - 1 := Commented(issues[id - 1], comment)];
    }

    /** `issue.close()` on issue number `id`. */
    method Close(id: nat)
      requires Valid() && 1 <= id <= |issues|
      modifies this
      ensures Valid()
      ensures issues == old(issues)[id - 1 := old(issues)[id - 1].(closed := true)]
    {
      issues := issues[id - 1 := issues[id - 1].(closed := true)];
    }
  }
}
