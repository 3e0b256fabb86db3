/**
 * The records `collect_commits` and `collect_pull_requests` build, one per
 * commit or pull request, and the row lists they produce for a list of
 * repositories (the rows of the DataFrames, in order).
 */
module Rows {
  import opened Wrappers
  import opened Text
  import opened WeekDates
  import opened Repositories

  /** Columns repo_full_name, commit_sha, author, date, message. */
  datatype CommitRow = CommitRow(repoFullName: string, sha: string, author: string, date: Day, message: string)

  /** Columns repo_full_name, pr_number, title, body, author, created_at, state, merged. */
  datatype PullRow = PullRow(
    repoFullName: string,
    number: int,
    title: string,
    body: string,
    author: string,
    createdAt: Day,
    state: string,
    merged: bool)

  /** The row of one commit: its message with surrounding whitespace stripped. */
  function CommitRowOf(r: Repo, c: Commit): CommitRow {
    CommitRow(r.fullName, c.sha, c.author, c.date, Strip(c.message))
  }

  /**
   * The stored message is the commit message without its leading and
   * trailing whitespace, and has the same words and the same tokens.
   */
  lemma CommitRowMessage(r: Repo, c: Commit) returns (lead: string, trail: string)
    ensures c.message == lead + CommitRowOf(r, c).message + trail
    ensures AllSpace(lead) && AllSpace(trail)
    ensures var m := CommitRowOf(r, c).message; m == [] || (!IsSpace(m[0]) && !IsSpace(m[|m| - 1]))
    ensures Runs(WordChars, CommitRowOf(r, c).message) == Runs(WordChars, c.message)
    ensures Runs(NonSpaceChars, CommitRowOf(r, c).message) == Runs(NonSpaceChars, c.message)
  {
    lead, trail := StripSplit(c.message);
    StripEnds(c.message);
    StripKeepsRuns(WordChars, c.message);
    StripKeepsRuns(NonSpaceChars, c.message);
  }

  /** The commit rows of one repository, in the order its commits are listed. */
  function RepoCommitRows(r: Repo): seq<CommitRow> {
    seq(|r.commits|, k requires 0 <= k < |r.commits| => CommitRowOf(r, r.commits[k]))
  }

  /** The commit rows of the repositories, grouped repository by repository. */
  function CommitRows(rs: seq<Repo>): seq<CommitRow>
  {
    if rs == [] then [] else CommitRows(rs[..|rs| - 1]) + RepoCommitRows(rs[|rs| - 1])
  }

  /** The number of commits of the repositories. */
  function TotalCommits(rs: seq<Repo>): nat {
    if rs == [] then 0 else TotalCommits(rs[..|rs| - 1]) + |rs[|rs| - 1].commits|
  }

  /** The rows of the first `i + 1` repositories extend those of the first `i`. */
  lemma CommitRowsStep(rs: seq<Repo>, i: nat)
    requires i < |rs|
    ensures CommitRows(rs[..i + 1]) == CommitRows(rs[..i]) + RepoCommitRows(rs[i])
  {
    assert rs[..i + 1][..i] == rs[..i];
  }

  /** Row lists of consecutive runs of repositories concatenate. */
  lemma {:induction false} CommitRowsAppend(a: seq<Repo>, b: seq<Repo>)
    ensures CommitRows(a + b) == CommitRows(a) + CommitRows(b)
    decreases |b|
  {
    if b == [] {
      assert a + b == a;
    } else {
      var init, last := b[..|b| - 1], b[|b| - 1];
      assert b == init + [last];
      assert a + b == (a + init) + [last];
      calc {
        CommitRows(a + b);
        { CommitRowsSnoc(a + init, last); }
        CommitRows(a + init) + RepoCommitRows(last);
        { CommitRowsAppend(a, init); }
        (CommitRows(a) + CommitRows(init)) + RepoCommitRows(last);
        CommitRows(a) + (CommitRows(init) + RepoCommitRows(last));
        { CommitRowsSnoc(init, last); }
        CommitRows(a) + CommitRows(b);
      }
    }
  }

  /** Appending a repository appends its rows. */
  lemma CommitRowsSnoc(rs: seq<Repo>, r: Repo)
    ensures CommitRows(rs + [r]) == CommitRows(rs) + RepoCommitRows(r)
  {
    assert (rs + [r])[..|rs|] == rs;
  }

  /**
   * One row per commit: the rows of `rs[i]` come after the rows of the
   * repositories before it, and its `k`-th commit gives the row at
   * `TotalCommits(rs[..i]) + k`.
   */
  lemma {:induction false} CommitRowAt(rs: seq<Repo>, i: nat, k: nat)
    requires i < |rs| && k < |rs[i].commits|
    ensures |CommitRows(rs)| == TotalCommits(rs)
    ensures TotalCommits(rs[..i]) + k < |CommitRows(rs)|
    ensures CommitRows(rs)[TotalCommits(rs[..i]) + k] == CommitRowOf(rs[i], rs[i].commits[k])
    decreases |rs|
  {
    var n := |rs| - 1;
    var init := rs[..n];
    CommitRowsLength(rs);
    CommitRowsLength(init);
    if i < n {
      CommitRowAt(init, i, k);
      assert init[..i] == rs[..i] && init[i] == rs[i];
    } else {
      assert init == rs[..i];
    }
  }

  lemma {:induction false} CommitRowsLength(rs: seq<Repo>)
    ensures |CommitRows(rs)| == TotalCommits(rs)
  {
    if rs != [] {
      CommitRowsLength(rs[..|rs| - 1]);
    }
  }

  /** The author column: the author's login, or "unknown" when there is no user. */
  function AuthorLogin(user: Option<string>): string {
    match user
    case Some(name) => name
    case None => "unknown"
  }

  /** The row of one pull request: a missing body becomes the empty string. */
  function PullRowOf(r: Repo, p: PullRequest): PullRow {
    PullRow(r.fullName, p.number, p.title, p.body.GetOr(""), AuthorLogin(p.user), p.createdAt, p.state, p.merged)
  }

  /**
   * How many pull requests of `r` are turned into rows before the listing
   * raises, if it does: fewer than all of them exactly when the listing
   * raises before its end, and then as many as were listed before it raised.
   */
  function Delivered(r: Repo): (n: nat)
    ensures n <= |r.pulls|
    ensures n < |r.pulls| <==> r.pullsFailAt.Some? && r.pullsFailAt.value < |r.pulls|
    ensures n < |r.pulls| ==> n == r.pullsFailAt.value
  {
    match r.pullsFailAt
    case None => |r.pulls|
    case Some(k) => if k < |r.pulls| then k else |r.pulls|
  }

  /** The pull-request rows of one repository: those of the pull requests delivered before any failure. */
  function RepoPullRows(r: Repo): seq<PullRow> {
    seq(Delivered(r), k requires 0 <= k < Delivered(r) => PullRowOf(r, r.pulls[k]))
  }

  /** The pull-request rows of the repositories, grouped repository by repository. */
  function PullRows(rs: seq<Repo>): seq<PullRow>
  {
    if rs == [] then [] else PullRows(rs[..|rs| - 1]) + RepoPullRows(rs[|rs| - 1])
  }

  /** The rows of the first `i + 1` repositories extend those of the first `i`. */
  lemma PullRowsStep(rs: seq<Repo>, i: nat)
    requires i < |rs|
    ensures PullRows(rs[..i + 1]) == PullRows(rs[..i]) + RepoPullRows(rs[i])
  {
    assert rs[..i + 1][..i] == rs[..i];
  }

  /** Row lists of consecutive runs of repositories concatenate. */
  lemma {:induction false} PullRowsAppend(a: seq<Repo>, b: seq<Repo>)
    ensures PullRows(a + b) == PullRows(a) + PullRows(b)
    decreases |b|
  {
    if b == [] {
      assert a + b == a;
    } else {
      var init, last := b[..|b| - 1], b[|b| - 1];
      assert b == init + [last];
      assert a + b == (a + init) + [last];
      calc {
        PullRows(a + b);
        { PullRowsSnoc(a + init, last); }
        PullRows(a + init) + RepoPullRows(last);
        { PullRowsAppend(a, init); }
        (PullRows(a) + PullRows(init)) + RepoPullRows(last);
        PullRows(a) + (PullRows(init) + RepoPullRows(last));
        { PullRowsSnoc(init, last); }
        PullRows(a) + PullRows(b);
      }
    }
  }

  /** Appending a repository appends its rows. */
  lemma PullRowsSnoc(rs: seq<Repo>, r: Repo)
    ensures PullRows(rs + [r]) == PullRows(rs) + RepoPullRows(r)
  {
    assert (rs + [r])[..|rs|] == rs;
  }

  /**
   * A failure while listing the pull requests of one repository keeps the
   * rows of every other repository, and the rows of that repository made
   * before the failure.
   */
  lemma FailureKeepsOtherRows(before: seq<Repo>, r: Repo, after: seq<Repo>)
    ensures PullRows(before + [r] + after) == PullRows(before) + RepoPullRows(r) + PullRows(after)
    ensures RepoPullRows(r) == RepoPullRows(r.(pullsFailAt := None))[..Delivered(r)]
  {
    PullRowsAppend(before + [r], after);
    PullRowsAppend(before, [r]);
    assert [r][..0] == [];
  }
}
