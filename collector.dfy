/**
 * The class `GitHubCommitCollector`: its thresholds, the fields `repos` and
 * `valid_repos`, and the operations that search, validate, filter and
 * flatten repositories. What the hosting service returns (search results,
 * commits, pull requests) is handed in as data.
 */
module Collector {
  import opened Wrappers
  import opened WeekDates
  import opened Repositories
  import opened Selection
  import opened Rows

  /** The exclusion keywords used when none, or an empty list, are given. */
  const DefaultKeywords: seq<string> := ["student", "exercise", "tutorial"]

  /** Iterating over `None` raises TypeError. */
  datatype Failure = NotIterable

  function Min(a: int, b: int): int {
    if a <= b then a else b
  }

  /**
   * Python's `s[lo:hi]` for non-negative bounds: the elements from `lo` up to
   * but not including `hi`, with both bounds clamped to the length.
   */
  function Slice<T>(s: seq<T>, lo: nat, hi: nat): (r: seq<T>)
    ensures |r| == if lo < hi && lo < |s| then Min(hi, |s|) - lo else 0
    ensures forall k :: 0 <= k < |r| ==> r[k] == s[lo + k]
  {
    if hi <= lo || |s| <= lo then [] else s[lo..Min(hi, |s|)]
  }

  /** The results of pages 1 to `pages`, each `perPage` long, concatenated. */
  function Pages<T>(ranked: seq<T>, perPage: nat, pages: int): seq<T>
    decreases pages
  {
    if pages <= 0 then []
    else Pages(ranked, perPage, pages - 1) + Slice(ranked, pages * perPage - perPage, pages * perPage)
  }

  /** Page `pages` starts where page `pages - 1` ends. */
  lemma PageBounds(pages: int, perPage: nat)
    requires pages > 0
    ensures (pages - 1) * perPage == pages * perPage - perPage >= 0
  {
  }

  /** Requesting one more page appends that page's slice. */
  lemma PagesStep<T>(ranked: seq<T>, perPage: nat, page: int, hi: int)
    requires page > 0 && hi == page * perPage
    ensures hi - perPage >= 0
    ensures Pages(ranked, perPage, page) == Pages(ranked, perPage, page - 1) + Slice(ranked, hi - perPage, hi)
  {
    PageBounds(page, perPage);
  }

  /** The pages together are the best-ranked `pages * perPage` results, or all of them when there are fewer. */
  lemma {:induction false} PagesPrefix<T>(ranked: seq<T>, perPage: nat, pages: int)
    ensures Pages(ranked, perPage, pages) == ranked[..Min(if pages > 0 then pages * perPage else 0, |ranked|)]
    decreases pages
  {
    if pages > 0 {
      PagesPrefix(ranked, perPage, pages - 1);
      PageBounds(pages, perPage);
      var lo, hi := pages * perPage - perPage, pages * perPage;
      assert Pages(ranked, perPage, pages - 1) == ranked[..Min(lo, |ranked|)];
      if hi <= lo || |ranked| <= lo {
        assert Min(hi, |ranked|) == Min(lo, |ranked|);
      } else {
        assert ranked[..lo] + ranked[lo..Min(hi, |ranked|)] == ranked[..Min(hi, |ranked|)];
      }
    }
  }

  class GitHubCommitCollector {
    const minCommits2024: int
    const minActiveWeeks: int
    const minAvgWords: int
    const exclusionKeywords: seq<string>
    const excludeForks: bool
    /** The repositories last searched for; nothing until a caller sets it. */
    var repos: Option<seq<Repo>>
    /** The repositories `FilterRepos` kept; nothing before its first call. */
    var validRepos: Option<seq<Repo>>

    /** A collector with the given thresholds; keywords that are missing or empty become `DefaultKeywords`. */
    constructor(
      minCommits2024: int := 200,
      minActiveWeeks: int := 5,
      minAvgWords: int := 5,
      exclusionKeywords: Option<seq<string>> := None,
      excludeForks: bool := true)
      ensures this.minCommits2024 == minCommits2024
      ensures this.minActiveWeeks == minActiveWeeks
      ensures this.minAvgWords == minAvgWords
      ensures this.exclusionKeywords ==
        if exclusionKeywords.None? || exclusionKeywords.value == [] then DefaultKeywords else exclusionKeywords.value
      ensures this.excludeForks == excludeForks
      ensures repos.None? && validRepos.None?
    {
      this.minCommits2024 := minCommits2024;
      this.minActiveWeeks := minActiveWeeks;
      this.minAvgWords := minAvgWords;
      this.exclusionKeywords :=
        if exclusionKeywords.None? || exclusionKeywords.value == [] then DefaultKeywords else exclusionKeywords.value;
      this.excludeForks := excludeForks;
      repos := None;
      validRepos := None;
    }

    /** The collector's thresholds and screens. */
    function Config(): Criteria {
      Criteria(minCommits2024, minActiveWeeks, minAvgWords, exclusionKeywords, excludeForks)
    }

    /**
     * `search_repos`: requests pages 1 to `maxPages` of the ranking `ranked`
     * (the service's answer to the query, best first) and concatenates them;
     * the result is the best `maxPages * perPage` repositories, in order.
     */
    method SearchRepos(ranked: seq<Repo>, perPage: nat := 50, maxPages: int := 2) returns (found: seq<Repo>)
      ensures found == Pages(ranked, perPage, maxPages)
    {
      found := [];
      var page := 1;
      while page <= maxPages
        invariant 1 <= page <= (if maxPages >= 1 then maxPages else 0) + 1
        invariant found == Pages(ranked, perPage, page - 1)
        decreases maxPages - page
      {
        var hi := page * perPage;
        PagesStep(ranked, perPage, page, hi);
        var result := Slice(ranked, hi - perPage, hi);
        found := found + result;
        page := page + 1;
      }
    }

    /**
     * `_repo_is_valid`: the screens, then the commit count, the distinct week
     * keys and the average word count over the repository's 2024 commits.
     */
    method RepoIsValid(repo: Repo) returns (valid: bool)
      ensures valid <==> Decide(Config(), repo) == Accepted
    {
      if excludeForks && repo.fork {
        return false;
      }
      if HasExclusionKeyword(exclusionKeywords, repo) {
        return false;
      }
      var commitDates: seq<Day> := [];
      var messages: seq<string> := [];
      for i := 0 to |repo.commits|
        invariant |commitDates| == |messages| == i
        invariant forall j :: 0 <= j < i ==> commitDates[j] == repo.commits[j].date
        invariant forall j :: 0 <= j < i ==> messages[j] == repo.commits[j].message
      {
        commitDates := commitDates + [repo.commits[i].date];
        messages := messages + [repo.commits[i].message];
      }
      assert commitDates == Dates(repo.commits);
      assert messages == Messages(repo.commits);
      var totalCommits := |commitDates|;
      if totalCommits < minCommits2024 {
        return false;
      }
      var weeks := ActiveWeeks(commitDates);
      if |weeks| < minActiveWeeks {
        return false;
      }
      var avgWords := AverageWords(messages);
      if avgWords < minAvgWords as real {
        return false;
      }
      return true;
    }

    /**
     * `filter_repos`: keeps each valid repository whose signature has not been
     * seen, records the signature, and stores the kept list in `validRepos`.
     */
    method FilterRepos(rs: seq<Repo>)
      modifies this
      ensures validRepos == Some(Kept(Acceptance(Config()), rs))
      ensures repos == old(repos)
    {
      var valid: seq<Repo> := [];
      var seenSignatures: set<Signature> := {};
      ghost var accept := Acceptance(Config());
      for i := 0 to |rs|
        invariant valid == Kept(accept, rs[..i])
        invariant seenSignatures == AcceptedSignatures(accept, rs[..i])
        invariant repos == old(repos)
      {
        var repo := rs[i];
        KeptStep(accept, rs, i);
        KeptSignatures(accept, rs[..i]);
        KeptSignatures(accept, rs[..i + 1]);
        var ok := RepoIsValid(repo);
        if !ok {
          continue;
        }
        var sig := SignatureOf(repo);
        if sig in seenSignatures {
          continue;
        }
        seenSignatures := seenSignatures + {sig};
        valid := valid + [repo];
      }
      assert rs[..|rs|] == rs;
      validRepos := Some(valid);
    }

    /** `collect_commits`: one row per commit of each kept repository, repository by repository. */
    method CollectCommits() returns (result: Result<seq<CommitRow>, Failure>)
      ensures validRepos.None? ==> result == Err(NotIterable)
      ensures validRepos.Some? ==> result == Ok(CommitRows(validRepos.value))
    {
      if validRepos.None? {
        return Err(NotIterable);
      }
      var rs := validRepos.value;
      var data: seq<CommitRow> := [];
      for i := 0 to |rs|
        invariant data == CommitRows(rs[..i])
      {
        var repo := rs[i];
        ghost var before := data;
        ghost var own := RepoCommitRows(repo);
        for j := 0 to |repo.commits|
          invariant data == before + own[..j]
        {
          var row := CommitRowOf(repo, repo.commits[j]);
          assert row == own[j];
          data := data + [row];
          assert own[..j + 1] == own[..j] + [row];
        }
        assert own[..|repo.commits|] == own;
        CommitRowsStep(rs, i);
      }
      assert rs[..|rs|] == rs;
      return Ok(data);
    }

    /**
     * `collect_pull_requests`: one row per pull request of each repository of
     * `repos`, or of the field `repos` when none are given. When listing the
     * pull requests of a repository fails, the rows made so far stay and the
     * next repository follows.
     */
    method CollectPullRequests(repos: Option<seq<Repo>> := None) returns (result: Result<seq<PullRow>, Failure>)
      ensures var source := if repos.None? then this.repos else repos;
        && (source.None? ==> result == Err(NotIterable))
        && (source.Some? ==> result == Ok(PullRows(source.value)))
    {
      var source := repos;
      if source.None? {
        source := this.repos;
      }
      if source.None? {
        return Err(NotIterable);
      }
      var rs := source.value;
      var data: seq<PullRow> := [];
      for i := 0 to |rs|
        invariant data == PullRows(rs[..i])
      {
        var repo := rs[i];
        ghost var before := data;
        ghost var own := RepoPullRows(repo);
        var j: nat := 0;
        while j < |repo.pulls|
          invariant j <= Delivered(repo)
          invariant data == before + own[..j]
        {
          if repo.pullsFailAt == Some(j) {
            break;  // the exception is caught; the rows appended so far stay
          }
          var pr := repo.pulls[j];
          data := data + [PullRowOf(repo, pr)];
          assert own[..j + 1] == own[..j] + [own[j]];
          j := j + 1;
        }
        assert j == Delivered(repo);
        assert own[..j] == own;
        PullRowsStep(rs, i);
      }
      assert rs[..|rs|] == rs;
      return Ok(data);
    }
  }
}
