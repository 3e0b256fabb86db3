/**
 * What the collector knows about one hosted repository, and the decision of
 * `GitHubCommitCollector._repo_is_valid` on it: the fork flag, the
 * exclusion-keyword screen, and the three thresholds on the repository's
 * commits of 2024 (how many, in how many distinct weeks, how many words per
 * message on average). Checks run in that order and the first failing one
 * decides.
 */
module Repositories {
  import opened Wrappers
  import opened Text
  import opened WeekDates

  /** A commit as the hosting service lists it: sha, author name, author date (UTC) and message. */
  datatype Commit = Commit(sha: string, author: string, date: Day, message: string)

  /** A pull request; `body` and `user` (the author's login) may be missing. */
  datatype PullRequest = PullRequest(
    number: int,
    title: string,
    body: Option<string>,
    user: Option<string>,
    createdAt: Day,
    state: string,
    merged: bool)

  /**
   * A repository with the data the service returns for it: `commits` are
   * those authored from 2024-01-01 up to 2025-01-01, newest first, and
   * `pulls` its pull requests. `pullsFailAt` is `Some(k)` when listing the
   * pull requests raises once `k` of them have been handed out.
   */
  datatype Repo = Repo(
    fullName: string,
    name: string,
    description: Option<string>,
    fork: bool,
    size: int,
    commits: seq<Commit>,
    pulls: seq<PullRequest>,
    pullsFailAt: Option<nat>)

  /** The thresholds and screens of a collector. */
  datatype Criteria = Criteria(
    minCommits2024: int,
    minActiveWeeks: int,
    minAvgWords: int,
    exclusionKeywords: seq<string>,
    excludeForks: bool)

  /** Which check decided: `Accepted` when none failed, otherwise the first failing one. */
  datatype Verdict =
    | Accepted
    | ForkExcluded
    | KeywordExcluded
    | TooFewCommits
    | TooFewActiveWeeks
    | TooFewWords

  /** The lower-cased text the keyword screen searches: name, a space, and the description or nothing. */
  function KeywordText(r: Repo): (text: string)
    ensures text == Lower(r.name) + [' '] + Lower(r.description.GetOr(""))
  {
    LowerConcat(r.name + " ", r.description.GetOr(""));
    LowerConcat(r.name, " ");
    Lower(r.name + " " + r.description.GetOr(""))
  }

  /** Some exclusion keyword, lower-cased, occurs in the lower-cased name and description. */
  predicate HasExclusionKeyword(keywords: seq<string>, r: Repo) {
    exists k :: 0 <= k < |keywords| && Contains(KeywordText(r), Lower(keywords[k]))
  }

  /** A keyword found in the name alone, or in the description alone, excludes the repository. */
  lemma KeywordInNameOrDescription(keywords: seq<string>, r: Repo, k: nat)
    requires k < |keywords|
    requires Contains(Lower(r.name), Lower(keywords[k])) || Contains(Lower(r.description.GetOr("")), Lower(keywords[k]))
    ensures HasExclusionKeyword(keywords, r)
  {
    var kw := Lower(keywords[k]);
    if Contains(Lower(r.name), kw) {
      ContainsInConcat(Lower(r.name), [' '], kw);
      ContainsInConcat(Lower(r.name) + [' '], Lower(r.description.GetOr("")), kw);
    } else {
      ContainsInConcat(Lower(r.name) + [' '], Lower(r.description.GetOr("")), kw);
    }
  }

  /** An empty keyword occurs in every text, so a list holding one excludes every repository. */
  lemma EmptyKeywordExcludesAll(keywords: seq<string>, r: Repo)
    requires "" in keywords
    ensures HasExclusionKeyword(keywords, r)
  {
    var k :| 0 <= k < |keywords| && keywords[k] == "";
    ContainsEmpty(KeywordText(r));
    assert Lower(keywords[k]) == "";
  }

  /** The dates of the commits, in order. */
  function Dates(cs: seq<Commit>): seq<Day> {
    seq(|cs|, i requires 0 <= i < |cs| => cs[i].date)
  }

  /** The messages of the commits, in order. */
  function Messages(cs: seq<Commit>): seq<string> {
    seq(|cs|, i requires 0 <= i < |cs| => cs[i].message)
  }

  /** The key a commit date counts under: its ISO week number paired with its calendar year. */
  function WeekKey(d: Day): (int, int) {
    (IsoCalendar(d).week, d.year)
  }

  /** The week keys of the dates, in order. */
  function WeekKeys(ds: seq<Day>): seq<(int, int)> {
    seq(|ds|, i requires 0 <= i < |ds| => WeekKey(ds[i]))
  }

  /** The set of the elements of `xs`. */
  function Distinct<T>(xs: seq<T>): set<T> {
    set i | 0 <= i < |xs| :: xs[i]
  }

  /** The set of week keys of the dates: `set((d.isocalendar()[1], d.year) for d in dates)`. */
  function ActiveWeeks(ds: seq<Day>): set<(int, int)> {
    Distinct(WeekKeys(ds))
  }

  /** Appending an element adds it and nothing else. */
  lemma DistinctSnoc<T>(xs: seq<T>, x: T)
    ensures Distinct(xs + [x]) == Distinct(xs) + {x}
  {
    var xs' := xs + [x];
    assert xs'[|xs|] == x;
    forall y | y in Distinct(xs)
      ensures y in Distinct(xs')
    {
      var i :| 0 <= i < |xs| && xs[i] == y;
      assert xs'[i] == xs[i];
    }
  }

  /** A sequence has no more distinct elements than elements. */
  lemma {:induction false} DistinctAtMostLength<T>(xs: seq<T>)
    ensures |Distinct(xs)| <= |xs|
  {
    if xs != [] {
      var init := xs[..|xs| - 1];
      DistinctAtMostLength(init);
      DistinctSnoc(init, xs[|xs| - 1]);
      assert init + [xs[|xs| - 1]] == xs;
    }
  }

  /** There are never more active weeks than dates. */
  lemma ActiveWeeksAtMostDates(ds: seq<Day>)
    ensures |ActiveWeeks(ds)| <= |ds|
  {
    DistinctAtMostLength(WeekKeys(ds));
  }

  /** The keys (1, 2024) to (n, 2024). */
  function WeeksOf2024(n: nat): (keys: set<(int, int)>)
    ensures |keys| == n
    ensures forall w :: 1 <= w <= n ==> (w, 2024) in keys
    ensures forall key :: key in keys ==> key.1 == 2024 && 1 <= key.0 <= n
  {
    if n == 0 then {} else WeeksOf2024(n - 1) + {(n, 2024)}
  }

  /**
   * Commit dates of 2024 have at most 52 distinct keys: December 30 and 31,
   * 2024 belong to ISO week 1 and so share the key (1, 2024) with
   * January 1-7, 2024.
   */
  lemma ActiveWeeksIn2024(ds: seq<Day>)
    requires forall i :: 0 <= i < |ds| ==> ds[i].year == 2024
    ensures forall key :: key in ActiveWeeks(ds) ==> key.1 == 2024 && 1 <= key.0 <= 52
    ensures |ActiveWeeks(ds)| <= 52
  {
    var keys, weeks := WeekKeys(ds), 52;
    forall i | 0 <= i < |keys|
      ensures keys[i] in WeeksOf2024(weeks)
    {
      KeyOf2024(ds[i]);
    }
    DistinctWithin(keys, WeeksOf2024(weeks));
    SubsetCardinality(ActiveWeeks(ds), WeeksOf2024(weeks));
  }

  /** A date of 2024 counts under one of the keys (1, 2024) to (52, 2024). */
  lemma KeyOf2024(d: Day)
    requires d.year == 2024
    ensures 1 <= WeekKey(d).0 <= 52 && WeekKey(d).1 == 2024
  {
    Weeks2024(d);
  }

  /** The distinct elements of a sequence whose elements all lie in `s` lie in `s`. */
  lemma DistinctWithin<T>(xs: seq<T>, s: set<T>)
    requires forall i :: 0 <= i < |xs| ==> xs[i] in s
    ensures Distinct(xs) <= s
  {
  }

  lemma {:induction false} SubsetCardinality<T>(a: set<T>, b: set<T>)
    requires a <= b
    ensures |a| <= |b|
    decreases |a|
  {
    if a != {} {
      var x :| x in a;
      SubsetCardinality(a - {x}, b - {x});
    }
  }

  /** The last two days of 2024 count under the key of January 1, 2024, not under ISO year 2025. */
  lemma YearEndCollision()
    ensures WeekKey(Date(2024, 12, 30)) == WeekKey(Date(2024, 1, 1)) == (1, 2024)
    ensures WeekKey(Date(2024, 12, 31)) == (1, 2024)
    ensures IsoCalendar(Date(2024, 12, 30)).year == 2025
  {
    Calendar2024();
  }

  /** The number of maximal `\w` runs in a message: `len(re.findall(r"\w+", msg))`. */
  function WordCount(msg: string): (n: nat)
    ensures n <= |msg|
  {
    RunsCount(WordChars, msg);
    RunStartsBound(WordChars, msg, false);
    |Runs(WordChars, msg)|
  }

  lemma {:induction false} RunStartsBound(cls: CharClass, s: string, prevIn: bool)
    ensures CountRunStarts(cls, s, prevIn) <= |s|
    decreases |s|
  {
    if s != [] {
      RunStartsBound(cls, s[1..], InClass(cls, s[0]));
    }
  }

  /** The total word count of the messages. */
  function TotalWords(msgs: seq<string>): nat {
    if msgs == [] then 0 else TotalWords(msgs[..|msgs| - 1]) + WordCount(msgs[|msgs| - 1])
  }

  /** `max(total_commits, 1)`: the divisor of the average. */
  function Divisor(n: nat): nat {
    if n > 0 then n else 1
  }

  /** The average words per message, computed exactly. */
  function AverageWords(msgs: seq<string>): (avg: real)
    ensures avg >= 0.0
    ensures msgs == [] ==> avg == 0.0
  {
    TotalWords(msgs) as real / Divisor(|msgs|) as real
  }

  /** The average falls below a threshold exactly when the total falls below threshold times divisor. */
  lemma AverageBelowIff(msgs: seq<string>, threshold: int)
    ensures AverageWords(msgs) < threshold as real
      <==> TotalWords(msgs) < threshold * Divisor(|msgs|)
  {
    CrossMultiply(TotalWords(msgs), Divisor(|msgs|), threshold);
  }

  lemma CrossMultiply(total: int, divisor: int, threshold: int)
    requires divisor >= 1
    ensures total as real / divisor as real < threshold as real <==> total < threshold * divisor
  {
    var avg, d, t := total as real / divisor as real, divisor as real, threshold as real;
    assert avg * d == total as real;
    assert (threshold * divisor) as real == t * d;
    if avg < t {
      assert avg * d < t * d;
    } else {
      assert avg * d >= t * d;
    }
  }

  /** `_repo_is_valid`, naming the check that decided. */
  function Decide(c: Criteria, r: Repo): (v: Verdict)
    ensures v == ForkExcluded <==> c.excludeForks && r.fork
    ensures v == KeywordExcluded ==> HasExclusionKeyword(c.exclusionKeywords, r)
  {
    if c.excludeForks && r.fork then ForkExcluded
    else if HasExclusionKeyword(c.exclusionKeywords, r) then KeywordExcluded
    else if |r.commits| < c.minCommits2024 then TooFewCommits
    else if |ActiveWeeks(Dates(r.commits))| < c.minActiveWeeks then TooFewActiveWeeks
    else if AverageWords(Messages(r.commits)) < c.minAvgWords as real then TooFewWords
    else Accepted
  }

  /** `_repo_is_valid` as a predicate on repositories, for the criteria `c`. */
  function Acceptance(c: Criteria): Repo -> bool {
    r => Decide(c, r) == Accepted
  }

  /**
   * A fork (when forks are excluded) or a repository matching a keyword is
   * rejected whatever its commits are: the screens run before any commit is
   * consulted.
   */
  lemma ScreenedBeforeCommits(c: Criteria, r: Repo, commits: seq<Commit>)
    requires (c.excludeForks && r.fork) || HasExclusionKeyword(c.exclusionKeywords, r)
    ensures Decide(c, r) != Accepted
    ensures Decide(c, r.(commits := commits)) == Decide(c, r)
  {
    assert KeywordText(r.(commits := commits)) == KeywordText(r);
  }

  /** A screened-in repository with too few commits is rejected, whatever its weeks and words. */
  lemma FewCommitsRejected(c: Criteria, r: Repo)
    requires !(c.excludeForks && r.fork) && !HasExclusionKeyword(c.exclusionKeywords, r)
    requires |r.commits| < c.minCommits2024
    ensures Decide(c, r) == TooFewCommits
  {
  }

  /**
   * A repository is accepted exactly when it passes both screens, has at
   * least the minimum of commits and of distinct week keys, and its total
   * word count reaches the minimum average times `max(n, 1)`.
   */
  lemma AcceptedIff(c: Criteria, r: Repo)
    ensures Decide(c, r) == Accepted <==>
      && !(c.excludeForks && r.fork)
      && !HasExclusionKeyword(c.exclusionKeywords, r)
      && |r.commits| >= c.minCommits2024
      && |ActiveWeeks(Dates(r.commits))| >= c.minActiveWeeks
      && TotalWords(Messages(r.commits)) >= c.minAvgWords * Divisor(|r.commits|)
  {
    AverageBelowIff(Messages(r.commits), c.minAvgWords);
  }

  /** A minimum of more than 52 active weeks rejects every repository that reaches the week check. */
  lemma TooManyWeeksRequired(c: Criteria, r: Repo)
    requires c.minActiveWeeks > 52
    requires forall i :: 0 <= i < |r.commits| ==> r.commits[i].date.year == 2024
    ensures Decide(c, r) != Accepted
  {
    ActiveWeeksIn2024(Dates(r.commits));
    FewWeeksRejected(c, r);
  }

  /** Too few distinct week keys reject a repository, whichever check decides. */
  lemma FewWeeksRejected(c: Criteria, r: Repo)
    requires |ActiveWeeks(Dates(r.commits))| < c.minActiveWeeks
    ensures Decide(c, r) != Accepted
  {
  }
}
