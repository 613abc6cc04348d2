/**
 * What the seven-day statistics promise, proved about `Statistics`, the
 * function `ArticleService.GetStatistics` is shown to compute.
 */
module StatisticsProperties {
  import opened Wrappers
  import opened ArticleModel
  import opened ArticleService

  /** The publishing days of `articles`, in list order. */
  function PublishingDays(articles: seq<Article>): (r: seq<Day>)
    ensures |r| == |articles|
    ensures forall k :: 0 <= k < |articles| ==> r[k] == articles[k].publishingDay
  {
    seq(|articles|, k requires 0 <= k < |articles| => articles[k].publishingDay)
  }

  /** How many of `articles` were published on a day in `lo .. hi - 1`. */
  function CountInRange(articles: seq<Article>, lo: Day, hi: Day): (n: nat)
    ensures n <= |articles|
    ensures hi <= lo ==> n == 0
  {
    if articles == [] then 0
    else
      var day := articles[|articles| - 1].publishingDay;
      CountInRange(articles[..|articles| - 1], lo, hi) + (if lo <= day < hi then 1 else 0)
  }

  /** The sum of the counts of `days`. */
  function TotalCount(days: seq<StatisticsDay>): int {
    if days == [] then 0 else TotalCount(days[..|days| - 1]) + days[|days| - 1].count
  }

  /** Entry `k` of a non-empty result is the bucket of day `today - 6 + k`. */
  lemma EntryAt(s: seq<Article>, today: Day, k: int)
    requires s != [] && 0 <= k < 7
    ensures |Statistics(Some(s), today)| == 7
    ensures Statistics(Some(s), today)[k] == Bucket(s, today - 6 + k)
    ensures Statistics(Some(s), today)[k].date == today - 6 + k
    ensures Statistics(Some(s), today)[k].count == DayCount(s, today - 6 + k)
  {
  }

  // ---------------------------------------------------------------------
  // Shape of the result
  // ---------------------------------------------------------------------

  /** The result is empty exactly when the store returned null or an empty list. */
  lemma EmptyExactlyOnNoArticles(articles: Option<seq<Article>>, today: Day)
    ensures Statistics(articles, today) == [] <==> articles.None? || articles.value == []
  {
  }

  /**
   * For a non-empty list the result has seven entries, strictly ascending
   * by date, whose dates are exactly the days `today - 6 .. today`.
   */
  lemma SevenAscendingWindowDays(s: seq<Article>, today: Day)
    requires s != []
    ensures var r := Statistics(Some(s), today);
      && |r| == 7
      && (forall k, l :: 0 <= k < l < |r| ==> r[k].date < r[l].date)
      && (forall k :: 0 <= k < |r| ==> InWindow(r[k].date, today))
      && (forall d :: InWindow(d, today) ==> exists k :: 0 <= k < |r| && r[k].date == d)
  {
    var r := Statistics(Some(s), today);
    forall k | 0 <= k < 7
      ensures r[k].date == today - 6 + k
    {
      EntryAt(s, today, k);
    }
    forall d | InWindow(d, today)
      ensures exists k :: 0 <= k < |r| && r[k].date == d
    {
      assert r[d - (today - 6)].date == d;
    }
  }

  // ---------------------------------------------------------------------
  // Counts
  // ---------------------------------------------------------------------

  /** A day's count is the multiplicity of that day among the publishing days. */
  lemma {:induction false} DayCountIsMultiplicity(s: seq<Article>, d: Day)
    ensures DayCount(s, d) == multiset(PublishingDays(s))[d]
  {
    if s != [] {
      var init := s[..|s| - 1];
      DayCountIsMultiplicity(init, d);
      assert PublishingDays(s) == PublishingDays(init) + [s[|s| - 1].publishingDay];
    }
  }

  /** Every entry counts exactly the articles published on its date. */
  lemma CountsAreMultiplicities(s: seq<Article>, today: Day)
    requires s != []
    ensures var r := Statistics(Some(s), today);
      forall k :: 0 <= k < |r| ==> r[k].count == multiset(PublishingDays(s))[r[k].date]
  {
    var r := Statistics(Some(s), today);
    forall k | 0 <= k < |r|
      ensures r[k].count == multiset(PublishingDays(s))[r[k].date]
    {
      EntryAt(s, today, k);
      DayCountIsMultiplicity(s, r[k].date);
    }
  }

  /**
   * Appending an article adds one to the entry of its day when that day is
   * in the window and changes nothing else.
   */
  lemma ArticleCountsOnItsDay(s: seq<Article>, a: Article, today: Day)
    ensures var r := Statistics(Some(s + [a]), today);
      && |r| == 7
      && forall k :: 0 <= k < 7 ==>
           r[k].count == DayCount(s, r[k].date) + (if a.publishingDay == r[k].date then 1 else 0)
  {
    var r := Statistics(Some(s + [a]), today);
    forall k | 0 <= k < 7
      ensures r[k].count == DayCount(s, r[k].date) + (if a.publishingDay == r[k].date then 1 else 0)
    {
      EntryAt(s + [a], today, k);
      assert (s + [a])[..|s|] == s;
    }
  }

  /** An article dated outside the window leaves a non-empty result unchanged. */
  lemma OutOfWindowIgnored(s: seq<Article>, a: Article, today: Day)
    requires s != [] && !InWindow(a.publishingDay, today)
    ensures Statistics(Some(s + [a]), today) == Statistics(Some(s), today)
  {
    var after, before := Statistics(Some(s + [a]), today), Statistics(Some(s), today);
    ArticleCountsOnItsDay(s, a, today);
    forall k | 0 <= k < 7
      ensures after[k] == before[k]
    {
      EntryAt(s + [a], today, k);
      EntryAt(s, today, k);
    }
    EntryAt(s, today, 0);
  }

  lemma {:induction false} CountInRangeExtend(s: seq<Article>, lo: Day, hi: Day)
    requires lo <= hi
    ensures CountInRange(s, lo, hi + 1) == CountInRange(s, lo, hi) + DayCount(s, hi)
  {
    if s != [] {
      CountInRangeExtend(s[..|s| - 1], lo, hi);
    }
  }

  lemma {:induction false} CountInRangeAll(s: seq<Article>, lo: Day, hi: Day)
    ensures CountInRange(s, lo, hi) == |s| <==> forall k :: 0 <= k < |s| ==> lo <= s[k].publishingDay < hi
  {
    if s != [] {
      var init := s[..|s| - 1];
      CountInRangeAll(init, lo, hi);
      assert forall k :: 0 <= k < |init| ==> init[k] == s[k];
    }
  }

  lemma {:induction false} TotalCountOfPrefix(s: seq<Article>, today: Day, k: nat)
    requires s != [] && k <= 7
    ensures TotalCount(Statistics(Some(s), today)[..k]) == CountInRange(s, today - 6, today - 6 + k)
  {
    var r := Statistics(Some(s), today);
    if k > 0 {
      TotalCountOfPrefix(s, today, k - 1);
      EntryAt(s, today, k - 1);
      assert r[..k][..k - 1] == r[..k - 1];
      CountInRangeExtend(s, today - 6, today - 6 + (k - 1));
    }
  }

  /**
   * The counts add up to the number of articles dated inside the window,
   * so at most to the number of articles, with equality exactly when no
   * article was dropped.
   */
  lemma CountsSumToArticlesInWindow(s: seq<Article>, today: Day)
    requires s != []
    ensures var r := Statistics(Some(s), today);
      && TotalCount(r) == CountInRange(s, today - 6, today + 1)
      && TotalCount(r) <= |s|
      && (TotalCount(r) == |s| <==> forall k :: 0 <= k < |s| ==> InWindow(s[k].publishingDay, today))
  {
    var r := Statistics(Some(s), today);
    TotalCountOfPrefix(s, today, 7);
    assert r[..7] == r;
    CountInRangeAll(s, today - 6, today + 1);
  }

  // ---------------------------------------------------------------------
  // The early return, and the unit test's example
  // ---------------------------------------------------------------------

  /**
   * The early return makes "no articles" and "only articles outside the
   * window" differ: the first gives no entries, the second seven zeros.
   */
  lemma EmptyDiffersFromOutsideOnly(s: seq<Article>, today: Day)
    requires s != []
    requires forall k :: 0 <= k < |s| ==> !InWindow(s[k].publishingDay, today)
    ensures Statistics(Some([]), today) == []
    ensures var r := Statistics(Some(s), today);
      |r| == 7 && forall k :: 0 <= k < 7 ==> r[k].count == 0
  {
    var r := Statistics(Some(s), today);
    forall k | 0 <= k < 7
      ensures r[k].count == 0
    {
      EntryAt(s, today, k);
      DayCountIsMultiplicity(s, r[k].date);
      assert r[k].date !in PublishingDays(s);
    }
  }

  /**
   * Two articles published yesterday: the entry for yesterday exists and
   * counts 2, the entry for the day before exists and counts 0, and any
   * entry carrying either date has that count.
   */
  lemma TwoArticlesYesterday(a1: Article, a2: Article, today: Day)
    requires a1.publishingDay == today - 1 && a2.publishingDay == today - 1
    ensures var r := Statistics(Some([a1, a2]), today);
      && |r| == 7
      && r[5] == StatisticsDay(today - 1, 2)
      && r[4] == StatisticsDay(today - 2, 0)
      && (forall k :: 0 <= k < 7 && r[k].date == today - 1 ==> r[k].count == 2)
      && (forall k :: 0 <= k < 7 && r[k].date == today - 2 ==> r[k].count == 0)
  {
    var r := Statistics(Some([a1, a2]), today);
    forall k | 0 <= k < 7
      ensures r[k].count == (if r[k].date == today - 1 then 2 else 0)
    {
      EntryAt([a1, a2], today, k);
      assert [a1, a2][..1] == [a1];
    }
    EntryAt([a1, a2], today, 5);
    EntryAt([a1, a2], today, 4);
  }
}
