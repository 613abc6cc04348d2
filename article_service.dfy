/**
 * The article service: normalising the paging parameters of a list request
 * and computing the per-day publication counts of the trailing seven days.
 *
 * The store and the object mapper are collaborators: the list of articles
 * the store returns for the statistics window is an input (absent when the
 * store returns null), and "now" is the day number `today`.
 */
module ArticleService {
  import opened Wrappers
  import opened ArticleModel

  // ---------------------------------------------------------------------
  // Paging parameters
  // ---------------------------------------------------------------------

  const DefaultPageNumber: int := 0
  const DefaultPageSize: int := 10
  const DefaultSortField: string := "publishingDate"

  datatype Direction = Ascending | Descending

  /** What the service hands to the store: page, size and one sort order. */
  datatype Pageable = Pageable(pageNumber: int, pageSize: int, sortField: string, direction: Direction)

  /** A normalised request: no negative number or size, a non-empty sort field. */
  predicate ValidPageable(p: Pageable) {
    p.pageNumber >= 0 && p.pageSize >= 0 && p.sortField != []
  }

  /**
   * Each missing or unusable parameter is replaced by its default; every
   * other one is passed on exactly as given (a page size of 0 included).
   */
  function GetPageable(pageNumber: Option<int>, pageSize: Option<int>,
                       sortField: Option<string>, ascending: Option<bool>): (p: Pageable)
    ensures ValidPageable(p)
    ensures pageNumber.Some? && pageNumber.value >= 0 ==> p.pageNumber == pageNumber.value
    ensures pageNumber.None? || pageNumber.value < 0 ==> p.pageNumber == DefaultPageNumber
    ensures pageSize.Some? && pageSize.value >= 0 ==> p.pageSize == pageSize.value
    ensures pageSize.None? || pageSize.value < 0 ==> p.pageSize == DefaultPageSize
    ensures sortField.Some? && sortField.value != [] ==> p.sortField == sortField.value
    ensures sortField.None? || sortField.value == [] ==> p.sortField == DefaultSortField
    ensures p.direction == Ascending <==> ascending == Some(true)
  {
    var number := if pageNumber.None? || pageNumber.value < 0 then DefaultPageNumber else pageNumber.value;
    var size := if pageSize.None? || pageSize.value < 0 then DefaultPageSize else pageSize.value;
    var field := if sortField.None? || sortField.value == [] then DefaultSortField else sortField.value;
    var asc := if ascending.None? then false else ascending.value;
    Pageable(number, size, field, if asc then Ascending else Descending)
  }

  // ---------------------------------------------------------------------
  // Seven-day statistics: the specification
  // ---------------------------------------------------------------------

  /** The statistics cover the seven days `today - 6 .. today`. */
  predicate InWindow(d: Day, today: Day) {
    today - 6 <= d <= today
  }

  /** The `n` consecutive days starting at `first`. */
  function DaysFrom(first: Day, n: nat): (r: set<Day>)
    ensures forall d :: d in r <==> first <= d < first + n
    ensures |r| == n
  {
    if n == 0 then {} else DaysFrom(first, n - 1) + {first + n - 1}
  }

  /** The seven window days: the key set of the bucket map. */
  function Window(today: Day): (r: set<Day>)
    ensures forall d :: d in r <==> InWindow(d, today)
    ensures |r| == 7
  {
    DaysFrom(today - 6, 7)
  }

  /** How many of `articles` were published on day `d`. */
  function DayCount(articles: seq<Article>, d: Day): (n: nat)
    ensures n <= |articles|
  {
    if articles == [] then 0
    else
      var last := articles[|articles| - 1];
      DayCount(articles[..|articles| - 1], d) + (if last.publishingDay == d then 1 else 0)
  }

  /** The bucket of day `d`: the day and its count. */
  function Bucket(articles: seq<Article>, d: Day): StatisticsDay {
    StatisticsDay(d, DayCount(articles, d))
  }

  /**
   * The statistics the service returns for what the store gave it:
   * nothing at all for a null or empty list, otherwise the seven buckets
   * in date order.
   */
  function Statistics(articles: Option<seq<Article>>, today: Day): seq<StatisticsDay> {
    match articles
    case None => []
    case Some(s) => if s == [] then [] else seq(7, k => Bucket(s, today - 6 + k))
  }

  // ---------------------------------------------------------------------
  // Seven-day statistics: the algorithm
  // ---------------------------------------------------------------------

  predicate SortedByDate(x: seq<StatisticsDay>) {
    forall k, l :: 0 <= k < l < |x| ==> x[k].date <= x[l].date
  }

  /**
   * `x[..hi + 1]` is sorted by date except that `x[j]` may still be out of
   * place, and `x[j]` is no later than anything after it.
   */
  ghost predicate SortedExceptAt(x: seq<StatisticsDay>, j: int, hi: int) {
    && 0 <= j <= hi < |x|
    && (forall k, l :: 0 <= k < l <= hi && k != j && l != j ==> x[k].date <= x[l].date)
    && (forall l :: j < l <= hi ==> x[j].date <= x[l].date)
  }

  /** Swapping an out-of-order `x[j]` with its left neighbour moves the gap left. */
  lemma SwapStep(x: seq<StatisticsDay>, j: int, hi: int)
    requires 0 < j && SortedExceptAt(x, j, hi) && x[j - 1].date > x[j].date
    ensures SortedExceptAt(x[j - 1 := x[j]][j := x[j - 1]], j - 1, hi)
    ensures multiset(x[j - 1 := x[j]][j := x[j - 1]]) == multiset(x)
  {
  }

  /** Once `x[j]` is no earlier than its left neighbour the prefix is sorted. */
  lemma InsertDone(x: seq<StatisticsDay>, j: int, hi: int)
    requires SortedExceptAt(x, j, hi)
    requires j == 0 || x[j - 1].date <= x[j].date
    ensures SortedByDate(x[..hi + 1])
  {
  }

  method SwapWithLeft(a: array<StatisticsDay>, j: int)
    requires 0 < j < a.Length
    modifies a
    ensures a[..] == old(a[..])[j - 1 := old(a[j])][j := old(a[j - 1])]
  {
    a[j - 1], a[j] := a[j], a[j - 1];
  }

  /** Moves `a[i]` left into the sorted prefix `a[..i]`. */
  method InsertIntoSorted(a: array<StatisticsDay>, i: int)
    requires 0 <= i < a.Length && SortedByDate(a[..i])
    modifies a
    ensures SortedByDate(a[..i + 1])
    ensures multiset(a[..]) == multiset(old(a[..]))
  {
    var j := i;
    while j > 0 && a[j - 1].date > a[j].date
      invariant 0 <= j <= i
      invariant SortedExceptAt(a[..], j, i)
      invariant multiset(a[..]) == multiset(old(a[..]))
    {
      SwapStep(a[..], j, i);
      SwapWithLeft(a, j);
      j := j - 1;
    }
    InsertDone(a[..], j, i);
  }

  /** Sorts the emitted entries by date in place, as `List.sort` does. */
  method SortByDate(a: array<StatisticsDay>)
    modifies a
    ensures SortedByDate(a[..])
    ensures multiset(a[..]) == multiset(old(a[..]))
  {
    var i := 0;
    while i < a.Length
      invariant 0 <= i <= a.Length
      invariant SortedByDate(a[..i])
      invariant multiset(a[..]) == multiset(old(a[..]))
    {
      InsertIntoSorted(a, i);
      i := i + 1;
    }
    assert a[..a.Length] == a[..];
  }

  /** The bucket map before counting: every window day mapped to 0. */
  method ZeroBuckets(today: Day) returns (counts: map<Day, int>)
    ensures counts.Keys == Window(today)
    ensures forall d :: d in counts ==> counts[d] == 0
  {
    counts := map[];
    var i := 0;
    while i < 7
      invariant 0 <= i <= 7
      invariant forall d :: d in counts <==> today - 6 <= d < today - 6 + i
      invariant forall d :: d in counts ==> counts[d] == 0
    {
      counts := counts[today - 6 + i := 0];
      i := i + 1;
    }
    assert counts.Keys == Window(today);
  }

  /**
   * Counts every article into the bucket of its day; an article whose day
   * has no bucket is skipped. The key set never changes.
   */
  method CountArticles(zero: map<Day, int>, s: seq<Article>) returns (counts: map<Day, int>)
    requires forall d :: d in zero ==> zero[d] == 0
    ensures counts.Keys == zero.Keys
    ensures forall d :: d in counts ==> counts[d] == DayCount(s, d)
  {
    counts := zero;
    var n := 0;
    while n < |s|
      invariant 0 <= n <= |s|
      invariant counts.Keys == zero.Keys
      invariant forall d :: d in counts ==> counts[d] == DayCount(s[..n], d)
    {
      assert s[..n + 1][..n] == s[..n];
      var key := s[n].publishingDay;
      if key in counts {
        ghost var before := counts;
        counts := counts[key := counts[key] + 1];
        assert counts.Keys == before.Keys;
      }
      n := n + 1;
    }
    assert s[..n] == s;
  }

  /**
   * Lists one entry per bucket, in whatever order the map yields its keys
   * (any order: each step takes an arbitrary remaining key).
   */
  method EmitBuckets(counts: map<Day, int>) returns (out: seq<StatisticsDay>)
    ensures |out| == |counts.Keys|
    ensures forall k :: 0 <= k < |out| ==> out[k].date in counts && out[k].count == counts[out[k].date]
    ensures forall k, l :: 0 <= k < l < |out| ==> out[k].date != out[l].date
    ensures forall d :: d in counts ==> exists k :: 0 <= k < |out| && out[k].date == d
  {
    var pending := counts.Keys;
    out := [];
    while pending != {}
      invariant pending <= counts.Keys
      invariant |out| + |pending| == |counts.Keys|
      invariant EmittedSoFar(out, counts, pending)
      decreases |pending|
    {
      HasMember(pending);
      var key :| key in pending;
      EmitStep(out, counts, pending, key);
      out := out + [StatisticsDay(key, counts[key])];
      pending := pending - {key};
    }
    assert counts.Keys - pending == counts.Keys;
  }

  /** What `EmitBuckets` has produced while `pending` keys are still to come. */
  ghost predicate EmittedSoFar(out: seq<StatisticsDay>, counts: map<Day, int>, pending: set<Day>) {
    && (forall k :: 0 <= k < |out| ==> out[k].date in counts && out[k].date !in pending)
    && (forall k :: 0 <= k < |out| ==> out[k].count == counts[out[k].date])
    && (forall k, l :: 0 <= k < l < |out| ==> out[k].date != out[l].date)
    && Covers(out, counts.Keys - pending)
  }

  lemma EmitStep(out: seq<StatisticsDay>, counts: map<Day, int>, pending: set<Day>, key: Day)
    requires EmittedSoFar(out, counts, pending) && key in pending && pending <= counts.Keys
    ensures EmittedSoFar(out + [StatisticsDay(key, counts[key])], counts, pending - {key})
  {
    var done := counts.Keys - pending;
    AppendCovers(out, StatisticsDay(key, counts[key]), done);
    assert counts.Keys - (pending - {key}) == done + {key};
  }

  /** Every day in `ds` has an entry in `out`. */
  ghost predicate Covers(out: seq<StatisticsDay>, ds: set<Day>) {
    forall d :: d in ds ==> exists k :: 0 <= k < |out| && out[k].date == d
  }

  lemma AppendCovers(out: seq<StatisticsDay>, e: StatisticsDay, ds: set<Day>)
    requires Covers(out, ds)
    ensures Covers(out + [e], ds + {e.date})
  {
    var out' := out + [e];
    forall d | d in ds + {e.date}
      ensures exists k :: 0 <= k < |out'| && out'[k].date == d
    {
      if d == e.date {
        assert out'[|out|].date == d;
      } else {
        var k :| 0 <= k < |out| && out[k].date == d;
        assert out'[k] == out[k];
      }
    }
  }

  /**
   * A non-empty set has a member. This lemma only supplies the witness
   * that the `:|` choice in `EmitBuckets` needs.
   */
  lemma HasMember(p: set<Day>)
    requires p != {}
    ensures exists d :: d in p
  {
    if forall d :: d !in p {
      assert false;
    }
  }

  /**
   * getStatistics: builds the seven zero buckets, returns early on a null
   * or empty list, counts every article whose day is one of the buckets,
   * emits the buckets and sorts them by date.
   */
  method GetStatistics(articles: Option<seq<Article>>, today: Day) returns (days: seq<StatisticsDay>)
    ensures days == Statistics(articles, today)
  {
    var zero := ZeroBuckets(today);
    if articles.None? || |articles.value| == 0 {
      return [];
    }
    var s := articles.value;
    var counts := CountArticles(zero, s);
    var out := EmitBuckets(counts);
    var list := new StatisticsDay[|out|](k requires 0 <= k < |out| => out[k]);
    assert list[..] == out;
    SortByDate(list);
    days := list[..];
    SortedBucketsAreStatistics(days, out, s, today);
  }

  // ---------------------------------------------------------------------
  // Why sorting the emitted buckets yields the specification
  // ---------------------------------------------------------------------

  predicate NoDuplicates(x: seq<StatisticsDay>) {
    forall k, l :: 0 <= k < l < |x| ==> x[k] != x[l]
  }

  lemma {:induction false} AtMostOnce(y: seq<StatisticsDay>, v: StatisticsDay)
    requires NoDuplicates(y)
    ensures multiset(y)[v] <= 1
  {
    if y != [] {
      var w := y[..|y| - 1];
      assert y == w + [y[|y| - 1]];
      assert NoDuplicates(w);
      AtMostOnce(w, v);
      if v == y[|y| - 1] {
        assert v !in w;
      }
    }
  }

  lemma AtLeastTwice(x: seq<StatisticsDay>, k: int, l: int)
    requires 0 <= k < l < |x| && x[k] == x[l]
    ensures multiset(x)[x[k]] >= 2
  {
    assert x == x[..l] + [x[l]] + x[l + 1..];
    assert x[..l][k] == x[k];
  }

  lemma {:induction false} DateGap(x: seq<StatisticsDay>, k: int, l: int)
    requires StrictlyAscending(x)
    requires 0 <= k <= l < |x|
    ensures x[l].date - x[k].date >= l - k
  {
    if k < l {
      DateGap(x, k, l - 1);
    }
  }

  predicate StrictlyAscending(x: seq<StatisticsDay>) {
    forall k, l :: 0 <= k < l < |x| ==> x[k].date < x[l].date
  }

  /** Sorting a list of distinct buckets orders them strictly. */
  lemma SortedBucketsAreDistinct(x: seq<StatisticsDay>, out: seq<StatisticsDay>, s: seq<Article>)
    requires multiset(x) == multiset(out)
    requires forall k :: 0 <= k < |out| ==> out[k] == Bucket(s, out[k].date)
    requires forall k, l :: 0 <= k < l < |out| ==> out[k].date != out[l].date
    requires SortedByDate(x)
    ensures StrictlyAscending(x)
    ensures forall k :: 0 <= k < |x| ==> x[k] in out
  {
    forall k | 0 <= k < |x|
      ensures x[k] in out
    {
      assert x[k] in multiset(x);
    }
    assert NoDuplicates(out);
    forall k, l | 0 <= k < l < |x|
      ensures x[k].date < x[l].date
    {
      if x[k].date == x[l].date {
        AtLeastTwice(x, k, l);
        AtMostOnce(out, x[k]);
        assert false;
      }
    }
  }

  /** Seven strictly ascending window buckets are the statistics. */
  lemma WindowBucketsAreStatistics(x: seq<StatisticsDay>, s: seq<Article>, today: Day)
    requires s != [] && |x| == 7 && StrictlyAscending(x)
    requires forall k :: 0 <= k < |x| ==> InWindow(x[k].date, today) && x[k] == Bucket(s, x[k].date)
    ensures x == Statistics(Some(s), today)
  {
    forall k | 0 <= k < 7
      ensures x[k] == Bucket(s, today - 6 + k)
    {
      DateGap(x, 0, k);
      DateGap(x, k, 6);
    }
  }

  lemma SortedBucketsAreStatistics(x: seq<StatisticsDay>, out: seq<StatisticsDay>, s: seq<Article>, today: Day)
    requires s != [] && |out| == 7
    requires multiset(x) == multiset(out)
    requires forall k :: 0 <= k < |out| ==> InWindow(out[k].date, today)
    requires forall k :: 0 <= k < |out| ==> out[k] == Bucket(s, out[k].date)
    requires forall k, l :: 0 <= k < l < |out| ==> out[k].date != out[l].date
    requires SortedByDate(x)
    ensures x == Statistics(Some(s), today)
  {
    assert |x| == |multiset(x)| == |multiset(out)| == 7;
    SortedBucketsAreDistinct(x, out, s);
    WindowBucketsAreStatistics(x, s, today);
  }
}
