# Article service: paging parameters and seven-day statistics

This project models the service layer of a small article backend, written
in Java with Spring. An article has a title, an author, content and a
publishing date. The service does two things that hold logic of their own:

- **Paging parameters** (`getPageable`). A list request has four optional
  parameters: page number, page size, sort field and ascending flag. Each one
  that is missing or unusable gets a default: page 0, size 10, field
  `publishingDate`, descending. Every other value is passed on exactly as
  given.
- **Seven-day statistics** (`getStatistics`). The service builds a map from
  each of the seven days `today - 6 .. today` to 0. If the store returned
  null or an empty list, it returns an empty result at once. Otherwise it
  adds one to the bucket of each article's day and skips articles whose day
  has no bucket. It then lists the buckets in the map's iteration order and
  sorts the list by date.

Modelling choices:

- Calendar dates are day numbers (`ArticleModel.Day`). The source compares ISO-8601
  date strings, which sort the same way as day numbers within one zone
  offset and four-digit years.
- "Now" is the parameter `today`. The list the store returns is the parameter
  `articles : Option<seq<Article>>`, with `None` for null.
- A nullable `Integer`, `String` or `Boolean` is an `Option`.
- `getStatistics` is imperative in the source, so it is modelled with
  methods. `ArticleService.GetStatistics` runs the same steps as the source,
  one helper method per step:
  - `ZeroBuckets`: fill the map with zeros.
  - the early return.
  - `CountArticles`: count the articles into the map.
  - `EmitBuckets`: emit the buckets. It takes the remaining keys in an
    arbitrary order, as `HashMap.forEach` does.
  - `SortByDate`: an in-place insertion sort of the list.
  - The method is proved to return `ArticleService.Statistics`, a function
    of the inputs. The lemmas in `StatisticsProperties` prove what the source
    promises about that function.
- `getPageable` only reassigns its parameters, so it is the function
  `ArticleService.GetPageable`. The `Pageable` it returns is a datatype:
  page number, page size, sort field and direction.

The code handles an empty result in a way worth noting. The zero buckets
are built first (ArticleService.java:76-78). If the store then returns null or
an empty list, the method returns at once (lines 81-83), before any bucket is
copied into the result list, so the result is empty. A non-empty list always
gives seven entries, including days with count 0. The model keeps this
behaviour. `StatisticsProperties.EmptyDiffersFromOutsideOnly` shows what
follows: a non-empty list whose articles all fall outside the window gives
seven zeros, while an empty list gives nothing.

## Model

| member | source | states |
|---|---|---|
| `ArticleService.GetPageable` | src/main/java/com/clinked/demo/article/service/ArticleService.java:113-137 | The resulting request is always valid: page number ≥ 0, page size ≥ 0, non-empty sort field. A non-null page number or size ≥ 0 is kept (size 0 included); null or negative becomes 0 or 10. A non-empty sort field is kept verbatim; null or empty becomes `publishingDate`. The direction is ascending exactly when `ascending` is non-null and true. |
| `PageableProperties.AllDefaults` | src/main/java/com/clinked/demo/article/service/ArticleService.java:117-135 | With all four parameters null the request is page 0, size 10, sorted by `publishingDate`, descending. |
| `PageableProperties.ValidRequestKept` | src/main/java/com/clinked/demo/article/service/ArticleService.java:117-135 | A request that is already valid comes out unchanged when its own fields are passed in. |
| `PageableProperties.NormaliseIdempotent` | src/main/java/com/clinked/demo/article/service/ArticleService.java:117-135 | Normalising a normalised request a second time changes nothing. |
| `ArticleService.Window` | src/main/java/com/clinked/demo/article/service/ArticleService.java:76-78 | The bucket days are exactly `today - 6 .. today`, and there are 7 of them. |
| `ArticleService.ZeroBuckets` | src/main/java/com/clinked/demo/article/service/ArticleService.java:73-78 | The map built before the early return has exactly the seven window days as keys, each mapped to 0. |
| `ArticleService.CountArticles` | src/main/java/com/clinked/demo/article/service/ArticleService.java:85-91 | The key set stays the same. Each key ends up with the number of articles published on that day. Articles on days without a key change nothing. |
| `ArticleService.EmitBuckets` | src/main/java/com/clinked/demo/article/service/ArticleService.java:93-97 | Whatever order the keys come in, the list has one entry per key and no more. Every key appears, no date repeats, and each entry carries its key's count. |
| `ArticleService.SortByDate` | src/main/java/com/clinked/demo/article/service/ArticleService.java:99 | After the in-place sort the list is ordered by date and is a permutation of what it was. |
| `ArticleService.GetStatistics` | src/main/java/com/clinked/demo/article/service/ArticleService.java:69-102 | The method, map-filling, early return, counting, emitting in arbitrary order and sorting included, returns exactly `Statistics(articles, today)`. |
| `StatisticsProperties.EmptyExactlyOnNoArticles` | src/main/java/com/clinked/demo/article/service/ArticleService.java:81-83 | The result is empty if and only if the store returned null or an empty list. |
| `StatisticsProperties.SevenAscendingWindowDays` | src/main/java/com/clinked/demo/article/service/ArticleService.java:76-99 | For a non-empty list there are exactly 7 entries, in strictly ascending date order. Every date lies in `today - 6 .. today` and every day of that window appears. |
| `StatisticsProperties.DayCountIsMultiplicity` | src/main/java/com/clinked/demo/article/service/ArticleService.java:85-91 | A day's count equals how often that day occurs in the multiset of publishing days. |
| `StatisticsProperties.CountsAreMultiplicities` | src/main/java/com/clinked/demo/article/service/ArticleService.java:85-97 | Each entry's count is the number of articles whose publishing day is that entry's date. |
| `StatisticsProperties.ArticleCountsOnItsDay` | src/main/java/com/clinked/demo/article/service/ArticleService.java:85-91 | Appending one article adds 1 to the entry of its day, if that day is in the window, and leaves every other count alone. |
| `StatisticsProperties.OutOfWindowIgnored` | src/main/java/com/clinked/demo/article/service/ArticleService.java:86-90 | An article dated outside the seven days leaves a non-empty result unchanged. |
| `StatisticsProperties.CountsSumToArticlesInWindow` | src/main/java/com/clinked/demo/article/service/ArticleService.java:85-97 | The counts add up to the number of articles dated inside the window, so at most to the number of articles. They reach that number exactly when no article was skipped. |
| `StatisticsProperties.EmptyDiffersFromOutsideOnly` | src/main/java/com/clinked/demo/article/service/ArticleService.java:76-91 | Because of the early return, an empty list gives no entries, while a non-empty list with no article in the window gives seven zero entries. |
| `StatisticsProperties.TwoArticlesYesterday` | src/test/java/com/clinked/demo/article/service/ArticleServiceTest.java:154-176 | With two articles published yesterday, the entry for yesterday exists and counts 2, and the entry for the day before exists and counts 0. Any entry carrying either date has that count. |

## Left out

- `createArticle` (ArticleService.java:40-44): it maps the record with ModelMapper, which works by reflection, and saves it through the store. Both are library code.
- `getArticles` (ArticleService.java:55-62): the model covers only the `Pageable` it builds. Paging in the store and mapping each record are library code.
- The store's range query (`findArticleByPublishingDateIsBetweenOrderByPublishingDateAsc`) is not modelled. Its result is an arbitrary input list, so articles outside the window are possible.
- Clocks and time zones are not modelled. This covers the two separate calls to `ZonedDateTime.now()`, the zone offset that ISO date formatting writes, and time-zone boundary effects. Each article has one day number, and each bucket is one day number.
- `PageRequest.of` and `Sort.by` check their own arguments, for example whether size 0 is accepted. That is library code. The model stops at the values handed to them.
- Counts are unbounded integers. A Java `Integer` count would wrap after 2^31 - 1 articles on one day.
- The controller, the security configuration, the exception handler and validation annotations are framework glue around the service.
