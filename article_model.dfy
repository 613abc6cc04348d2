/**
 * The records the article service works with: the persisted article and
 * one (date, count) entry of the seven-day statistics.
 *
 * A calendar date is a day number. The source formats every date as an
 * ISO-8601 string and compares those strings; within one zone offset and
 * four-digit years, string order is day order, so a day number and its
 * integer order stand for both.
 */
module ArticleModel {
  import opened Wrappers

  type Day = int

  /**
   * An article; `id` is absent until the store assigns one. Only
   * `publishingDay` is read by the service's logic; the other fields show
   * the shape of the persisted record.
   */
  datatype Article = Article(
    id: Option<int>,
    title: string,
    author: string,
    content: string,
    publishingDay: Day)

  /** One bucket of the statistics: a date and how many articles fell on it. */
  datatype StatisticsDay = StatisticsDay(date: Day, count: int)
}
