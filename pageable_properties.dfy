/** What the paging-parameter normalisation promises beyond its contract. */
module PageableProperties {
  import opened Wrappers
  import opened ArticleService

  /** With no parameters at all: first page, ten items, newest first. */
  lemma AllDefaults()
    ensures GetPageable(None, None, None, None) == Pageable(0, 10, "publishingDate", Descending)
  {
  }

  /** A request that is already valid is passed on unchanged. */
  lemma ValidRequestKept(p: Pageable)
    requires ValidPageable(p)
    ensures GetPageable(Some(p.pageNumber), Some(p.pageSize), Some(p.sortField), Some(p.direction == Ascending)) == p
  {
  }

  /** Normalising a normalised request again changes nothing. */
  lemma NormaliseIdempotent(pageNumber: Option<int>, pageSize: Option<int>,
                            sortField: Option<string>, ascending: Option<bool>)
    ensures var p := GetPageable(pageNumber, pageSize, sortField, ascending);
      GetPageable(Some(p.pageNumber), Some(p.pageSize), Some(p.sortField), Some(p.direction == Ascending)) == p
  {
  }
}
