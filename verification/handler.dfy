/**
 The pagination defaults of the search request handler: `page` and
 `pageSize` are taken from the URL when present and parseable, and
 `pageSize` only when it is positive.
 */
module Handler {
  import opened Wrappers
  import opened Bounds
  import Engine

  const DefaultPage: int := 0
  const DefaultPageSize: int := 20

  datatype Paging = Paging(page: int, pageSize: int)

  /**
   Resolves the first `page` and `pageSize` URL values (`None` when the key is
   absent) with the integer parser `atoi`, which fails with `None`.
   */
  function ResolvePaging(pageParam: Option<string>, pageSizeParam: Option<string>,
                         atoi: string -> Option<int>): (r: Paging)
    ensures r.pageSize > 0
    ensures r.page == DefaultPage || (pageParam.Some? && atoi(pageParam.value) == Some(r.page))
    ensures pageParam.Some? && atoi(pageParam.value).Some? ==> r.page == atoi(pageParam.value).value
    ensures r.pageSize == DefaultPageSize || (pageSizeParam.Some? && atoi(pageSizeParam.value) == Some(r.pageSize))
    ensures pageSizeParam.Some? && atoi(pageSizeParam.value).Some? && atoi(pageSizeParam.value).value > 0
      ==> r.pageSize == atoi(pageSizeParam.value).value
  {
    var page :=
      if pageParam.Some? && atoi(pageParam.value).Some? then atoi(pageParam.value).value
      else DefaultPage;
    var pageSize :=
      if pageSizeParam.Some? && atoi(pageSizeParam.value).Some? && atoi(pageSizeParam.value).value > 0
      then atoi(pageSizeParam.value).value
      else DefaultPageSize;
    Paging(page, pageSize)
  }

  /**
   A resolved request can be served for `n` matches exactly when its page is
   non-negative and starts at most at `n`; without a `page` value it always can.
   */
  lemma ResolvedPagingInRange(pageParam: Option<string>, pageSizeParam: Option<string>,
                              atoi: string -> Option<int>, n: nat)
    ensures
      var r := ResolvePaging(pageParam, pageSizeParam, atoi);
      Engine.PageInRange(n, r.page, r.pageSize) <==> 0 <= r.page && r.page * r.pageSize <= n
    ensures (pageParam.None? || atoi(pageParam.value).None?) ==>
      Engine.PageInRange(n, ResolvePaging(pageParam, pageSizeParam, atoi).page,
                         ResolvePaging(pageParam, pageSizeParam, atoi).pageSize)
  {
    var r := ResolvePaging(pageParam, pageSizeParam, atoi);
    if r.page < 0 {
      MulMonotone(r.page, -1, r.pageSize);
    } else {
      MulMonotone(0, r.page, r.pageSize);
    }
  }

  /**
   A `page` value that parses to a negative number is passed on as it is, and
   no number of matches puts it in range: such a request reaches the slice
   bounds failure.
   */
  lemma NegativePageOutOfRange(pageParam: string, pageSizeParam: Option<string>,
                               atoi: string -> Option<int>, n: nat)
    requires atoi(pageParam).Some? && atoi(pageParam).value < 0
    ensures ResolvePaging(Some(pageParam), pageSizeParam, atoi).page == atoi(pageParam).value
    ensures !Engine.PageInRange(n, ResolvePaging(Some(pageParam), pageSizeParam, atoi).page,
                                ResolvePaging(Some(pageParam), pageSizeParam, atoi).pageSize)
  {
    ResolvedPagingInRange(Some(pageParam), pageSizeParam, atoi, n);
  }
}
