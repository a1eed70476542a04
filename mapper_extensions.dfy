// The extension methods that build a PaginatedList from a query: directly
// (ToPagedList) or after projecting every element to a destination type
// (ProjectToPagedList). The object mapper's projection is a function
// parameter here.

module MapperExtensions {
  import opened Linq
  import opened Pagination

  /** Paging a projected source gives the projection of the same page. */
  lemma ProjectedPage<S, T>(source: seq<S>, project: S -> T, pageIndex: int, pageSize: int)
    ensures PageItems(Project(source, project), pageIndex, pageSize) ==
            Project(PageItems(source, pageIndex, pageSize), project)
  {
    var skip := if pageIndex == 1 then 0 else (pageIndex - 1) * pageSize;
    ProjectCommutesWithWindow(source, project, skip, pageSize);
  }

  /** Same page as constructing a PaginatedList directly with these arguments. */
  method ToPagedList<T>(superset: seq<T>, pageNumber: int, pageSize: int) returns (page: PaginatedList<T>)
    requires pageSize > 0
    ensures fresh(page) && page.Valid() && page.Source == superset
    ensures page.PageIndex == pageNumber && page.PageSize == pageSize
    ensures page.TotalCount == |superset| && page.TotalPages == CeilDiv(|superset|, pageSize)
    ensures page.Items == PageItems(superset, pageNumber, pageSize)
  {
    page := new PaginatedList(superset, pageNumber, pageSize);
  }

  /** Projects every element, then pages the result. */
  method ProjectToPagedList<S, T>(queryable: seq<S>, project: S -> T, pageNumber: int, pageSize: int)
    returns (page: PaginatedList<T>)
    requires pageSize > 0
    ensures fresh(page) && page.Valid() && page.Source == Project(queryable, project)
    ensures page.PageIndex == pageNumber && page.PageSize == pageSize
    ensures page.TotalCount == |queryable| && page.TotalPages == CeilDiv(|queryable|, pageSize)
    ensures page.Items == Project(PageItems(queryable, pageNumber, pageSize), project)
  {
    page := ToPagedList(Project(queryable, project), pageNumber, pageSize);
    ProjectedPage(queryable, project, pageNumber, pageSize);
  }
}
