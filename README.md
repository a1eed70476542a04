# PaginatedList<T> in Dafny

This project models the pagination container of the PageSample program.
`PaginatedList<T>` is built from an ordered source, a 1-based page index and a
page size. It records the page index, the page size, the source's total count
and the page count, which is the ceiling of count / size. It holds the page's
items: the source with the first `(pageIndex - 1) * pageSize` elements skipped,
then cut to at most `pageSize` elements. It also exposes two flags,
`HasPreviousPage` and `HasNextPage`. `ToPagedList` builds such a page from a
query. `ProjectToPagedList` first maps every element to a destination type and
then builds the page.

Files:

- `linq.dfy` (module `Linq`): the query operators `Skip`, `Take` and the
  element-wise projection over a materialised `seq`. Counts below 0 and counts
  past the end are clamped, as the standard operators clamp them.
- `paginated_list.dfy` (module `Pagination`): the class `PaginatedList<T>`.
  It also holds the functions that specify the class (`CeilDiv`, `PageItems`,
  the two flags) and the lemmas about them: the page window, the page count,
  empty pages, the partition of the source into pages, and the flags.
- `mapper_extensions.dfy` (module `MapperExtensions`): `ToPagedList` and
  `ProjectToPagedList`. The mapper's projection is passed in as a function
  `S -> T`.

The class keeps the source's state. The constant fields are the read-only
properties. `Items` is the content of the inherited `List<T>`, which the
constructor fills with one `AddRange`. A ghost `Source` records the sequence
the page was cut from. `Valid()` ties every field to the specification
functions of `Source`. The flags keep their literal definitions. The page-1
branch of the constructor (`Skip(0)`) is modelled as written and then proved
equal to the general branch.

A closed form `min(pageSize, max(0, totalCount - (pageIndex-1)*pageSize))` for
the page length does not hold for `pageIndex <= 0`. There `Skip` gets a
negative count and skips nothing, so the page holds `min(pageSize, totalCount)`
items. The two differ whenever `totalCount < pageSize`. The model follows the
code (`PageStart`, `PageItemsAreWindow`, `UpToPageOneIsFirstWindow`).

## Model

| member | source | states |
|---|---|---|
| `Linq.Skip` | PageSample/Program.cs:61-62 | the result is a suffix of the source; it is the whole source for a count of 0 or less, empty for a count of at least the length, and otherwise the length minus k long |
| `Linq.Take` | PageSample/Program.cs:61-62 | the result is a prefix of the source; it is empty for a count of 0 or less, the whole source for a count of at least the length, and otherwise `n` long |
| `Linq.Project` | PageSample/Program.cs:89 | the projection keeps the length and maps element i to `f(s[i])`, in order |
| `Linq.TakeThenNextWindow` | PageSample/Program.cs:61-62 | the first m elements followed by the next window of n elements are the first m + n elements |
| `Linq.ProjectCommutesWithWindow` | PageSample/Program.cs:89-90 | a skip/take window of the projected source is the projection of the same window of the source |
| `Pagination.CeilDiv` | PageSample/Program.cs:58 | for size > 0 the page count p covers the source (`p * size >= count`), one page fewer would not (`(p - 1) * size < count`), and p is 0 exactly when the source is empty |
| `Pagination.CeilDivIsLeast` | PageSample/Program.cs:58 | no page count smaller than `CeilDiv` covers the source, so it is the least covering count (the ceiling) |
| `Pagination.PageItems` | PageSample/Program.cs:60-62 | the page's items, with the literal two branches (`Skip(0)` for page 1, `Skip((pageIndex - 1) * pageSize)` otherwise, then `Take(pageSize)`); the result is never longer than the page size (0 for a page size below 0) or than the source |
| `Pagination.HasPreviousPageFlag` | PageSample/Program.cs:70 | the flag as written, `PageIndex > 0`; no contract of its own, its meaning is stated by `HasPreviousPageFlagMeaning` |
| `Pagination.HasNextPageFlag` | PageSample/Program.cs:72 | the flag as written, `PageIndex + 1 < TotalPages`; no contract of its own, its meaning is stated by `HasNextPageFlagMeaning` |
| `Pagination.PaginatedList.HasPreviousPage` | PageSample/Program.cs:70 | the property on the page object, `HasPreviousPageFlag` of its PageIndex; `PreviousFlagMeaning` states what it means |
| `Pagination.PaginatedList.HasNextPage` | PageSample/Program.cs:72 | the property on the page object, `HasNextPageFlag` of its PageIndex and TotalPages; `NextFlagMeaning` states what it means |
| `Pagination.PaginatedList.constructor` | PageSample/Program.cs:53-63 | the constructor stores PageIndex and PageSize unchanged, TotalCount = source length and TotalPages = `CeilDiv`; Items are the page's items appended to an empty list; the result satisfies `Valid()` |
| `Pagination.PaginatedList.PageShape` | PageSample/Program.cs:51-73 | every constructed page holds at most PageSize items; past TotalPages it holds none and `HasNextPage()` is false |
| `Pagination.PaginatedList.NextFlagMeaning` | PageSample/Program.cs:72 | on a constructed page with an index of -1 or more, `HasNextPage()` holds exactly when page PageIndex + 2 has items |
| `Pagination.PaginatedList.PreviousFlagMeaning` | PageSample/Program.cs:70 | on a constructed page of a non-empty source, `HasPreviousPage()` holds exactly when some index from 0 below PageIndex gives items |
| `Pagination.PageStart` | PageSample/Program.cs:60-62 | the offset of the page's first element equals the source's skip count (0 for page 1, `(pageIndex - 1) * pageSize` otherwise) clamped to 0, so every index up to 1 starts at 0 |
| `Pagination.PageItemsAreWindow` | PageSample/Program.cs:60-62 | a page has `min(pageSize, max(0, count - skip))` items, and its item j is source element `skip + j`, in source order |
| `Pagination.FirstPageBranchRedundant` | PageSample/Program.cs:60-62 | for every page index, the page equals the general branch `Take(Skip((pageIndex-1)*pageSize))`, so the page-1 branch is redundant |
| `Pagination.UpToPageOneIsFirstWindow` | PageSample/Program.cs:60-62 | for a positive page size, every page index up to 1 gives the first window `Take(source, pageSize)` |
| `Pagination.PageEmptyIff` | PageSample/Program.cs:58-62 | a page is empty if and only if the source is empty or the page index exceeds TotalPages |
| `Pagination.PastLastPage` | PageSample/Program.cs:58-62 | a page index beyond TotalPages gives an empty page and a false next-page flag |
| `Pagination.PagesUpTo` | PageSample/Program.cs:58-62 | reference definition: pages 1..k concatenated in order; no contract of its own, see `PagesUpToIsPrefix` |
| `Pagination.PagesUpToIsPrefix` | PageSample/Program.cs:58-62 | pages 1..k together, in order, are the first `k * pageSize` source elements |
| `Pagination.PagesCoveringSource` | PageSample/Program.cs:58-62 | any k pages with `k * pageSize >= count` together, in order, are exactly the source |
| `Pagination.PagesPartitionSource` | PageSample/Program.cs:58-62 | pages 1..TotalPages together, in order, are exactly the source |
| `Pagination.PageSlotIsUnique` | PageSample/Program.cs:60-62 | slot j of page q holds source element `(q-1)*pageSize + j`, and that element's page and slot are q and j again, so no element appears on two pages |
| `Pagination.ElementPage` | PageSample/Program.cs:58-62 | source element i is on page `i / pageSize + 1`, which lies between 1 and TotalPages, at slot `i % pageSize` |
| `Pagination.HasNextPageMissesLastPage` | PageSample/Program.cs:72 | with 4 items and pages of 2, page 1 reports no next page although page 2 holds the 3rd and 4th items |
| `Pagination.NextFlagFalseBeforeLastPage` | PageSample/Program.cs:58-72 | whenever there are at least 2 pages, the flag as written is false on page TotalPages - 1 although page TotalPages has items |
| `Pagination.HasNextPageFlagMeaning` | PageSample/Program.cs:72 | for every index from -1 on, the flag as written holds exactly when page `pageIndex + 2` has items: the test for 0-based page indices |
| `Pagination.HasPreviousPageFlagMeaning` | PageSample/Program.cs:70 | for a non-empty source and every index, the flag as written holds exactly when some page index from 0 up to, but not including, pageIndex has items: the test for 0-based page indices |
| `Pagination.HasPreviousPageOnFirstPage` | PageSample/Program.cs:70 | page 1 reports a previous page although the corrected flag says there is none; stepping back to index 0 yields page 1's own items |
| `Pagination.NextPageExists` | PageSample/Program.cs:72 | corrected definition `PageIndex < TotalPages`; no contract of its own, see `NextPageExistsIff` |
| `Pagination.PreviousPageExists` | PageSample/Program.cs:70 | corrected definition `PageIndex > 1`; no contract of its own, see `PreviousPageExistsIff` |
| `Pagination.NextPageExistsIff` | PageSample/Program.cs:72 | the corrected next flag (`PageIndex < TotalPages`) holds if and only if page `pageIndex + 1` has items, for every page index from 1 on |
| `Pagination.PreviousPageExistsIff` | PageSample/Program.cs:70 | for a non-empty source, the corrected previous flag (`PageIndex > 1`) holds if and only if some page from 1 up to, but not including, pageIndex has items |
| `Pagination.DemoPage` | PageSample/Program.cs:20-30 | the demo call (4 items, page 2, size 2) gives 2 pages, the 3rd and 4th items, and no next page |
| `Pagination.FiveItemsFirstPage` | PageSample/Program.cs:58-72 | 5 items, page 1, size 2: 3 pages, the first two items, and a next page |
| `Pagination.EmptySourcePages` | PageSample/Program.cs:58-72 | an empty source with page size 10: 0 pages, an empty page for every index, and a next-page flag that holds only for page indices below -1 |
| `MapperExtensions.ProjectedPage` | PageSample/Program.cs:89-90 | paging the projected source gives the projection of the same page of the source |
| `MapperExtensions.ToPagedList` | PageSample/Program.cs:93-96 | the result is a fresh page with exactly the fields and items the constructor gives for the same arguments |
| `MapperExtensions.ProjectToPagedList` | PageSample/Program.cs:85-91 | the result is a fresh page of the projected source; its counts are those of the original source and its items are the projection of the original source's page |

## Left out

- `Program.Main` and `Debugger.Break` (PageSample/Program.cs:13-34): demo wiring and a debugger break with no logic. `DemoPage` states the demo's outcome instead.
- `MappingProfile`, `AutoMapperRegistry` and `IoC` (PageSample/Program.cs:75-81, 99-129): mapper configuration by reflection and the dependency-injection container. The mapper's projection becomes a function parameter of `ProjectToPagedList`.
- Deferred evaluation of `IQueryable`: the source is counted once and enumerated again for the window. The model takes the source as an already materialised `seq`.
- `Math.Ceiling` over `double` is replaced by integer ceiling division. For non-negative 32-bit operands the two give the same value.
- A page size of 0 or less is excluded by a precondition. For 0 the source divides by zero in floating point and casts infinity or NaN to `int`. For a negative size it computes a page count of 0 or less and takes a negative count, so the page is empty. The model covers neither case.
- Integers are unbounded. The model has no 32-bit overflow of `(pageIndex - 1) * pageSize`, of `PageIndex + 1`, or of `Count()` on sources longer than `int.MaxValue`.
- The inherited `List<T>` stays mutable after construction (`Add`, `Remove` and so on). Only the construction is modelled; later changes to the list are not.

## Findings

| source | as written | input that shows it | evidently intended | confidence | as-written member | corrected member |
|---|---|---|---|---|---|---|
| PageSample/Program.cs:72 | `HasNextPage => PageIndex + 1 < TotalPages`, a test for 0-based indices, while the items are cut for a 1-based `pageIndex` | 4 items, page size 2, page index 1: TotalPages is 2, so the flag is false, yet page 2 holds the 3rd and 4th items | `PageIndex < TotalPages` | medium, not executed | `Pagination.NextFlagFalseBeforeLastPage` | `Pagination.NextPageExistsIff` |
| PageSample/Program.cs:70 | `HasPreviousPage => PageIndex > 0`, true on page 1 | any source, page index 1: the flag is true, but no page comes before page 1, and index 0 gives page 1 again | `PageIndex > 1` | medium, not executed | `Pagination.HasPreviousPageOnFirstPage` | `Pagination.PreviousPageExistsIff` |

The class keeps the flags as written (`PaginatedList.HasPreviousPage`,
`PaginatedList.HasNextPage`). The corrected flags are the functions
`PreviousPageExists` and `NextPageExists` in the same module.
