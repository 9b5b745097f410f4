/** The query parameters and pagination flags both paged endpoints share. */
module Paging {
  import opened Wrappers

  /** The bounds FastAPI enforces on page (at least 1) and on the page size (1 to 100). */
  predicate ParamsValid(page: int, perPage: int) {
    page >= 1 && 1 <= perPage <= 100
  }

  /** FastAPI's answer to a query parameter it cannot accept; the detail it lists
      is not modelled. */
  const InvalidQuery := HttpError(422, "Invalid query parameters")

  /** has_next: the items before the end of this page are fewer than the total. */
  predicate HasNext(page: int, perPage: int, total: int) {
    page * perPage < total
  }

  /** has_prev: any page after the first. */
  predicate HasPrev(page: int) {
    page > 1
  }
}
