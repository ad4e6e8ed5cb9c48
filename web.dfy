/** The remote catalog site and the regular expressions the model keeps abstract. */
module Web {
  import opened Wrappers

  /** An item identifier: an absolute address. */
  type Url = string

  /** What `requests.get` gives back: a transport failure, or a status code and the decoded body. */
  datatype Response = Unreachable | Response(status: int, text: string)

  /** The remote site, one response per address. */
  datatype Site = Site(get: Url -> Response)

  /** The patterns that stay abstract: the product-link `findall` on a listing page and the
      breadcrumb, availability and star-rating searches on a detail page (each already
      markup-stripped and trimmed as the source does). */
  datatype Patterns = Patterns(
    productLinks: string -> seq<string>,
    genre: string -> Option<string>,
    availability: string -> Option<string>,
    rating: string -> Option<string>)
}
