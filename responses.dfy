/** The responses of the form-posting views: a redirect, or the 404 page of `get_object_or_404`. */
module Responses {
  datatype Response = RedirectHome | RedirectTo(url: string) | RedirectToCategory(slug: string) | NotFound

  /**
   * Where a successful submission goes: the non-empty `next` URL, or the item's category page.
   * The ensures are that mapping itself; VoteView, RateView and RateApi rely on it.
   */
  function AfterSubmit(next: string, categorySlug: string): (r: Response)
    ensures next != "" ==> r == RedirectTo(next)
    ensures next == "" ==> r == RedirectToCategory(categorySlug)
  {
    if next != "" then RedirectTo(next) else RedirectToCategory(categorySlug)
  }
}
