/** The `display_name` template filter (catalog/templatetags/custom_filters.py). */
module CustomFilters {
  import opened Wrappers

  /** The parts of a user the filter reads; `None` is a falsy user. */
  datatype Person = Person(firstName: string, lastName: string)

  /** The viewing user; `None` is no viewer at all. */
  datatype Viewer = Viewer(isAuthenticated: bool)

  predicate SignedIn(viewer: Option<Viewer>)
  {
    viewer.Some? && viewer.value.isAuthenticated
  }

  /** The first letter of the last name, or nothing for an empty last name. */
  function LastInitial(lastName: string): (r: string)
    ensures |r| <= 1 && r <= lastName && (r == "" <==> lastName == "")
  {
    if lastName == "" then "" else [lastName[0]]
  }

  // The ensures are the filter's three cases as the source writes them; AnonymousIsPrefix,
  // MissingViewerIsAnonymous and EmptyLastName state what follows from them.
  function DisplayName(user: Option<Person>, viewer: Option<Viewer>): (r: string)
    ensures user.None? ==> r == ""
    ensures user.Some? && SignedIn(viewer) ==> r == user.value.firstName + " " + user.value.lastName
    ensures user.Some? && !SignedIn(viewer) ==> r == user.value.firstName + " " + LastInitial(user.value.lastName)
  {
    if user.None? then ""
    else if SignedIn(viewer) then user.value.firstName + " " + user.value.lastName
    else user.value.firstName + " " + LastInitial(user.value.lastName)
  }

  /** What a visitor sees is a prefix of what a signed-in user sees, at most one letter past the space. */
  lemma AnonymousIsPrefix(p: Person, viewer: Option<Viewer>)
    requires !SignedIn(viewer)
    ensures DisplayName(Some(p), viewer) <= DisplayName(Some(p), Some(Viewer(true)))
    ensures |DisplayName(Some(p), viewer)| <= |p.firstName| + 2
  {
    var full := p.firstName + " " + p.lastName;
    var short := p.firstName + " " + LastInitial(p.lastName);
    assert short == full[..|short|];
  }

  /** No viewer shows the same as a signed-out one. */
  lemma MissingViewerIsAnonymous(user: Option<Person>)
    ensures DisplayName(user, None) == DisplayName(user, Some(Viewer(false)))
  {
  }

  /** An empty last name leaves the trailing space, for every viewer. */
  lemma EmptyLastName(first: string, viewer: Option<Viewer>)
    ensures DisplayName(Some(Person(first, "")), viewer) == first + " "
  {
  }
}
