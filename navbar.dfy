/** The navigation bar (`Navbar`): the signed-in user it follows through the
    identity source's auth-state callback, the search box that routes to the
    feed with a `q` parameter, and the sign-out button. */
module Nav {
  import opened Rows
  import opened Text
  import opened Uri
  import opened Routing
  import opened Feed

  /** An authentication session: the identity it belongs to. */
  datatype Session = Session(user: User)

  /** The prefix of a feed route that carries a search term. */
  const SearchPrefix: string := "/?q="

  /** The route `handleSearch(term)` pushes: the feed alone for a term that
      is empty or all whitespace, otherwise the feed with the trimmed term,
      percent-encoded, as `q`. */
  function SearchRoute(term: string): (route: string)
    ensures route == FeedPath <==> IsBlank(term)
    ensures !IsBlank(term) ==> |route| > 4 && route[..4] == SearchPrefix
  {
    var t := Trim(term);
    if t != [] then
      var v := EncodeURIComponent(t);
      assert (SearchPrefix + v)[..4] == SearchPrefix;
      SearchPrefix + v
    else FeedPath
  }

  /** The `q` search parameter the feed page reads from a route: the
      percent-decoded value after `/?q=`, none for a route without it. */
  function QueryOf(route: string): Option<string>
  {
    if |route| >= 4 && route[..4] == SearchPrefix then DecodeURIComponent(route[4..]) else None
  }

  /** Searching for a term and for its trimmed form lead to the same route. */
  lemma {:induction false} SearchRouteTrims(term: string)
    ensures SearchRoute(Trim(term)) == SearchRoute(term)
  {
    TrimIdempotent(term);
  }

  /** The feed receives exactly the trimmed term: no `q` for a blank term,
      otherwise `q` decodes to the trimmed term, and the feed filters by it. */
  lemma {:induction false} SearchReachesFeed(term: string)
    ensures IsBlank(term) ==> QueryOf(SearchRoute(term)) == None
    ensures !IsBlank(term) ==> QueryOf(SearchRoute(term)) == Some(Trim(term))
    ensures SearchTerm(QueryOf(SearchRoute(term))) == if IsBlank(term) then None else Some(Trim(term))
  {
    var t := Trim(term);
    if t != [] {
      var v := EncodeURIComponent(t);
      assert SearchRoute(term)[4..] == v;
      DecodeEncode(t);
    }
  }

  class Navbar {
    const router: Router
    var user: Option<User>

    /** Mount: no user known yet. */
    constructor (router: Router)
      ensures this.router == router && user == None
    {
      this.router := router;
      user := None;
    }

    /** The `onAuthStateChange` callback: the session's user, or none when
        there is no session. */
    method OnAuthStateChange(session: Option<Session>)
      modifies this`user
      ensures session.Some? ==> user == Some(session.value.user)
      ensures session.None? ==> user == None
    {
      if session.Some? {
        user := Some(session.value.user);
      } else {
        user := None;
      }
    }

    /** `handleSearch(term)`. */
    method HandleSearch(term: string)
      modifies router
      ensures router.log == old(router.log) + [Step.Push(SearchRoute(term))]
    {
      var t := Trim(term);
      if t != [] {
        router.Push(SearchPrefix + EncodeURIComponent(t));
      } else {
        router.Push(FeedPath);
      }
    }

    /** A key pressed in the search box holding `value`: Enter searches for
        it, any other key does nothing. */
    method PressKey(key: string, value: string)
      modifies router
      ensures key == "Enter" ==> router.log == old(router.log) + [Step.Push(SearchRoute(value))]
      ensures key != "Enter" ==> router.log == old(router.log)
    {
      if key == "Enter" {
        HandleSearch(value);
      }
    }

    /** The search button, next to the box holding `value`. */
    method ClickSearch(value: string)
      modifies router
      ensures router.log == old(router.log) + [Step.Push(SearchRoute(value))]
    {
      HandleSearch(value);
    }

    /** `handleSignOut`: once the identity source has ended the session, ask
        the router to refresh. */
    method HandleSignOut()
      modifies router
      ensures router.log == old(router.log) + [Step.Refresh]
    {
      router.Refresh();
    }
  }
}
