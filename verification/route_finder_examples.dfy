/** Concrete resolutions with the route finder: the scenarios of
    __tests__/routeFinderTest.ts, and inputs on which the code departs from the
    idealised rule "an exact route always beats a wildcard". Handlers are
    numbered: 1 for `fooFunction`, 2 for `fooAltFunction`, 3 for `barFunction`. */
module RouteFinderExamples {
  import opened Fp
  import opened Strings
  import opened RouteFinder
  import opened Helpers

  const Foo: int := 1
  const FooAlt: int := 2
  const Bar: int := 3

  /** A method table with one handler, registered under POST. */
  function Post(h: int): MethodTable<int>
  {
    [("POST", h)]
  }

  /** The table of the first tests: `/foo` (or `foo`) with POST and GET, `bar` with PUT. */
  function FooBar(fooKey: string): Endpoints<int>
  {
    [(fooKey, [("POST", Foo), ("GET", FooAlt)]), ("bar", [("PUT", Bar)])]
  }

  /** `/foo` is matched by the keys `/foo` and `foo` and not by `bar`. */
  lemma FooFacts()
    ensures MatchSingleRoute("/foo", "/foo") && MatchSingleRoute("/foo", "foo") && !IsWildcardKey("/foo")
    ensures MatchSingleRoute("foo", "/foo") && MatchSingleRoute("foo", "foo") && !IsWildcardKey("foo")
    ensures !MatchSingleRoute("/foo", "bar") && !MatchSingleRoute("foo", "bar")
  {
    assert WithForwardSlash("foo") == "/foo" by { assert "foo"[0] == 'f'; }
    assert WithForwardSlash("bar") == "/bar" by { assert "bar"[0] == 'b'; }
    assert WithForwardSlash("/foo") == "/foo";
    assert "/foo"[1] != "/bar"[1];
  }

  /** A registered path and method. */
  lemma RegisteredPathAndMethod()
    ensures SearchEndpoints(FooBar("/foo"), PathAndMethod("/foo", "POST")) == Some(Foo)
  {
    FooFacts();
    ExactBeatsNoLongerWildcards("/foo", FooBar("/foo"), 0);
  }

  /** A registered path with an unregistered method. */
  lemma UnknownMethod()
    ensures SearchEndpoints(FooBar("/foo"), PathAndMethod("/foo", "HEAD")) == None
  {
    FooFacts();
    ExactBeatsNoLongerWildcards("/foo", FooBar("/foo"), 0);
  }

  /** A path no key matches. */
  lemma UnknownPath()
    ensures SearchEndpoints(FooBar("/foo"), PathAndMethod("/fake", "POST")) == None
  {
    assert WithForwardSlash("bar") == "/bar" by { assert "bar"[0] == 'b'; }
    assert "/fake"[2] != "/foo"[2] && "/fake"[1] != "/bar"[1];
  }

  /** `foo` and `/foo` are interchangeable as key and as path. */
  lemma MissingForwardSlashes()
    ensures SearchEndpoints(FooBar("foo"), PathAndMethod("/foo", "POST")) == Some(Foo)
    ensures SearchEndpoints(FooBar("/foo"), PathAndMethod("foo", "GET")) == Some(FooAlt)
    ensures SearchEndpoints(FooBar("foo"), PathAndMethod("foo", "GET")) == Some(FooAlt)
  {
    FooFacts();
    ExactBeatsNoLongerWildcards("/foo", FooBar("foo"), 0);
    ExactBeatsNoLongerWildcards("foo", FooBar("/foo"), 0);
    ExactBeatsNoLongerWildcards("foo", FooBar("foo"), 0);
  }

  /** Any `/`-prefixed path without a star is matched by itself, exactly, and
      by itself followed by a star, as a wildcard. */
  lemma SelfMatches(p: string)
    requires StartsWith(p, "/") && '*' !in p
    ensures MatchSingleRoute(p, p) && !IsWildcardKey(p)
    ensures MatchSingleRoute(p, p + "*") && IsWildcardKey(p + "*")
  {
    SlashedExactMatch(p, p);
    SlashedWildcardMatch(p, p);
  }

  /** Registered after the exact key `p`, the wildcard `p*` wins for the path
      `p` because its raw key is one character longer: an exact route does not
      always beat a wildcard. Registered before it, it loses. */
  lemma WildcardAfterExactWins<H>(p: string, a: MethodTable<H>, b: MethodTable<H>)
    requires StartsWith(p, "/") && '*' !in p
    ensures MatchRoute(p, [(p, a), (p + "*", b)]) == Some((p + "*", b))
    ensures MatchRoute(p, [(p + "*", b), (p, a)]) == Some((p, a))
  {
    SelfMatches(p);
    var t := [(p, a), (p + "*", b)];
    LongerWildcardAfterExact(p, t, 0, 1);
    LastExactWins(p, [(p + "*", b), (p, a)], 1);
  }

  /** The instance `/foo/one`, `/foo/one*` (9 > 8). */
  lemma FooOneWildcardAfterExactWins()
    ensures MatchRoute("/foo/one", [("/foo/one", Post(FooAlt)), ("/foo/one*", Post(Foo))]) == Some(("/foo/one*", Post(Foo)))
  {
    var p := "/foo/one";
    assert p + "*" == "/foo/one*";
    WildcardAfterExactWins(p, Post(FooAlt), Post(Foo));
  }

  /** The three keys of the preference tests, against the path `/foo/one`. */
  lemma FooOneFacts()
    ensures MatchSingleRoute("/foo/one", "/foo/*") && IsWildcardKey("/foo/*")
    ensures MatchSingleRoute("/foo/one", "/foo/one") && !IsWildcardKey("/foo/one")
    ensures !MatchSingleRoute("/foo/one", "/bar")
  {
    SelfMatches("/foo/one");
    var stem := "/foo/";
    assert stem + "*" == "/foo/*";
    SlashedWildcardMatch("/foo/one", stem);
    assert "/foo/one"[..5] == stem;
    assert "/foo/one"[1] != "/bar"[1];
  }

  /** The exact `/foo/one` beats the wildcard on `/foo/` registered before it ... */
  lemma ExactPreferredAfterWildcard()
    ensures SearchEndpoints([("/foo/*", Post(Foo)), ("/foo/one", Post(FooAlt)), ("/bar", [("PUT", Bar)])],
                            PathAndMethod("/foo/one", "POST")) == Some(FooAlt)
  {
    FooOneFacts();
    ExactBeatsNoLongerWildcards("/foo/one", [("/foo/*", Post(Foo)), ("/foo/one", Post(FooAlt)), ("/bar", [("PUT", Bar)])], 1);
  }

  /** ... and registered after it. */
  lemma ExactPreferredBeforeWildcard()
    ensures SearchEndpoints([("/foo/one", Post(FooAlt)), ("/foo/*", Post(Foo)), ("/bar", [("PUT", Bar)])],
                            PathAndMethod("/foo/one", "POST")) == Some(FooAlt)
  {
    FooOneFacts();
    ExactBeatsNoLongerWildcards("/foo/one", [("/foo/one", Post(FooAlt)), ("/foo/*", Post(Foo)), ("/bar", [("PUT", Bar)])], 0);
  }

  /** The wildcard on `/foo/` answers `/foo/one`. */
  lemma WildcardAnswers()
    ensures SearchEndpoints([("/foo/*", [("POST", Foo), ("GET", FooAlt)]), ("/bar", [("PUT", Bar)])],
                            PathAndMethod("/foo/one", "POST")) == Some(Foo)
  {
    FooOneFacts();
    var t := [("/foo/*", [("POST", Foo), ("GET", FooAlt)]), ("/bar", [("PUT", Bar)])];
    assert MatchSingleRoute("/foo/one", t[0].0);
    var i := OnlyWildcardsLongestFirst("/foo/one", t);
  }

  /** Of two matching wildcards `short*` and `long*`, where `long` extends
      `short`, the longer key wins, as for `/foo/` and `/foo/more/specific/`
      against `/foo/more/specific/path`; registered first ... */
  lemma LongerWildcardPreferredFirst<H>(path: string, short: string, long: string, a: MethodTable<H>, b: MethodTable<H>)
    requires StartsWith(path, "/") && StartsWith(short, "/") && '*' !in long
    requires StartsWith(long, short) && StartsWith(path, long) && |short| < |long|
    ensures MatchRoute(path, [(long + "*", b), (short + "*", a)]) == Some((long + "*", b))
  {
    NestedWildcardsMatch(path, short, long);
    var t := [(long + "*", b), (short + "*", a)];
    assert MatchSingleRoute(path, t[0].0);
    var i := OnlyWildcardsLongestFirst(path, t);
    assert |t[0].0| <= |t[i].0|;
  }

  /** ... or registered second. */
  lemma LongerWildcardPreferredSecond<H>(path: string, short: string, long: string, a: MethodTable<H>, b: MethodTable<H>)
    requires StartsWith(path, "/") && StartsWith(short, "/") && '*' !in long
    requires StartsWith(long, short) && StartsWith(path, long) && |short| < |long|
    ensures MatchRoute(path, [(short + "*", a), (long + "*", b)]) == Some((long + "*", b))
  {
    NestedWildcardsMatch(path, short, long);
    var t := [(short + "*", a), (long + "*", b)];
    assert MatchSingleRoute(path, t[0].0);
    var i := OnlyWildcardsLongestFirst(path, t);
    assert |t[1].0| <= |t[i].0|;
  }

  /** Both nested wildcards match the path. */
  lemma NestedWildcardsMatch(path: string, short: string, long: string)
    requires StartsWith(path, "/") && StartsWith(short, "/") && '*' !in long
    requires StartsWith(long, short) && StartsWith(path, long)
    ensures MatchSingleRoute(path, short + "*") && IsWildcardKey(short + "*")
    ensures MatchSingleRoute(path, long + "*") && IsWildcardKey(long + "*")
  {
    assert '*' !in short by {
      assert forall k :: 0 <= k < |short| ==> short[k] == long[k];
    }
    SlashedWildcardMatch(path, short);
    SlashedWildcardMatch(path, long);
  }

  /** The key `/bar` does not match `/foo/more/specific/path`. */
  lemma SpecificPathBarFacts()
    ensures !MatchSingleRoute("/foo/more/specific/path", "/bar")
  {
    var path := "/foo/more/specific/path";
    assert path[1] != "/bar"[1];
  }

  /** For any matcher: of three entries where the first two match and the
      third does not, a longer wildcard second is the fold's result. */
  lemma SelectionLongerSecond<H>(m: string -> bool, e0: Entry<H>, e1: Entry<H>, e2: Entry<H>)
    requires m(e0.0) && m(e1.0) && !m(e2.0)
    requires IsWildcardKey(e1.0) && |e0.0| < |e1.0|
    ensures Selection(m, [e0, e1, e2]) == Some(e1)
  {
    var t := [e0, e1, e2];
    assert t[..2] == [e0, e1] && [e0, e1][..1] == [e0] && [e0][..0] == [];
    assert Matching(m, [e0]) == [e0];
    assert Matching(m, [e0, e1]) == [e0, e1];
    assert Matching(m, t) == [e0, e1];
    assert Best([e0]) == Some(e0);
  }

  /** `LongerWildcardPreferredSecond` with a third, non-matching key after
      the two wildcards, as in the longer-path test. */
  lemma LongerWildcardPreferredAmid<H>(path: string, short: string, long: string, other: string,
                                       a: MethodTable<H>, b: MethodTable<H>, c: MethodTable<H>)
    requires StartsWith(path, "/") && StartsWith(short, "/") && '*' !in long
    requires StartsWith(long, short) && StartsWith(path, long) && |short| < |long|
    requires !MatchSingleRoute(path, other)
    ensures MatchRoute(path, [(short + "*", a), (long + "*", b), (other, c)]) == Some((long + "*", b))
  {
    NestedWildcardsMatch(path, short, long);
    SelectionLongerSecond(RouteMatcher(path), (short + "*", a), (long + "*", b), (other, c));
  }

  /** With the wildcards on `/foo/` and `/foo/more/specific/` and the key
      `/bar`, `/foo/more/specific/path` selects the longer wildcard. */
  lemma LongerPathRoute()
    ensures MatchRoute("/foo/more/specific/path",
                       [("/foo/*", Post(FooAlt)), ("/foo/more/specific/*", Post(Foo)), ("/bar", [("PUT", Bar)])])
            == Some(("/foo/more/specific/*", Post(Foo)))
  {
    SpecificPathBarFacts();
    var path := "/foo/more/specific/path";
    var short := "/foo/";
    var long := "/foo/more/specific/";
    assert short + "*" == "/foo/*";
    assert long + "*" == "/foo/more/specific/*";
    assert long[..5] == short && path[..19] == long;
    assert '*' !in long by {
      assert forall k :: 0 <= k < |long| ==> long[k] != '*';
    }
    LongerWildcardPreferredAmid(path, short, long, "/bar", Post(FooAlt), Post(Foo), [("PUT", Bar)]);
  }

  /** The longer-path test itself: POST on `/foo/more/specific/path`
      reaches `fooFunction`. */
  lemma LongerPathPreferred()
    ensures SearchEndpoints([("/foo/*", Post(FooAlt)), ("/foo/more/specific/*", Post(Foo)), ("/bar", [("PUT", Bar)])],
                            PathAndMethod("/foo/more/specific/path", "POST")) == Some(Foo)
  {
    LongerPathRoute();
  }

  /** Two wildcards of equal raw length, `p*` and `q*`, both matching: the one
      registered first wins. */
  lemma EqualLengthWildcardsFirstWins<H>(path: string, p: string, q: string, a: MethodTable<H>, b: MethodTable<H>)
    requires |p| == |q| && MatchSingleRoute(path, p + "*") && MatchSingleRoute(path, q + "*")
    ensures MatchRoute(path, [(p + "*", a), (q + "*", b)]) == Some((p + "*", a))
  {
    var t := [(p + "*", a), (q + "*", b)];
    assert IsWildcardKey(t[0].0) && IsWildcardKey(t[1].0) by {
      assert t[0].0[|p|] == '*' && t[1].0[|q|] == '*';
    }
    assert MatchSingleRoute(path, t[0].0);
    var i := OnlyWildcardsLongestFirst(path, t);
  }

  /** The instance `/a*` and `ab*` against `/ab`, in both orders. */
  lemma AbFirstWins()
    ensures MatchRoute("/ab", [("/a*", Post(Foo)), ("ab*", Post(FooAlt))]) == Some(("/a*", Post(Foo)))
    ensures MatchRoute("/ab", [("ab*", Post(FooAlt)), ("/a*", Post(Foo))]) == Some(("ab*", Post(FooAlt)))
  {
    assert "/a" + "*" == "/a*" && "ab" + "*" == "ab*";
    WildcardRouteMatch("/ab", "/a");
    WildcardRouteMatch("/ab", "ab");
    assert WithForwardSlash("ab") == "/ab" by { assert "ab"[0] == 'a'; }
    EqualLengthWildcardsFirstWins("/ab", "/a", "ab", Post(Foo), Post(FooAlt));
    EqualLengthWildcardsFirstWins("/ab", "ab", "/a", Post(FooAlt), Post(Foo));
  }

  /** The empty key matches the empty path (both read as `/`) and, being
      exact and registered last, is selected over the wildcard on `/`;
      `matchRoute` then answers `None` although a wildcard matched. */
  lemma EmptyKeyHidesMatch()
    ensures MatchSingleRoute("", "/*") && MatchSingleRoute("", "")
    ensures MatchRoute("", [("/*", Post(Foo)), ("", Post(FooAlt))]) == None
  {
    assert "/" + "*" == "/*";
    WildcardRouteMatch("", "/");
    ExactRouteMatch("", "");
    LastExactWins("", [("/*", Post(Foo)), ("", Post(FooAlt))], 1);
  }

  /** Removing the first star of `/a*b*` leaves `/ab*`. */
  lemma FirstStarOfAStarBStar()
    ensures RemoveFirst("/a*b*", '*') == "/ab*"
  {
    var s := "/a*b*";
    assert s == "/a" + ['*'] + "b*";
    RemoveFirstAt("/a", '*', "b*");
    assert "/a" + "b*" == "/ab*";
  }

  /** `replace("*", "")` drops the FIRST star: the key `/a*b*` needs the prefix
      `/ab*`, so it does not match `/a*b/x` although that path starts with the
      key minus its trailing star, and it does match `/ab*`. */
  lemma ReplaceRemovesFirstStar()
    ensures StartsWith("/a*b/x", "/a*b") && !MatchSingleRoute("/a*b/x", "/a*b*")
    ensures MatchSingleRoute("/ab*", "/a*b*")
  {
    var key := "/a*b*";
    assert key[0] == '/' && key[4] == '*';
    FirstStarOfAStarBStar();
    WildcardRouteMatchFirstStar("/a*b/x", key);
    WildcardRouteMatchFirstStar("/ab*", key);
    assert WithForwardSlash(key) == key;
    assert WithForwardSlash("/a*b/x") == "/a*b/x" && WithForwardSlash("/ab*") == "/ab*";
    assert "/a*b/x"[2] != "/ab*"[2];
  }

  /** Removing the first star of `/a**` leaves `/a*`. */
  lemma FirstStarOfAStarStar()
    ensures RemoveFirst("/a**", '*') == "/a*"
  {
    var s := "/a**";
    assert s == "/a" + ['*'] + "*";
    RemoveFirstAt("/a", '*', "*");
  }

  /** The key `/a*b` against the path `/a*b`: a literal match. */
  lemma InnerStarMatchesLiterally()
    ensures MatchSingleRoute("/a*b", "/a*b") && IsWildcardKey("/a*b")
  {
    var key := "/a*b";
    assert key[0] == '/' && key[|key| - 1] == 'b' && key[2] == '*';
    SlashedExactMatch(key, key);
  }

  /** The key `/a**` against the path `/a*b`: a prefix match on `/a*`. */
  lemma DoubleStarMatches()
    ensures MatchSingleRoute("/a*b", "/a**") && IsWildcardKey("/a**")
  {
    var wild := "/a**";
    assert wild[0] == '/' && wild[3] == '*';
    var path := "/a*b";
    assert path[0] == '/' && path[..3] == "/a*";
    assert WithForwardSlash(wild) == wild && WithForwardSlash(path) == path;
    FirstStarOfAStarStar();
    WildcardRouteMatchFirstStar(path, wild);
  }

  /** A key holding a `*` that is not its last character matches only
      literally, yet counts as a wildcard when selecting: `/a*b` matching the
      path `/a*b` exactly does not displace the equally long `/a**` before it. */
  lemma InnerStarKeyIsNotExact()
    ensures MatchRoute("/a*b", [("/a**", Post(Foo)), ("/a*b", Post(FooAlt))]) == Some(("/a**", Post(Foo)))
  {
    InnerStarMatchesLiterally();
    DoubleStarMatches();
    var t := [("/a**", Post(Foo)), ("/a*b", Post(FooAlt))];
    assert MatchSingleRoute("/a*b", t[0].0);
    var i := OnlyWildcardsLongestFirst("/a*b", t);
  }
}
