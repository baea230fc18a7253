/** The route resolver of src/routeFinder.ts: matching of one route key against
    a request path, selection of the best matching entry by a fold over the
    matching entries, and dispatch on the HTTP method inside the selected
    entry's method table.

    The endpoint table is the sequence of `[key, methodTable]` pairs in
    `Object.entries` order; a method table is the same kind of sequence from
    method name to handler. Handlers are opaque values of type `H`. */
module RouteFinder {
  import opened Fp
  import opened Strings
  import Table
  import Helpers

  type MethodTable<H> = Table.Table<H>
  type Entry<H> = (string, MethodTable<H>)
  type Endpoints<H> = seq<Entry<H>>

  // ----------------------------------------------------------------------
  // Matching one route key
  // ----------------------------------------------------------------------

  /** `s` if it already starts with `/`, otherwise `/` prepended. */
  function WithForwardSlash(s: string): (r: string)
    ensures StartsWith(r, "/")
    ensures StartsWith(s, "/") ==> r == s
  {
    if StartsWith(s, "/") then s else "/" + s
  }

  /** `matchSingleRoute(path)(route)`: both sides get a leading `/`; a route
      whose normalised form ends in `*` matches every path that starts with the
      route minus its FIRST `*`; any other route must equal the path. */
  predicate MatchSingleRoute(path: string, route: string)
  {
    var p := WithForwardSlash(path);
    var r := WithForwardSlash(route);
    if EndsWith(r, '*') then StartsWith(p, RemoveFirst(r, '*'))
    else r == p
  }

  /** Normalising leaves an already slashed string alone, is idempotent, and
      `foo` and `/foo` normalise alike. */
  lemma WithForwardSlashIdempotent(s: string)
    ensures StartsWith(s, "/") ==> WithForwardSlash(s) == s
    ensures WithForwardSlash(WithForwardSlash(s)) == WithForwardSlash(s)
    ensures !StartsWith(s, "/") ==> WithForwardSlash("/" + s) == WithForwardSlash(s)
  {
  }

  /** Adding the leading slash to either the path or the route never changes
      whether they match: `foo` and `/foo` are interchangeable on both sides. */
  lemma SlashInsensitive(path: string, route: string)
    ensures MatchSingleRoute(WithForwardSlash(path), route) == MatchSingleRoute(path, route)
    ensures MatchSingleRoute(path, WithForwardSlash(route)) == MatchSingleRoute(path, route)
  {
    WithForwardSlashIdempotent(path);
    WithForwardSlashIdempotent(route);
  }

  /** A key not ending in `*` matches exactly the paths equal to it up to one
      leading slash on either side. */
  lemma ExactRouteMatch(path: string, route: string)
    requires !EndsWith(route, '*')
    ensures MatchSingleRoute(path, route) <==> WithForwardSlash(path) == WithForwardSlash(route)
  {
  }

  /** A key ending in `*`, wherever its other stars are, matches exactly the
      paths that, normalised, start with the normalised key minus its first `*`. */
  lemma WildcardRouteMatchFirstStar(path: string, route: string)
    requires EndsWith(route, '*')
    ensures MatchSingleRoute(path, route) <==>
              StartsWith(WithForwardSlash(path), RemoveFirst(WithForwardSlash(route), '*'))
  {
  }

  /** On a path and a key that already start with `/`, a key not ending in
      `*` matches only the identical path. */
  lemma SlashedExactMatch(path: string, route: string)
    requires StartsWith(path, "/") && StartsWith(route, "/") && !EndsWith(route, '*')
    ensures MatchSingleRoute(path, route) <==> path == route
  {
  }

  /** On a path and a stem that already start with `/`, the key `stem*`
      matches exactly the paths starting with the stem. */
  lemma SlashedWildcardMatch(path: string, stem: string)
    requires StartsWith(path, "/") && StartsWith(stem, "/") && '*' !in stem
    ensures MatchSingleRoute(path, stem + "*") <==> StartsWith(path, stem)
    ensures IsWildcardKey(stem + "*")
  {
    WildcardRouteMatch(path, stem);
    assert (stem + "*")[|stem|] == '*';
  }

  /** Normalising a key with one trailing `*` is normalising its stem. */
  lemma WithForwardSlashTrailingStar(w: string)
    ensures WithForwardSlash(w + "*") == WithForwardSlash(w) + "*"
  {
    if |w| > 0 {
      assert (w + "*")[0] == w[0];
      assert ("/" + w) + "*" == "/" + (w + "*");
    } else {
      assert w + "*" == "*";
      assert WithForwardSlash(w) == "/";
      assert !StartsWith("*", "/") by { assert "*"[0] == '*'; }
    }
  }

  /** A key `w*` whose stem holds no other `*` matches exactly the paths that,
      normalised, start with the normalised stem: the key `/foo/` followed by a star matches `/foo/one`. */
  lemma WildcardRouteMatch(path: string, w: string)
    requires '*' !in w
    ensures MatchSingleRoute(path, w + "*") <==> StartsWith(WithForwardSlash(path), WithForwardSlash(w))
  {
    WithForwardSlashTrailingStar(w);
    var r := WithForwardSlash(w + "*");
    assert EndsWith(r, '*');
    assert '*' !in WithForwardSlash(w) by {
      if !StartsWith(w, "/") {
        assert forall k :: 1 <= k < |"/" + w| ==> ("/" + w)[k] == w[k - 1];
      }
    }
    RemoveFirstOfTrailing(WithForwardSlash(w), '*');
  }

  // ----------------------------------------------------------------------
  // Selecting the best matching entry
  // ----------------------------------------------------------------------

  /** A key is treated as a wildcard during SELECTION when it contains a `*`
      anywhere (`includes('*')`), unlike matching, which looks at the last
      character only. */
  predicate IsWildcardKey(key: string)
  {
    '*' in key
  }

  /** The raw length of the best key so far; the initial accumulator `[]` has
      no key, which `?.length ?? 0` reads as length 0. */
  function BestLength<H>(best: Option<Entry<H>>): nat
  {
    if best.Some? then |best.value.0| else 0
  }

  /** `getBestMatchingPath(acc, curr)`. The reduce starts from `[]`, which is
      truthy, so the source's `!acc` branch never fires; "no best yet"
      (`None` here) only ever shows as a best length of 0. A key without `*`
      always replaces the best; a key with `*` replaces it only when its raw
      length is strictly greater. */
  function GetBestMatchingPath<H>(best: Option<Entry<H>>, curr: Entry<H>): (r: Option<Entry<H>>)
    ensures r == best || r == Some(curr)
    ensures r.Some?
  {
    if !IsWildcardKey(curr.0) then Some(curr)
    else if |curr.0| > BestLength(best) then Some(curr)
    else best
  }

  /** The reduce of `GetBestMatchingPath` over `s` from the empty accumulator,
      stated on the last element: the fold of `s` is one step applied to the
      fold of `s` without its last element. */
  function Best<H>(s: seq<Entry<H>>): Option<Entry<H>>
  {
    if |s| == 0 then None
    else GetBestMatchingPath(Best(s[..|s| - 1]), s[|s| - 1])
  }

  /** `matchRouteForEvent = matchSingleRoute(path)`: the matcher for one path. */
  function RouteMatcher(path: string): string -> bool
  {
    route => MatchSingleRoute(path, route)
  }

  /** `Object.entries(endpoints).filter(endpoint => matches(endpoint[0]))`, in
      table order. */
  function Matching<H>(matches: string -> bool, t: Endpoints<H>): (r: Endpoints<H>)
    ensures forall k :: 0 <= k < |r| ==> r[k] in t && matches(r[k].0)
    ensures forall k :: 0 <= k < |t| && matches(t[k].0) ==> t[k] in r
  {
    if |t| == 0 then []
    else
      var last := t[|t| - 1];
      assert t == t[..|t| - 1] + [last];
      Matching(matches, t[..|t| - 1]) + (if matches(last.0) then [last] else [])
  }

  /** The reduced value `result` of `matchRoute` before its key is inspected. */
  function Selection<H>(matches: string -> bool, t: Endpoints<H>): Option<Entry<H>>
  {
    Best(Matching(matches, t))
  }

  /** `matchRoute(path)(endpoints)`: the selected entry, or `None` when nothing
      matched or the selected key is the empty string (`result[0]` is falsy). */
  function MatchRoute<H>(path: string, t: Endpoints<H>): (r: Option<Entry<H>>)
    ensures r.Some? ==> r.value in t && MatchSingleRoute(path, r.value.0) && r.value.0 != ""
  {
    var result := Selection(RouteMatcher(path), t);
    SelectionIsMatchingEntry(RouteMatcher(path), t);
    if result.Some? && result.value.0 != "" then result else None
  }

  /** The selection is one of the matching entries, and exists as soon as one
      entry matches. */
  lemma {:induction false} SelectionIsMatchingEntry<H>(matches: string -> bool, t: Endpoints<H>)
    ensures Selection(matches, t).Some? <==> exists k :: 0 <= k < |t| && matches(t[k].0)
    ensures Selection(matches, t).Some? ==> Selection(matches, t).value in t && matches(Selection(matches, t).value.0)
  {
    var s := Matching(matches, t);
    BestIsElement(s);
    if exists k :: 0 <= k < |t| && matches(t[k].0) {
      var k :| 0 <= k < |t| && matches(t[k].0);
      assert t[k] in s;
    }
  }

  /** The fold yields one of the folded entries, and `None` only for nothing. */
  lemma {:induction false} BestIsElement<H>(s: seq<Entry<H>>)
    ensures Best(s).Some? <==> |s| > 0
    ensures Best(s).Some? ==> Best(s).value in s
  {
    if |s| > 0 {
      BestIsElement(s[..|s| - 1]);
      assert forall e :: e in s[..|s| - 1] ==> e in s;
    }
  }

  // ----------------------------------------------------------------------
  // A declarative description of the winner
  // ----------------------------------------------------------------------

  /** The index of the last matching entry whose key has no `*`, or -1. */
  function LastExact<H>(matches: string -> bool, t: Endpoints<H>): (r: int)
    ensures -1 <= r < |t|
    ensures r >= 0 ==> matches(t[r].0) && !IsWildcardKey(t[r].0)
    ensures forall k :: r < k < |t| && matches(t[k].0) ==> IsWildcardKey(t[k].0)
  {
    if |t| == 0 then -1
    else if matches(t[|t| - 1].0) && !IsWildcardKey(t[|t| - 1].0) then |t| - 1
    else
      var r := LastExact(matches, t[..|t| - 1]);
      assert forall k :: 0 <= k < |t| - 1 ==> t[..|t| - 1][k] == t[k];
      r
  }

  /** Entry `i` is the winner: it matches, it is not before the last matching
      key without `*`, no matching entry from that point on has a longer raw
      key, and every matching entry from that point up to `i` has a strictly
      shorter one (so among equally long keys the first one wins). */
  ghost predicate Selected<H>(matches: string -> bool, t: Endpoints<H>, i: int)
  {
    var lo := LastExact(matches, t);
    && 0 <= i < |t| && lo <= i && matches(t[i].0)
    && (forall k :: lo < k < |t| && matches(t[k].0) ==> |t[k].0| <= |t[i].0|)
    && (forall k :: 0 <= k < i && lo <= k && matches(t[k].0) ==> |t[k].0| < |t[i].0|)
  }

  /** At most one entry is the winner. */
  lemma SelectedUnique<H>(matches: string -> bool, t: Endpoints<H>, i: int, j: int)
    requires Selected(matches, t, i) && Selected(matches, t, j)
    ensures i == j
  {
  }

  /** One step of the filtered fold, seen on the whole table. */
  lemma SelectionStep<H>(matches: string -> bool, t: Endpoints<H>)
    requires |t| > 0
    ensures Selection(matches, t) ==
              if matches(t[|t| - 1].0) then GetBestMatchingPath(Selection(matches, t[..|t| - 1]), t[|t| - 1])
              else Selection(matches, t[..|t| - 1])
  {
    var s := Matching(matches, t[..|t| - 1]);
    if matches(t[|t| - 1].0) {
      assert (s + [t[|t| - 1]])[..|s|] == s;
    } else {
      assert s + [] == s;
    }
  }

  /** A last entry that does not match leaves the winner where it was. */
  lemma SelectedKeptPastMiss<H>(matches: string -> bool, t: Endpoints<H>, i: int)
    requires |t| > 0 && !matches(t[|t| - 1].0)
    requires Selected(matches, t[..|t| - 1], i)
    ensures Selected(matches, t, i)
  {
    var u := t[..|t| - 1];
    assert forall k :: 0 <= k < |u| ==> u[k] == t[k];
    assert LastExact(matches, t) == LastExact(matches, u);
  }

  /** A last entry that matches with a `*`-free key is the winner. */
  lemma SelectedLastExact<H>(matches: string -> bool, t: Endpoints<H>)
    requires |t| > 0 && matches(t[|t| - 1].0) && !IsWildcardKey(t[|t| - 1].0)
    ensures Selected(matches, t, |t| - 1)
  {
  }

  /** A matching wildcard last entry, with no matching entry before it, is the winner. */
  lemma SelectedFirstWildcard<H>(matches: string -> bool, t: Endpoints<H>)
    requires |t| > 0 && matches(t[|t| - 1].0) && IsWildcardKey(t[|t| - 1].0)
    requires forall k :: 0 <= k < |t| - 1 ==> !matches(t[k].0)
    ensures Selected(matches, t, |t| - 1)
  {
    var u := t[..|t| - 1];
    assert forall k :: 0 <= k < |u| ==> u[k] == t[k];
    assert LastExact(matches, u) == -1;
  }

  /** A matching wildcard last entry with a strictly longer raw key than the
      previous winner takes over. */
  lemma SelectedLongerWildcard<H>(matches: string -> bool, t: Endpoints<H>, i: int)
    requires |t| > 0 && matches(t[|t| - 1].0) && IsWildcardKey(t[|t| - 1].0)
    requires Selected(matches, t[..|t| - 1], i)
    requires |t[|t| - 1].0| > |t[i].0|
    ensures Selected(matches, t, |t| - 1)
  {
    var n := |t| - 1;
    var u := t[..n];
    assert forall k :: 0 <= k < |u| ==> u[k] == t[k];
    var lo := LastExact(matches, u);
    assert LastExact(matches, t) == lo;
    forall k | 0 <= k < n && lo <= k && matches(t[k].0)
      ensures |t[k].0| < |t[n].0|
    {
      assert matches(u[k].0);
      if k > lo {
        assert |u[k].0| <= |u[i].0|;
      } else if i > lo {
        assert |u[k].0| < |u[i].0|;
      }
    }
  }

  /** A matching wildcard last entry that is not longer leaves the winner in place. */
  lemma SelectedKeptPastShorterWildcard<H>(matches: string -> bool, t: Endpoints<H>, i: int)
    requires |t| > 0 && matches(t[|t| - 1].0) && IsWildcardKey(t[|t| - 1].0)
    requires Selected(matches, t[..|t| - 1], i)
    requires |t[|t| - 1].0| <= |t[i].0|
    ensures Selected(matches, t, i)
  {
    var u := t[..|t| - 1];
    assert forall k :: 0 <= k < |u| ==> u[k] == t[k];
    assert LastExact(matches, t) == LastExact(matches, u);
  }

  /** The fold agrees with the declarative description: it selects nothing
      exactly when no entry matches, and otherwise the winner `i`. */
  lemma {:induction false} SelectionIsSelected<H>(matches: string -> bool, t: Endpoints<H>) returns (i: int)
    ensures Selection(matches, t).None? <==> forall k :: 0 <= k < |t| ==> !matches(t[k].0)
    ensures Selection(matches, t).Some? ==> Selected(matches, t, i) && Selection(matches, t) == Some(t[i])
  {
    if |t| == 0 {
      return -1;
    }
    var n := |t| - 1;
    var u := t[..n];
    var x := t[n];
    assert forall k :: 0 <= k < n ==> u[k] == t[k];
    SelectionStep(matches, t);
    var i' := SelectionIsSelected(matches, u);
    if !matches(x.0) {
      i := i';
      if Selection(matches, u).Some? {
        SelectedKeptPastMiss(matches, t, i');
      }
    } else if !IsWildcardKey(x.0) {
      i := n;
      SelectedLastExact(matches, t);
    } else if Selection(matches, u).None? {
      i := n;
      SelectedFirstWildcard(matches, t);
    } else if |x.0| > |t[i'].0| {
      i := n;
      SelectedLongerWildcard(matches, t, i');
    } else {
      i := i';
      SelectedKeptPastShorterWildcard(matches, t, i');
    }
  }

  // ----------------------------------------------------------------------
  // Properties of route selection
  // ----------------------------------------------------------------------

  /** `matchRoute` answers `None` exactly when nothing matches or the selected
      key is the empty string; otherwise it answers the winner. */
  lemma MatchRouteIsWinner<H>(path: string, t: Endpoints<H>) returns (i: int)
    ensures MatchRoute(path, t).None? <==>
              (forall k :: 0 <= k < |t| ==> !MatchSingleRoute(path, t[k].0))
              || (Selected(RouteMatcher(path), t, i) && t[i].0 == "")
    ensures MatchRoute(path, t).Some? ==> Selected(RouteMatcher(path), t, i) && MatchRoute(path, t) == Some(t[i])
  {
    i := SelectionIsSelected(RouteMatcher(path), t);
  }

  /** The last matching key without `*` wins unless a matching wildcard
      registered after it has a strictly longer raw key; what was registered
      before it plays no part. */
  lemma LastExactWins<H>(path: string, t: Endpoints<H>, j: int)
    requires 0 <= j < |t| && MatchSingleRoute(path, t[j].0) && !IsWildcardKey(t[j].0)
    requires forall k :: j < k < |t| && MatchSingleRoute(path, t[k].0) ==>
               IsWildcardKey(t[k].0) && |t[k].0| <= |t[j].0|
    ensures MatchRoute(path, t) == if t[j].0 == "" then None else Some(t[j])
  {
    var m := RouteMatcher(path);
    assert LastExact(m, t) == j;
    assert Selected(m, t, j);
    var i := SelectionIsSelected(m, t);
    SelectedUnique(m, t, i, j);
  }

  /** A matching key without `*` wins over every other matching entry when
      those are all wildcards whose raw keys are not longer, whatever the
      registration order; the empty key is still answered with `None`. */
  lemma ExactBeatsNoLongerWildcards<H>(path: string, t: Endpoints<H>, j: int)
    requires 0 <= j < |t| && MatchSingleRoute(path, t[j].0) && !IsWildcardKey(t[j].0)
    requires forall k :: 0 <= k < |t| && k != j && MatchSingleRoute(path, t[k].0) ==>
               IsWildcardKey(t[k].0) && |t[k].0| <= |t[j].0|
    ensures MatchRoute(path, t) == if t[j].0 == "" then None else Some(t[j])
  {
    LastExactWins(path, t, j);
  }

  /** Conversely, a matching wildcard registered after the last matching key
      without `*` and strictly longer than it displaces it: the answer is then
      a wildcard entry whose raw key is at least as long. */
  lemma LongerWildcardAfterExact<H>(path: string, t: Endpoints<H>, j: int, w: int)
    requires 0 <= j < w < |t| && MatchSingleRoute(path, t[j].0) && !IsWildcardKey(t[j].0)
    requires forall k :: j < k < |t| && MatchSingleRoute(path, t[k].0) ==> IsWildcardKey(t[k].0)
    requires MatchSingleRoute(path, t[w].0) && |t[w].0| > |t[j].0|
    ensures MatchRoute(path, t).Some?
    ensures IsWildcardKey(MatchRoute(path, t).value.0) && |MatchRoute(path, t).value.0| >= |t[w].0|
  {
    var m := RouteMatcher(path);
    var i := LongerWildcardWinsAfter(m, t, j, w);
    assert Selection(m, t) == Some(t[i]);
    assert |t[i].0| > 0;
  }

  /** `LongerWildcardAfterExact` for any matcher, naming the winner. */
  lemma LongerWildcardWinsAfter<H>(m: string -> bool, t: Endpoints<H>, j: int, w: int) returns (i: int)
    requires 0 <= j < w < |t| && m(t[j].0) && !IsWildcardKey(t[j].0)
    requires forall k :: j < k < |t| && m(t[k].0) ==> IsWildcardKey(t[k].0)
    requires m(t[w].0) && |t[w].0| > |t[j].0|
    ensures 0 <= i < |t| && Selection(m, t) == Some(t[i])
    ensures IsWildcardKey(t[i].0) && |t[i].0| >= |t[w].0|
  {
    i := SelectionIsSelected(m, t);
    assert LastExact(m, t) == j;
    assert |t[w].0| <= |t[i].0|;
  }

  /** When every matching key is a wildcard, the winner has the longest raw key
      among the matching entries, and on equal lengths it is the first of them
      in table order (the comparison is a strict `>`). */
  lemma OnlyWildcardsLongestFirst<H>(path: string, t: Endpoints<H>) returns (i: int)
    requires exists k :: 0 <= k < |t| && MatchSingleRoute(path, t[k].0)
    requires forall k :: 0 <= k < |t| && MatchSingleRoute(path, t[k].0) ==> IsWildcardKey(t[k].0)
    ensures 0 <= i < |t| && MatchRoute(path, t) == Some(t[i])
    ensures forall k :: 0 <= k < |t| && MatchSingleRoute(path, t[k].0) ==> |t[k].0| <= |t[i].0|
    ensures forall k :: 0 <= k < i && MatchSingleRoute(path, t[k].0) ==> |t[k].0| < |t[i].0|
  {
    var m := RouteMatcher(path);
    i := SelectionIsSelected(m, t);
    assert LastExact(m, t) == -1;
  }

  // ----------------------------------------------------------------------
  // Method dispatch
  // ----------------------------------------------------------------------

  /** `getFunctionPerMethod`: the method table of a selected entry. */
  function GetFunctionPerMethod<H>(best: Entry<H>): MethodTable<H>
  {
    best.1
  }

  /** `matchMethod(method)(functionPerMethod)`: the handler registered under
      exactly `httpMethod` (case-sensitive), or `None`. */
  function MatchMethod<H>(httpMethod: string, functionPerMethod: MethodTable<H>): (r: Option<H>)
    ensures r.None? <==> !Table.HasKey(functionPerMethod, httpMethod)
    ensures r.Some? ==> exists i :: 0 <= i < |functionPerMethod| && functionPerMethod[i] == (httpMethod, r.value)
  {
    Table.Lookup(functionPerMethod, httpMethod)
  }

  /** `searchEndpoints(endpoints)(pathAndMethod)`: route selection on the path,
      then method dispatch in the selected entry only. */
  function SearchEndpoints<H>(t: Endpoints<H>, pm: Helpers.PathAndMethod): (r: Option<H>)
    ensures r.Some? ==> MatchRoute(pm.path, t).Some?
    ensures r.Some? ==> exists i :: 0 <= i < |GetFunctionPerMethod(MatchRoute(pm.path, t).value)|
                                    && GetFunctionPerMethod(MatchRoute(pm.path, t).value)[i] == (pm.methodName, r.value)
  {
    match MatchRoute(pm.path, t)
    case None => None
    case Some(best) => MatchMethod(pm.methodName, GetFunctionPerMethod(best))
  }

  /** For a path that selects an entry and a method registered in that
      entry's table, the answer is exactly the handler registered there. */
  lemma SearchEndpointsFindsHandler<H>(t: Endpoints<H>, pm: Helpers.PathAndMethod, i: int)
    requires MatchRoute(pm.path, t).Some?
    requires Table.DistinctKeys(MatchRoute(pm.path, t).value.1)
    requires 0 <= i < |MatchRoute(pm.path, t).value.1| && MatchRoute(pm.path, t).value.1[i].0 == pm.methodName
    ensures SearchEndpoints(t, pm) == Some(MatchRoute(pm.path, t).value.1[i].1)
  {
    Table.LookupEntry(MatchRoute(pm.path, t).value.1, i);
  }

  /** Only the selected entry's table is consulted: when it lacks the method
      the answer is `None`, even if another matching entry registers it. */
  lemma MethodOnlyFromSelectedEntry<H>(t: Endpoints<H>, pm: Helpers.PathAndMethod)
    requires MatchRoute(pm.path, t).Some?
    requires !Table.HasKey(MatchRoute(pm.path, t).value.1, pm.methodName)
    ensures SearchEndpoints(t, pm) == None
  {
  }

  /** No matching entry, or an empty selected key, means no handler. */
  lemma NoRouteNoHandler<H>(t: Endpoints<H>, pm: Helpers.PathAndMethod)
    requires MatchRoute(pm.path, t).None?
    ensures SearchEndpoints(t, pm) == None
  {
  }
}
