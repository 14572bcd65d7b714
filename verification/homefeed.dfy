/** The feed page: the canonical post list fetched once, and the displayed
    list derived from it by a title search and a sort choice. */
module HomeFeed {
  import opened Schema
  import opened Service
  import opened Strings
  import opened Seqs
  import opened StableSort

  datatype State = State(
    posts: seq<Post>,          // as fetched, newest first by the service
    filtered: seq<Post>,       // what the page lists
    searchTerm: string,
    sortType: string,          // "newest" or "upvotes" from the buttons
    loading: bool,
    error: Option<ServiceError>)

  function ByUpvotes(p: Post): int { p.upvotes }

  function ByCreatedAt(p: Post): int { p.createdAt }

  /** The title contains the (already lower-cased) term, ignoring ASCII case. */
  predicate TitleMatches(p: Post, loweredTerm: string) {
    Includes(Lower(p.title), loweredTerm)
  }

  function TitleFilter(loweredTerm: string): Post -> bool {
    p => TitleMatches(p, loweredTerm)
  }

  /** The search step: an empty term keeps every post, any other term keeps
      the posts whose lower-cased title contains the lower-cased term. */
  function FilterByTitle(posts: seq<Post>, searchTerm: string): (r: seq<Post>)
    ensures searchTerm == "" ==> r == posts
    ensures searchTerm != "" ==> forall i :: 0 <= i < |r| ==> r[i] in posts && TitleMatches(r[i], Lower(searchTerm))
    ensures searchTerm != "" ==>
      forall i :: 0 <= i < |posts| && TitleMatches(posts[i], Lower(searchTerm)) ==> posts[i] in r
  {
    if searchTerm == "" then posts
    else Filter(posts, TitleFilter(Lower(searchTerm)))
  }

  /** The sort step: "upvotes" and "newest" sort descending by their key,
      any other value leaves the order alone. */
  function SortFeed(posts: seq<Post>, sortType: string): (r: seq<Post>)
    ensures multiset(r) == multiset(posts)
    ensures sortType == "upvotes" ==> NonIncreasing(r, ByUpvotes)
    ensures sortType == "newest" ==> NonIncreasing(r, ByCreatedAt)
    ensures sortType != "upvotes" && sortType != "newest" ==> r == posts
  {
    if sortType == "upvotes" then SortDescending(posts, ByUpvotes)
    else if sortType == "newest" then SortDescending(posts, ByCreatedAt)
    else posts
  }

  /** The displayed list as a pure function of the three inputs. */
  function Derive(posts: seq<Post>, searchTerm: string, sortType: string): (r: seq<Post>)
    ensures |r| <= |posts|
    ensures multiset(r) == multiset(FilterByTitle(posts, searchTerm))
    ensures searchTerm == "" ==> multiset(r) == multiset(posts)
    ensures forall i :: 0 <= i < |r| ==>
      r[i] in posts && (searchTerm == "" || TitleMatches(r[i], Lower(searchTerm)))
    ensures sortType == "upvotes" ==> NonIncreasing(r, ByUpvotes)
    ensures sortType == "newest" ==> NonIncreasing(r, ByCreatedAt)
    ensures sortType != "upvotes" && sortType != "newest" ==> r == FilterByTitle(posts, searchTerm)
  {
    var kept := FilterByTitle(posts, searchTerm);
    var r := SortFeed(kept, sortType);
    assert forall i :: 0 <= i < |r| ==> r[i] in kept by {
      forall i | 0 <= i < |r| ensures r[i] in kept {
        assert r[i] in multiset(r);
      }
    }
    r
  }

  /** How many copies of `p` the search keeps. */
  function KeptCount(posts: seq<Post>, searchTerm: string, p: Post): nat {
    multiset(FilterByTitle(posts, searchTerm))[p]
  }

  /** The search keeps exactly the matching posts, every copy of each, and in
      their original relative order. */
  lemma FilterByTitleExact(posts: seq<Post>, searchTerm: string)
    requires searchTerm != ""
    ensures forall p :: KeptCount(posts, searchTerm, p) == (if TitleMatches(p, Lower(searchTerm)) then multiset(posts)[p] else 0)
    ensures IsSubsequence(FilterByTitle(posts, searchTerm), posts)
  {
    FilterCounts(posts, TitleFilter(Lower(searchTerm)));
    FilterIsSubsequence(posts, TitleFilter(Lower(searchTerm)));
  }

  /** The empty-term shortcut agrees with the general rule: every title
      contains the empty string, so filtering by it would keep everything. */
  lemma EmptyTermShortcut(posts: seq<Post>, searchTerm: string)
    ensures FilterByTitle(posts, searchTerm) == Filter(posts, TitleFilter(Lower(searchTerm)))
  {
    if searchTerm == "" {
      FilterIdentity(posts, TitleFilter(Lower(searchTerm)));
    }
  }

  /** Sorting is stable: posts with equal keys keep their filtered order. */
  lemma DeriveStable(posts: seq<Post>, searchTerm: string, sortType: string, k: int)
    ensures sortType == "upvotes" ==>
      WithKey(Derive(posts, searchTerm, sortType), ByUpvotes, k) ==
      WithKey(FilterByTitle(posts, searchTerm), ByUpvotes, k)
    ensures sortType == "newest" ==>
      WithKey(Derive(posts, searchTerm, sortType), ByCreatedAt, k) ==
      WithKey(FilterByTitle(posts, searchTerm), ByCreatedAt, k)
  {
    SortDescendingStable(FilterByTitle(posts, searchTerm), ByUpvotes, k);
    SortDescendingStable(FilterByTitle(posts, searchTerm), ByCreatedAt, k);
  }

  /** The upvote ordering of the feed is the only non-increasing
      arrangement of the search result that keeps equal counts in order. */
  lemma UpvoteOrderIsUnique(posts: seq<Post>, searchTerm: string, r: seq<Post>)
    requires NonIncreasing(r, ByUpvotes)
    requires forall k :: WithKey(r, ByUpvotes, k) == WithKey(FilterByTitle(posts, searchTerm), ByUpvotes, k)
    ensures r == Derive(posts, searchTerm, "upvotes")
  {
    SortDescendingIsTheStableSort(FilterByTitle(posts, searchTerm), r, ByUpvotes);
  }

  // ---- page state ----

  /** The page as first rendered: no posts, loading, sorted by newest. It is
      already a reachable state: the empty list is the derivation of no posts. */
  function Initial(): (s: State)
    ensures s.posts == [] && s.filtered == [] && s.searchTerm == "" && s.sortType == "newest"
    ensures s.loading && s.error.None?
    ensures Reachable(s)
  {
    assert Derive([], "", "newest") == [];
    State([], [], "", "newest", true, None)
  }

  /** The displayed list is the derivation of the current inputs. */
  predicate Synced(s: State) {
    s.filtered == Derive(s.posts, s.searchTerm, s.sortType)
  }

  /** The states the page can reach: it never loads and fails at once. */
  predicate Reachable(s: State) {
    Synced(s) && (s.loading ==> s.error.None?)
  }

  /** Mount: ask for all posts, newest first; the state waits for the answer. */
  function FetchBegin(s: State): (r: Step<State>)
    ensures r.state == s
    ensures r.effects == [Call(SelectPostsNewestFirst)]
  {
    Step(s, [Call(SelectPostsNewestFirst)])
  }

  /** The fetch settled: keep the rows, or keep the error; loading ends either way. */
  function OnPostsFetched(s: State, response: Response<seq<Post>>): (r: State)
    ensures !r.loading
    ensures response.Ok? ==> r.posts == response.value && r.error == s.error
    ensures response.Err? ==> r.posts == s.posts && r.error == Some(response.error)
    ensures response.Ok? ==>
      r == s.(posts := response.value, filtered := Derive(response.value, s.searchTerm, s.sortType), loading := false)
    ensures response.Err? ==> r == s.(error := Some(response.error), loading := false)
    ensures Reachable(s) ==> Reachable(r)
  {
    match response
    case Ok(rows) =>
      s.(posts := rows, filtered := Derive(rows, s.searchTerm, s.sortType), loading := false)
    case Err(e) =>
      s.(error := Some(e), loading := false)
  }

  /** Typing in the search box re-derives the list; the canonical list is untouched. */
  function SetSearchTerm(s: State, term: string): (r: State)
    ensures r.posts == s.posts && r.sortType == s.sortType && r.searchTerm == term
    ensures r.loading == s.loading && r.error == s.error
    ensures Synced(r)
    ensures Reachable(s) ==> Reachable(r)
  {
    s.(searchTerm := term, filtered := Derive(s.posts, term, s.sortType))
  }

  /** A sort button re-derives the list; the canonical list is untouched. */
  function SetSortType(s: State, sortType: string): (r: State)
    ensures r.posts == s.posts && r.searchTerm == s.searchTerm && r.sortType == sortType
    ensures r.loading == s.loading && r.error == s.error
    ensures Synced(r)
    ensures Reachable(s) ==> Reachable(r)
  {
    s.(sortType := sortType, filtered := Derive(s.posts, s.searchTerm, sortType))
  }

  // ---- rendering ----

  datatype Element =
    | LoadingMessage
    | ErrorMessage(text: string)
    | PostCard(id: string, title: string, createdAt: int, upvotes: int)
    | NoPostsFound

  function Card(p: Post): Element {
    PostCard(p.id, p.title, p.createdAt, p.upvotes)
  }

  function Cards(posts: seq<Post>): (r: seq<Element>)
    ensures |r| == |posts|
    ensures forall i :: 0 <= i < |posts| ==> r[i] == Card(posts[i])
  {
    seq(|posts|, i requires 0 <= i < |posts| => Card(posts[i]))
  }

  /** The loading line, shown while the fetch is pending. */
  function LoadingPart(s: State): (r: seq<Element>)
    ensures r == [] || r == [LoadingMessage]
    ensures LoadingMessage in r <==> s.loading
  {
    if s.loading then [LoadingMessage] else []
  }

  /** The error line, shown whenever an error is stored. */
  function ErrorPart(s: State): (r: seq<Element>)
    ensures s.error.None? ==> r == []
    ensures s.error.Some? ==> r == [ErrorMessage(s.error.value.message)]
  {
    if s.error.Some? then [ErrorMessage(s.error.value.message)] else []
  }

  /** The list, or its empty-state line, shown only when neither of the
      others is. */
  function ListPart(s: State): (r: seq<Element>)
    ensures NoPostsFound in r <==> !s.loading && s.error.None? && |s.filtered| == 0
    ensures forall i :: 0 <= i < |r| ==> !r[i].LoadingMessage? && !r[i].ErrorMessage?
    ensures !s.loading && s.error.None? && |s.filtered| > 0 ==> r == Cards(s.filtered)
    ensures s.loading || s.error.Some? ==> r == []
  {
    if !s.loading && s.error.None? then
      (if |s.filtered| > 0 then Cards(s.filtered) else [NoPostsFound])
    else []
  }

  /** The page body: a loading line, an error line, and the list (or its
      empty-state line) only when neither of the others shows. The first
      two are independent: a state that is loading and failed shows both. */
  function Render(s: State): (r: seq<Element>)
    ensures LoadingMessage in r <==> s.loading
    ensures s.error.Some? ==> ErrorMessage(s.error.value.message) in r
    ensures s.error.None? ==> forall i :: 0 <= i < |r| ==> !r[i].ErrorMessage?
    ensures NoPostsFound in r <==> !s.loading && s.error.None? && |s.filtered| == 0
    ensures !s.loading && s.error.None? && |s.filtered| > 0 ==> r == Cards(s.filtered)
    ensures s.loading || s.error.Some? ==> forall i :: 0 <= i < |r| ==> !r[i].PostCard?
  {
    LoadingPart(s) + ErrorPart(s) + ListPart(s)
  }

  /** While the page never loads and fails at once, exactly one of loading,
      error, empty-state or the cards of the listed posts is shown, in that
      order of precedence; in a synced state those cards are the derived list. */
  lemma RenderPrecedence(s: State)
    requires s.loading ==> s.error.None?
    ensures s.loading ==> Render(s) == [LoadingMessage]
    ensures !s.loading && s.error.Some? ==> Render(s) == [ErrorMessage(s.error.value.message)]
    ensures !s.loading && s.error.None? && |s.filtered| == 0 ==> Render(s) == [NoPostsFound]
    ensures !s.loading && s.error.None? && |s.filtered| > 0 ==> Render(s) == Cards(s.filtered)
    ensures Synced(s) && !s.loading && s.error.None? && |s.filtered| > 0 ==>
      Render(s) == Cards(Derive(s.posts, s.searchTerm, s.sortType))
  {
  }
}
