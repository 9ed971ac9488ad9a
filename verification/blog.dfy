/** The content aggregator (`BlogApp` in `assentio/apps/blog/blog.py`).

    The database is a `Store` of row sequences in insertion order; the
    current user is an `Actor`. One visibility rule covers every kind of
    item: an anonymous caller sees only public items unless the query is
    unrestricted, and an authenticated caller sees everything.

    SQL `ORDER BY` and Python's `list.sort` are both modelled by the stable
    sort of `Seqs`; only for the Python sort (portlets) is stability part of
    the contract, since SQL leaves the order of ties open.
 */
module Blog {
  import opened Wrappers
  import opened Seqs
  import opened Models
  import opened Portlets

  /** Posts per page of the home listing. */
  const PageSize: nat := 4

  /** The application's registry of portlet type tags. */
  datatype BlogApp = BlogApp(registry: set<string>)

  datatype Store = Store(
    posts: seq<Post>,
    pages: seq<Page>,
    buttons: seq<SocialButton>,
    slots: seq<Slot>,
    portlets: seq<Portlet>)

  // ---------------------------------------------------------------- registry

  /** `_init_app`: an empty registry into which the text portlet is registered. */
  function Init(): (app: BlogApp)
    ensures app.registry == {"textportlet"}
  {
    TextPortletTag();
    UpdatePortlets(BlogApp({}), TextPortletVariant)
  }

  /** `update_portlets`: registers the type tag of a portlet class. */
  function UpdatePortlets(app: BlogApp, v: Variant): (r: BlogApp)
    ensures TypeTag(v) in r.registry
    ensures app.registry <= r.registry
    ensures forall t :: t in r.registry ==> t in app.registry || t == TypeTag(v)
  {
    app.(registry := app.registry + {TypeTag(v)})
  }

  /** Registering a type that is already registered changes nothing. */
  lemma UpdatePortletsIdempotent(app: BlogApp, v: Variant)
    requires TypeTag(v) in app.registry
    ensures UpdatePortlets(app, v) == app
  {
    assert UpdatePortlets(app, v).registry == app.registry;
  }

  // ---------------------------------------------------------------- visibility

  /** The query must hide non-public items: anonymous and not unrestricted. */
  predicate Restricted(actor: Actor, unrestricted: bool)
  {
    actor.Anonymous? && !unrestricted
  }

  /** The one visibility rule, applied to every kind of item. */
  predicate Visible(state: string, actor: Actor, unrestricted: bool)
  {
    !Restricted(actor, unrestricted) || state == Public
  }

  // ---------------------------------------------------------------- posts

  predicate PostSelected(p: Post, types: set<string>, actor: Actor, unrestricted: bool)
  {
    p.postType in types && Visible(p.state, actor, unrestricted)
  }

  /** Sort key for `ORDER BY date DESC`: later dates first, a missing date
      (which SQLite orders below every date) last. */
  function DateKey(p: Post): int
  {
    match p.date
    case None => 0
    case Some(d) => -(d as int) - 1
  }

  /** Date `a` is not earlier than date `b`, a missing date being earliest. */
  predicate NotOlder(a: Option<Date>, b: Option<Date>)
  {
    b.None? || (a.Some? && a.value >= b.value)
  }

  /** Most recent first. */
  predicate NewestFirst(s: seq<Post>)
  {
    forall i, j :: 0 <= i < j < |s| ==> NotOlder(s[i].date, s[j].date)
  }

  /** Ascending `DateKey` order is most-recent-first order. */
  lemma DateKeyOrder(s: seq<Post>)
    ensures SortedBy(s, DateKey) <==> NewestFirst(s)
  {
    forall a: Post, b: Post ensures DateKey(a) <= DateKey(b) <==> NotOlder(a.date, b.date) {
    }
  }

  /** `_get_posts` as written: `Post.type.in_(types)` selects nothing when
      `types` is empty. */
  function GetPostsAsWritten(store: Store, types: set<string>, actor: Actor, unrestricted: bool, ordered: bool)
    : (r: seq<Post>)
    ensures forall p :: multiset(r)[p] == if PostSelected(p, types, actor, unrestricted) then multiset(store.posts)[p] else 0
    ensures forall p :: p in r <==> p in store.posts && PostSelected(p, types, actor, unrestricted)
    ensures ordered ==> NewestFirst(r)
  {
    var r := Query(store.posts, p => PostSelected(p, types, actor, unrestricted), DateKey, ordered);
    DateKeyOrder(r);
    r
  }

  /** The types a `_get_posts` call asks for: every type when none is named,
      as its documentation promises. */
  function RequestedTypes(types: set<string>): (r: set<string>)
    ensures types != {} ==> r == types
    ensures types == {} ==> r == PostTypes
  {
    if types == {} then PostTypes else types
  }

  /** `_get_posts` as documented: the posts of the requested types that the
      caller may see, most recent first when ordered. */
  function GetPosts(store: Store, types: set<string>, actor: Actor, unrestricted: bool, ordered: bool)
    : (r: seq<Post>)
    ensures forall p :: multiset(r)[p]
                        == if PostSelected(p, RequestedTypes(types), actor, unrestricted) then multiset(store.posts)[p] else 0
    ensures forall p :: p in r <==> p in store.posts && PostSelected(p, RequestedTypes(types), actor, unrestricted)
    ensures ordered ==> NewestFirst(r)
  {
    GetPostsAsWritten(store, RequestedTypes(types), actor, unrestricted, ordered)
  }

  /** With an empty type list the code as written returns no post at all,
      even when a public post exists. */
  lemma EmptyTypesSelectNothing(p: Post)
    requires p.postType == "standard" && p.state == Public
    ensures GetPostsAsWritten(Store([p], [], [], [], []), {}, Anonymous, false, false) == []
    ensures GetPosts(Store([p], [], [], [], []), {}, Anonymous, false, false) == [p]
  {
    var r := GetPosts(Store([p], [], [], [], []), {}, Anonymous, false, false);
    assert multiset(r)[p] == 1;
    assert |r| <= 1;
  }

  /** For any non-empty type list the documented and the written behaviour agree. */
  lemma GetPostsMatchesCode(store: Store, types: set<string>, actor: Actor, unrestricted: bool, ordered: bool)
    requires types != {}
    ensures GetPosts(store, types, actor, unrestricted, ordered)
         == GetPostsAsWritten(store, types, actor, unrestricted, ordered)
  {
  }

  /** `get_all_posts`: every post type except `page`. */
  function GetAllPosts(store: Store, actor: Actor, unrestricted: bool, ordered: bool): (r: seq<Post>)
    ensures forall p :: p in r ==> p.postType != "page"
    ensures forall p :: p in r <==> p in store.posts && p.postType in {"standard", "image", "quote", "flashnews"}
                                     && Visible(p.state, actor, unrestricted)
    ensures forall p :: multiset(r)[p]
                        == if p.postType in {"standard", "image", "quote", "flashnews"} && Visible(p.state, actor, unrestricted)
                           then multiset(store.posts)[p] else 0
    ensures ordered ==> NewestFirst(r)
  {
    var types := PostTypes - {"page"};
    assert types == {"standard", "image", "quote", "flashnews"};
    assert RequestedTypes(types) == types;
    GetPosts(store, types, actor, unrestricted, ordered)
  }

  // ---------------------------------------------------------------- pages

  /** The inner join with `Post` keeps the page when a public post carries
      its foreign key. */
  predicate JoinedPublic(posts: seq<Post>, pg: Page)
  {
    exists i :: 0 <= i < |posts| && HasId(posts[i], pg.postId) && posts[i].state == Public
  }

  /** The pages `get_pages` lists. */
  predicate PageListed(posts: seq<Post>, pg: Page, actor: Actor, unrestricted: bool)
  {
    ResolvePost(posts, pg).Some? && (Restricted(actor, unrestricted) ==> JoinedPublic(posts, pg))
  }

  function PageOrder(pg: Page): int
  {
    pg.order
  }

  /** `get_pages`: join and filter for anonymous callers, order by
      `Page.order`, then drop pages whose post does not resolve. */
  function GetPages(store: Store, actor: Actor, unrestricted: bool, ordered: bool): (r: seq<Page>)
    ensures forall pg :: multiset(r)[pg]
                         == if PageListed(store.posts, pg, actor, unrestricted) then multiset(store.pages)[pg] else 0
    ensures forall pg :: pg in r ==> ResolvePost(store.posts, pg).Some?
    ensures forall pg :: pg in r <==> pg in store.pages && PageListed(store.posts, pg, actor, unrestricted)
    ensures ordered ==> forall i, j :: 0 <= i < j < |r| ==> r[i].order <= r[j].order
  {
    var resolved := (pg: Page) => ResolvePost(store.posts, pg).Some?;
    var rows := Query(store.pages, (pg: Page) => !Restricted(actor, unrestricted) || JoinedPublic(store.posts, pg),
                      PageOrder, ordered);
    FilterCount(rows, resolved);
    FilterMembers(rows, resolved);
    assert ordered ==> SortedBy(Filter(rows, resolved), PageOrder) by {
      if ordered { FilterKeepsSorted(rows, resolved, PageOrder); }
    }
    Filter(rows, resolved)
  }

  /** Under a primary key the row the join matched is the row the
      relationship resolves to. */
  lemma JoinedResolvesPublic(posts: seq<Post>, pg: Page)
    requires UniqueIds(posts) && JoinedPublic(posts, pg) && ResolvePost(posts, pg).Some?
    ensures ResolvePost(posts, pg).value.state == Public
  {
    var q := ResolvePost(posts, pg).value;
    var i :| 0 <= i < |posts| && HasId(posts[i], pg.postId) && posts[i].state == Public;
    var j :| 0 <= j < |posts| && posts[j] == q;
    assert posts[i].id == posts[j].id;
    assert !(i < j) && !(j < i);
  }

  /** Under a primary key, an anonymous caller's pages all have a public post. */
  lemma AnonymousPagesArePublic(store: Store, ordered: bool)
    requires UniqueIds(store.posts)
    ensures forall pg :: pg in GetPages(store, Anonymous, false, ordered) ==>
              ResolvePost(store.posts, pg).value.state == Public
  {
    var r := GetPages(store, Anonymous, false, ordered);
    forall pg | pg in r ensures ResolvePost(store.posts, pg).value.state == Public {
      assert PageListed(store.posts, pg, Anonymous, false);
      JoinedResolvesPublic(store.posts, pg);
    }
  }

  // ---------------------------------------------------------------- social buttons

  function ButtonOrder(b: SocialButton): int
  {
    b.order
  }

  /** `get_social_buttons`: the visible buttons, by `order` when ordered. */
  function GetSocialButtons(store: Store, actor: Actor, unrestricted: bool, ordered: bool): (r: seq<SocialButton>)
    ensures forall b :: multiset(r)[b] == if Visible(b.state, actor, unrestricted) then multiset(store.buttons)[b] else 0
    ensures forall b :: b in r <==> b in store.buttons && Visible(b.state, actor, unrestricted)
    ensures ordered ==> forall i, j :: 0 <= i < j < |r| ==> r[i].order <= r[j].order
  {
    Query(store.buttons, (b: SocialButton) => Visible(b.state, actor, unrestricted), ButtonOrder, ordered)
  }

  // ---------------------------------------------------------------- slot portlets

  /** `iteration` is one pass of Python's iteration over the registry set:
      every registered tag exactly once, in an order the model leaves open. */
  predicate Enumerates(iteration: seq<string>, registry: set<string>)
  {
    (forall t :: t in iteration ==> t in registry)
    && (forall t :: t in registry ==> t in iteration)
    && forall i, j :: 0 <= i < j < |iteration| ==> iteration[i] != iteration[j]
  }

  /** The first slot with the given name. */
  function FindSlot(slots: seq<Slot>, name: string): (r: Option<Slot>)
    ensures r.Some? ==> r.value in slots && r.value.name == name
    ensures r.None? <==> forall i :: 0 <= i < |slots| ==> slots[i].name != name
  {
    FindFirst(slots, (s: Slot) => s.name == name)
  }

  /** The `extend` loop: for each tag in iteration order, the slot's
      `portlet_<tag>` collection. */
  function SlotPortlets(portlets: seq<Portlet>, slot: Slot, iteration: seq<string>): (r: seq<Portlet>)
    ensures forall p :: p in r <==> p in portlets && p.slotId == Some(slot.id) && TypeTag(p.variant) in iteration
  {
    if |iteration| == 0 then []
    else
      BackrefLookupAll(iteration[0]);
      SlotCollection(portlets, slot, LookupName(iteration[0])) + SlotPortlets(portlets, slot, iteration[1..])
  }

  lemma BackrefLookupAll(ptype: string)
    ensures forall v :: BackrefName(v) == LookupName(ptype) <==> TypeTag(v) == ptype
  {
    forall v ensures BackrefName(v) == LookupName(ptype) <==> TypeTag(v) == ptype {
      BackrefMatchesLookup(v, ptype);
    }
  }

  /** With a repetition-free iteration each attached portlet of a registered
      type is collected exactly as often as it is stored. */
  lemma {:induction false} SlotPortletsCount(portlets: seq<Portlet>, slot: Slot, iteration: seq<string>)
    requires forall i, j :: 0 <= i < j < |iteration| ==> iteration[i] != iteration[j]
    ensures forall p :: multiset(SlotPortlets(portlets, slot, iteration))[p]
                        == if p.slotId == Some(slot.id) && TypeTag(p.variant) in iteration
                           then multiset(portlets)[p] else 0
  {
    if |iteration| > 0 {
      var head := SlotCollection(portlets, slot, LookupName(iteration[0]));
      SlotPortletsCount(portlets, slot, iteration[1..]);
      FilterCount(portlets, p => InCollection(p, slot, LookupName(iteration[0])));
      BackrefLookupAll(iteration[0]);
      assert forall t :: t in iteration <==> t == iteration[0] || t in iteration[1..];
      assert iteration[0] !in iteration[1..];
    }
  }

  predicate PortletPublic(p: Portlet)
  {
    p.state == Public
  }

  function PortletOrder(p: Portlet): int
  {
    p.order
  }

  /** The slot's portlets of the iterated types, kept only when public for a
      restricted query, before sorting. */
  function SlotCandidates(store: Store, slot: Slot, iteration: seq<string>, actor: Actor, unrestricted: bool)
    : (r: seq<Portlet>)
    ensures forall p :: p in r <==> p in store.portlets && p.slotId == Some(slot.id)
                                    && TypeTag(p.variant) in iteration && Visible(p.state, actor, unrestricted)
  {
    var all := SlotPortlets(store.portlets, slot, iteration);
    if Restricted(actor, unrestricted) then
      FilterMembers(all, PortletPublic);
      Filter(all, PortletPublic)
    else all
  }

  /** A portlet a slot query shows: attached to the slot, of a registered
      type, and visible to the caller. */
  predicate SlotShows(p: Portlet, slot: Slot, registry: set<string>, actor: Actor, unrestricted: bool)
  {
    p.slotId == Some(slot.id) && TypeTag(p.variant) in registry && Visible(p.state, actor, unrestricted)
  }

  /** `get_portlets_by_slot`: nothing for an unknown slot; otherwise the
      slot's visible portlets of the registered types, stably sorted by
      `order` when ordered. */
  function GetPortletsBySlot(app: BlogApp, store: Store, iteration: seq<string>, name: string,
                             actor: Actor, unrestricted: bool, ordered: bool): (r: seq<Portlet>)
    requires Enumerates(iteration, app.registry)
    ensures FindSlot(store.slots, name).None? ==> r == []
    ensures FindSlot(store.slots, name).Some? ==>
              forall p :: p in r <==> p in store.portlets
                                      && SlotShows(p, FindSlot(store.slots, name).value, app.registry, actor, unrestricted)
    ensures FindSlot(store.slots, name).Some? ==>
              forall p :: multiset(r)[p]
                          == if SlotShows(p, FindSlot(store.slots, name).value, app.registry, actor, unrestricted)
                             then multiset(store.portlets)[p] else 0
    ensures ordered ==> forall i, j :: 0 <= i < j < |r| ==> r[i].order <= r[j].order
  {
    match FindSlot(store.slots, name)
    case None => []
    case Some(slot) =>
      var visible := SlotCandidates(store, slot, iteration, actor, unrestricted);
      SlotCandidatesCount(store, slot, iteration, actor, unrestricted);
      SortMembers(visible, PortletOrder);
      if ordered then SortBy(visible, PortletOrder) else visible
  }

  /** Python's sort is stable: portlets with equal `order` keep the order in
      which the unsorted query returns them. */
  lemma PortletSortStable(app: BlogApp, store: Store, iteration: seq<string>, name: string,
                          actor: Actor, unrestricted: bool, k: int)
    requires Enumerates(iteration, app.registry)
    ensures Filter(GetPortletsBySlot(app, store, iteration, name, actor, unrestricted, true), KeyIs(PortletOrder, k))
         == Filter(GetPortletsBySlot(app, store, iteration, name, actor, unrestricted, false), KeyIs(PortletOrder, k))
  {
    match FindSlot(store.slots, name)
    case None =>
    case Some(slot) =>
      SortByStable(SlotCandidates(store, slot, iteration, actor, unrestricted), PortletOrder, k);
  }

  /** Filtering for visibility before the final sort, as the code does, gives
      the same list as sorting first and filtering afterwards. */
  lemma PortletFilterBeforeSort(app: BlogApp, store: Store, iteration: seq<string>, slot: Slot)
    requires Enumerates(iteration, app.registry)
    requires FindSlot(store.slots, slot.name) == Some(slot)
    ensures GetPortletsBySlot(app, store, iteration, slot.name, Anonymous, false, true)
         == Filter(SortBy(SlotPortlets(store.portlets, slot, iteration), PortletOrder), PortletPublic)
  {
    FilterSortCommute(SlotPortlets(store.portlets, slot, iteration), PortletPublic, PortletOrder);
  }

  /** How often each portlet is among a slot's candidates. */
  lemma SlotCandidatesCount(store: Store, slot: Slot, iteration: seq<string>, actor: Actor, unrestricted: bool)
    requires forall i, j :: 0 <= i < j < |iteration| ==> iteration[i] != iteration[j]
    ensures forall p :: multiset(SlotCandidates(store, slot, iteration, actor, unrestricted))[p]
                        == if p.slotId == Some(slot.id) && TypeTag(p.variant) in iteration
                              && Visible(p.state, actor, unrestricted)
                           then multiset(store.portlets)[p] else 0
  {
    var all := SlotPortlets(store.portlets, slot, iteration);
    SlotPortletsCount(store.portlets, slot, iteration);
    if Restricted(actor, unrestricted) {
      FilterCount(all, PortletPublic);
    }
  }

  /** The result does not depend on the order in which the registry set is
      iterated, up to the arrangement of its elements. */
  lemma IterationOrderIrrelevant(app: BlogApp, store: Store, it1: seq<string>, it2: seq<string>, name: string,
                                 actor: Actor, unrestricted: bool, ordered: bool)
    requires Enumerates(it1, app.registry) && Enumerates(it2, app.registry)
    ensures multiset(GetPortletsBySlot(app, store, it1, name, actor, unrestricted, ordered))
         == multiset(GetPortletsBySlot(app, store, it2, name, actor, unrestricted, ordered))
  {
    match FindSlot(store.slots, name)
    case None =>
    case Some(slot) =>
      var r1 := GetPortletsBySlot(app, store, it1, name, actor, unrestricted, ordered);
      var r2 := GetPortletsBySlot(app, store, it2, name, actor, unrestricted, ordered);
      assert forall p :: multiset(r1)[p] == multiset(r2)[p];
  }

  // ---------------------------------------------------------------- pagination

  /** Flask-SQLAlchemy's `paginate(page, 4)` with its default `error_out`:
      page `n` holds items `(n-1)*4` up to `n*4`; a page number below 1, or
      an empty page other than the first, aborts with 404. */
  function Paginate<T>(items: seq<T>, page: int): (r: Result<seq<T>>)
    ensures r.Err? ==> r.error == NotFound
    ensures r.Ok? <==> page == 1 || (page > 1 && (page - 1) * PageSize < |items|)
    ensures r.Ok? ==> |r.value| <= PageSize
    ensures r.Ok? ==> forall i :: 0 <= i < |r.value| ==>
                        (page - 1) * PageSize + i < |items| && r.value[i] == items[(page - 1) * PageSize + i]
    ensures r.Ok? && page * PageSize <= |items| ==> |r.value| == PageSize
  {
    if page < 1 then Err(NotFound)
    else
      var lo := (page - 1) * PageSize;
      var hi := if page * PageSize < |items| then page * PageSize else |items|;
      var slice := if lo < |items| then items[lo..hi] else [];
      if |slice| == 0 && page != 1 then Err(NotFound) else Ok(slice)
  }

  /** Every item is on the page its index selects, at the matching position. */
  lemma ItemOnItsPage<T>(items: seq<T>, i: int)
    requires 0 <= i < |items|
    ensures Paginate(items, i / PageSize + 1).Ok?
    ensures |Paginate(items, i / PageSize + 1).value| > i % PageSize
    ensures Paginate(items, i / PageSize + 1).value[i % PageSize] == items[i]
  {
    var n := i / PageSize + 1;
    assert (n - 1) * PageSize + i % PageSize == i;
  }

  /** An item that occurs once is on no other page. */
  lemma ItemOnlyOnItsPage<T>(items: seq<T>, i: int, n: int)
    requires 0 <= i < |items| && multiset(items)[items[i]] == 1
    requires n != i / PageSize + 1 && Paginate(items, n).Ok?
    ensures items[i] !in Paginate(items, n).value
  {
    var r := Paginate(items, n).value;
    if items[i] in r {
      var j :| 0 <= j < |r| && r[j] == items[i];
      var k := (n - 1) * PageSize + j;
      assert items[k] == items[i];
      assert k / PageSize == n - 1;
      if k < i { TwoPositions(items, k, i); } else { TwoPositions(items, i, k); }
    }
  }

  /** When no two stored posts share a date, a most-recent-first listing of
      posts drawn from the store has strictly increasing sort keys. */
  lemma StrictlyNewestFirst(store: Store, l: seq<Post>)
    requires forall i, j :: 0 <= i < j < |store.posts| ==> store.posts[i].date != store.posts[j].date
    requires NewestFirst(l) && forall p :: multiset(l)[p] <= multiset(store.posts)[p]
    ensures StrictlySortedBy(l, DateKey)
  {
    forall i, j | 0 <= i < j < |l| ensures DateKey(l[i]) < DateKey(l[j]) {
      if l[i] == l[j] {
        TwoPositions(l, i, j);
        CountTwoPositions(store.posts, l[i]);
        assert false;
      }
      assert multiset(l)[l[i]] >= 1 && multiset(l)[l[j]] >= 1;
      var a :| 0 <= a < |store.posts| && store.posts[a] == l[i];
      var b :| 0 <= b < |store.posts| && store.posts[b] == l[j];
      assert l[i].date != l[j].date by {
        if a < b {
        } else {
          assert b < a;
        }
      }
      assert NotOlder(l[i].date, l[j].date);
    }
  }

  /** Every page request runs its own `ORDER BY date DESC` query, and SQL may
      arrange posts of equal date differently each time. When no two stored
      posts share a date, every listing that query may return is the model's
      listing, so all requests cut their pages from the same list. */
  lemma ListingFixedByDistinctDates(store: Store, actor: Actor, l: seq<Post>)
    requires forall i, j :: 0 <= i < j < |store.posts| ==> store.posts[i].date != store.posts[j].date
    requires NewestFirst(l) && multiset(l) == multiset(GetAllPosts(store, actor, false, true))
    ensures l == GetAllPosts(store, actor, false, true)
  {
    var all := GetAllPosts(store, actor, false, true);
    StrictlyNewestFirst(store, l);
    StrictlyNewestFirst(store, all);
    StrictlySortedUnique(l, all, DateKey);
  }

  // ---------------------------------------------------------------- page components

  /** Everything a page template needs. */
  datatype Components = Components(
    post: Option<Post>,
    posts: Option<seq<Post>>,
    pages: seq<Page>,
    socialButtons: seq<SocialButton>,
    portletsBySlot: (string, bool, bool) -> seq<Portlet>)

  /** `get_all_page_components`: the given post, or the listing of posts
      (the requested page of it when a non-zero page number is given), plus
      the ordered pages, the ordered buttons and the slot lookup. */
  function GetAllPageComponents(app: BlogApp, store: Store, iteration: seq<string>, actor: Actor,
                                post: Option<Post>, page: Option<int>): (r: Result<Components>)
    requires Enumerates(iteration, app.registry)
    ensures post.Some? ==> r.Ok? && r.value.post == post && r.value.posts.None?
    ensures post.None? && (page.None? || page == Some(0)) ==>
              r.Ok? && r.value.post.None? && r.value.posts == Some(GetAllPosts(store, actor, false, true))
    ensures post.None? && page.Some? && page.value != 0 ==>
              (r.Ok? <==> Paginate(GetAllPosts(store, actor, false, true), page.value).Ok?)
              && (r.Ok? ==> r.value.post.None?
                            && r.value.posts == Some(Paginate(GetAllPosts(store, actor, false, true), page.value).value))
    ensures r.Err? ==> r.error == NotFound
    ensures r.Ok? ==> r.value.pages == GetPages(store, actor, false, true)
                      && r.value.socialButtons == GetSocialButtons(store, actor, false, true)
    ensures r.Ok? ==> forall name, u, o :: r.value.portletsBySlot(name, u, o)
                                          == GetPortletsBySlot(app, store, iteration, name, actor, u, o)
  {
    var pages := GetPages(store, actor, false, true);
    var buttons := GetSocialButtons(store, actor, false, true);
    var lookup := (name, u, o) => GetPortletsBySlot(app, store, iteration, name, actor, u, o);
    if post.Some? then
      Ok(Components(post, None, pages, buttons, lookup))
    else if page.Some? && page.value != 0 then
      match Paginate(GetAllPosts(store, actor, false, true), page.value)
      case Err(e) => Err(e)
      case Ok(items) => Ok(Components(None, Some(items), pages, buttons, lookup))
    else
      Ok(Components(None, Some(GetAllPosts(store, actor, false, true)), pages, buttons, lookup))
  }

  /** In a most-recent-first listing a strictly oldest post comes last. */
  lemma OldestIsLast(s: seq<Post>, oldest: Post)
    requires NewestFirst(s) && oldest in s && oldest.date.Some?
    requires forall q :: q in s && q != oldest ==> q.date.Some? && q.date.value > oldest.date.value
    ensures s[|s| - 1] == oldest
  {
    var k :| 0 <= k < |s| && s[k] == oldest;
    var last := |s| - 1;
    assert s[last] in s;
    assert k < last ==> NotOlder(s[k].date, s[last].date);
  }

  /** Of five posts listed most recent first, the strictly oldest is on
      page 2 alone and not on page 1. */
  lemma OldestOfFivePaged(all: seq<Post>, oldest: Post)
    requires |all| == 5 && NewestFirst(all)
    requires oldest in all && multiset(all)[oldest] == 1 && oldest.date.Some?
    requires forall q :: q in all && q != oldest ==> q.date.Some? && q.date.value > oldest.date.value
    ensures Paginate(all, 1).Ok? && oldest !in Paginate(all, 1).value
    ensures Paginate(all, 2) == Ok([oldest])
    ensures Paginate(all, 3) == Err(NotFound)
  {
    OldestIsLast(all, oldest);
    ItemOnlyOnItsPage(all, 4, 1);
    var second := Paginate(all, 2).value;
    assert |second| == 1 && second[0] == oldest;
    assert second == [oldest];
  }

  /** The home listing: with five visible posts the strictly oldest is on
      page 2 only and page 3 does not exist (page numbers as `get_all_page_components` passes them on). */
  lemma OldestOfFiveOnPageTwo(store: Store, actor: Actor, oldest: Post)
    requires |GetAllPosts(store, actor, false, true)| == 5
    requires oldest in GetAllPosts(store, actor, false, true) && multiset(store.posts)[oldest] == 1
    requires oldest.date.Some?
    requires forall q :: q in store.posts && q != oldest ==> q.date.Some? && q.date.value > oldest.date.value
    ensures Paginate(GetAllPosts(store, actor, false, true), 1).Ok?
    ensures oldest !in Paginate(GetAllPosts(store, actor, false, true), 1).value
    ensures Paginate(GetAllPosts(store, actor, false, true), 2) == Ok([oldest])
    ensures Paginate(GetAllPosts(store, actor, false, true), 3) == Err(NotFound)
  {
    var all := GetAllPosts(store, actor, false, true);
    assert multiset(all)[oldest] == 1;
    OldestOfFivePaged(all, oldest);
  }

  // ---------------------------------------------------------------- single post

  /** The `/post/<id>` and `/post/<shortname>` route. */
  datatype Response = NotFound404 | Redirect(target: Option<string>) | Render(components: Components)

  /** The row the route's `filter_by` matches: by shortname when one is
      given, else by identifier; public only for an anonymous caller. */
  predicate RouteMatches(p: Post, postId: Option<int>, shortname: Option<string>, actor: Actor)
  {
    (if Truthy(shortname) then p.storedShortname == shortname else p.id == postId)
    && (actor.Anonymous? ==> p.state == Public)
  }

  /** `post()`: 404 when no visible row matches; a lookup by identifier
      redirects to the post's shortname; a lookup by shortname renders the
      post with the page components. */
  function PostRoute(app: BlogApp, store: Store, iteration: seq<string>, actor: Actor,
                     postId: Option<int>, shortname: Option<string>): (r: Response)
    requires Enumerates(iteration, app.registry)
    ensures r.NotFound404? <==> forall i :: 0 <= i < |store.posts| ==> !RouteMatches(store.posts[i], postId, shortname, actor)
    ensures r.Redirect? ==> !Truthy(shortname)
                            && exists i :: 0 <= i < |store.posts| && RouteMatches(store.posts[i], postId, shortname, actor)
                                           && r.target == store.posts[i].storedShortname && store.posts[i].id == postId
    ensures r.Render? ==> Truthy(shortname) && r.components.post.Some? && r.components.posts.None?
                          && r.components.post.value in store.posts
                          && r.components.post.value.storedShortname == shortname
                          && (actor.Anonymous? ==> r.components.post.value.state == Public)
                          && r.components.pages == GetPages(store, actor, false, true)
                          && r.components.socialButtons == GetSocialButtons(store, actor, false, true)
                          && forall name, u, o :: r.components.portletsBySlot(name, u, o)
                                                  == GetPortletsBySlot(app, store, iteration, name, actor, u, o)
  {
    match FindFirst(store.posts, p => RouteMatches(p, postId, shortname, actor))
    case None => NotFound404
    case Some(p) =>
      if Truthy(shortname) then Render(GetAllPageComponents(app, store, iteration, actor, Some(p), None).value)
      else Redirect(p.storedShortname)
  }

  /** A private post is found by its shortname only by an authenticated
      caller. Once published, an anonymous lookup by identifier redirects to
      the shortname and a lookup by shortname renders the post, while an
      unknown identifier or shortname gives 404. */
  lemma PostVisibleAfterPublishing(app: BlogApp, iteration: seq<string>, p: Post, user: string,
                                   name: string, other: int, unknown: string)
    requires Enumerates(iteration, app.registry)
    requires p.state == Private && p.storedShortname == Some(name) && name != ""
    requires p.id.Some? && p.id != Some(other) && unknown != "" && unknown != name
    ensures PostRoute(app, Store([p], [], [], [], []), iteration, Anonymous, None, Some(name)) == NotFound404
    ensures PostRoute(app, Store([p], [], [], [], []), iteration, User(user), None, Some(name)).Render?
    ensures SetPostState(p, "public").Ok?
    ensures PostRoute(app, Store([SetPostState(p, "public").value], [], [], [], []), iteration, Anonymous, p.id, None)
         == Redirect(Some(name))
    ensures PostRoute(app, Store([SetPostState(p, "public").value], [], [], [], []), iteration, Anonymous, None, Some(name))
              .Render?
    ensures PostRoute(app, Store([SetPostState(p, "public").value], [], [], [], []), iteration, Anonymous, Some(other), None)
         == NotFound404
    ensures PostRoute(app, Store([SetPostState(p, "public").value], [], [], [], []), iteration, Anonymous, None, Some(unknown))
         == NotFound404
  {
    var q := SetPostState(p, "public").value;
    assert RouteMatches(p, None, Some(name), User(user));
    assert RouteMatches(q, p.id, None, Anonymous);
    assert RouteMatches(q, None, Some(name), Anonymous);
  }

  // ---------------------------------------------------------------- the visibility rule, across queries

  lemma UnrestrictedPosts(store: Store, user: string, types: set<string>, ordered: bool)
    ensures GetPostsAsWritten(store, types, Anonymous, true, ordered)
         == GetPostsAsWritten(store, types, User(user), false, ordered)
  {
    FilterExt(store.posts, p => PostSelected(p, types, Anonymous, true), p => PostSelected(p, types, User(user), false));
  }

  lemma UnrestrictedPages(store: Store, user: string, ordered: bool)
    ensures GetPages(store, Anonymous, true, ordered) == GetPages(store, User(user), false, ordered)
  {
    FilterExt(store.pages, (pg: Page) => !Restricted(Anonymous, true) || JoinedPublic(store.posts, pg),
              (pg: Page) => !Restricted(User(user), false) || JoinedPublic(store.posts, pg));
  }

  lemma UnrestrictedButtons(store: Store, user: string, ordered: bool)
    ensures GetSocialButtons(store, Anonymous, true, ordered) == GetSocialButtons(store, User(user), false, ordered)
  {
    FilterExt(store.buttons, (b: SocialButton) => Visible(b.state, Anonymous, true),
              (b: SocialButton) => Visible(b.state, User(user), false));
  }

  /** An unrestricted query shows an anonymous caller exactly what an
      authenticated caller sees, for every kind of item. */
  lemma UnrestrictedIsAuthenticatedView(app: BlogApp, store: Store, iteration: seq<string>, user: string,
                                        types: set<string>, name: string, ordered: bool)
    requires Enumerates(iteration, app.registry)
    ensures GetPostsAsWritten(store, types, Anonymous, true, ordered)
         == GetPostsAsWritten(store, types, User(user), false, ordered)
    ensures GetPosts(store, types, Anonymous, true, ordered) == GetPosts(store, types, User(user), false, ordered)
    ensures GetPages(store, Anonymous, true, ordered) == GetPages(store, User(user), false, ordered)
    ensures GetSocialButtons(store, Anonymous, true, ordered) == GetSocialButtons(store, User(user), false, ordered)
    ensures GetPortletsBySlot(app, store, iteration, name, Anonymous, true, ordered)
         == GetPortletsBySlot(app, store, iteration, name, User(user), false, ordered)
  {
    UnrestrictedPosts(store, user, types, ordered);
    UnrestrictedPosts(store, user, RequestedTypes(types), ordered);
    UnrestrictedPages(store, user, ordered);
    UnrestrictedButtons(store, user, ordered);
  }

  /** An authenticated caller sees every stored social button, each as often
      as it is stored; without ordering, in the order the store holds them. */
  lemma AuthenticatedSeesAllButtons(store: Store, user: string, ordered: bool)
    ensures multiset(GetSocialButtons(store, User(user), false, ordered)) == multiset(store.buttons)
    ensures GetSocialButtons(store, User(user), false, false) == store.buttons
  {
    var r := GetSocialButtons(store, User(user), false, ordered);
    assert forall b :: multiset(r)[b] == multiset(store.buttons)[b];
    FilterAll(store.buttons, (b: SocialButton) => Visible(b.state, User(user), false));
  }

  /** A private post is hidden from anonymous callers until it is published. */
  lemma PublishingShowsPost(p: Post)
    requires p.postType == "standard" && p.state == Private
    ensures GetAllPosts(Store([p], [], [], [], []), Anonymous, false, false) == []
    ensures SetPostState(p, "public").Ok?
    ensures GetAllPosts(Store([SetPostState(p, "public").value], [], [], [], []), Anonymous, false, false)
         == [SetPostState(p, "public").value]
  {
    var q := SetPostState(p, "public").value;
    var r := GetAllPosts(Store([q], [], [], [], []), Anonymous, false, false);
    assert multiset(r)[q] == 1;
    assert |r| <= 1;
  }
}
