# assentio blog core in Dafny

This project models the content-visibility and composition core of the
assentio blog: the Flask-SQLAlchemy records (`Post`, `Page`, `SocialButton`)
with the rules attached to their fields, the portlet base contract, and the
`BlogApp` aggregator. The aggregator keeps a registry of portlet types and
answers the queries the templates render: posts, pages, social buttons, the
portlets of a named slot, a paginated home listing, and the single-post route.

One visibility rule runs through every query. An anonymous caller sees only
public items unless the query is explicitly unrestricted. An authenticated
caller sees everything.

Layout:

- `wrappers.dfy` (`Wrappers`): `Option`, `Result`, and the errors the Python code raises.
- `seqs.dfy` (`Seqs`): first-match lookup, filtering, and a stable insertion sort, with the lemmas the queries rely on.
- `text.dfy` (`Text`): ASCII lower-casing and the shortname normalisation `url_fix(value.lower())`.
- `models.dfy` (`Models`): the records, their column defaults and validators, the invariant the validators keep, and the post table's constraints.
- `portlets.dfy` (`Portlets`): portlet variants, type tags, the string form, the template hook, and slot back-references.
- `blog.dfy` (`Blog`): the registry, the queries, pagination, page composition, and the post route.

Modelling choices:

- **Validators.** Each validated assignment is a pure function from the old record to the new one, or to the error the validator raises. A sequence of assignments (`Models.ApplyEdits`) stops at the first one that raises.
- **Context.** The acting user, the current time and `url_fix` are parameters. `url_fix` belongs to werkzeug, which is outside this model.
- **Database.** The database is a value of type `Blog.Store`, holding rows in insertion order.
- **SQL ordering.** `ORDER BY` is modelled by a stable sort. For SQL results only sortedness and the multiset of rows are promised, because SQL leaves the order of ties open.
- **Python ordering.** Python's `list.sort`, used for portlets, is stable, so stability is proved for portlets.
- **Dates.** Dates are natural-number instants. A missing date sorts last under `ORDER BY date DESC`, as SQLite orders NULLs.
- **Registry iteration.** Python iterates the registry set in an unspecified order. That order is the parameter `iteration`, and `Blog.Enumerates` states that it lists each registered tag exactly once.

## Model

| member | source | states |
|---|---|---|
| Models.AssignTitle | assentio/apps/blog/models.py:45-54 | Assigning a title fails exactly when no author is set and the caller is anonymous. Otherwise the shortname is re-normalised from the stored shortname when there is one, else from the title. The author and the date are filled in only when unset. No other field changes. |
| Models.AssignShortname | assentio/apps/blog/models.py:56-58 | The stored shortname becomes `url_fix(value.lower())`, and nothing else changes. |
| Models.AssignDate | assentio/apps/blog/models.py:70-73 | A null date keeps the stored date. A real date replaces it. |
| Models.DateNeverCleared | assentio/apps/blog/models.py:70-73 | Once a post has a date, no sequence of assignments clears it, and none changes the identifier. |
| Models.TitledPostKeepsDate | assentio/apps/blog/models.py:53-73 | After a title assignment the post has a date, whatever is assigned later. |
| Models.ValidateState | assentio/apps/blog/models.py:60-63 | A state is accepted exactly when it is `private` or `public`. |
| Models.SetPostState | assentio/apps/blog/models.py:60-63 | Setting a post's state succeeds exactly for `private` and `public`, and changes only the state. |
| Models.SetPostType | assentio/apps/blog/models.py:65-68 | Setting a post's type succeeds exactly for the five post types, and changes only the type. |
| Models.ValidPost | assentio/apps/blog/models.py:60-68 | The invariant the validators keep: state among the keys of `states`, type among the keys of `post_types`. |
| Models.ApplyEdits | assentio/apps/blog/models.py:45-73 | A sequence of validated assignments to a post, ending at the first one that raises. |
| Models.EditsKeepPostValid | assentio/apps/blog/models.py:60-68 | No sequence of assignments takes a valid post to one whose state or type is outside the declared keys. |
| Models.NewPost | assentio/apps/blog/models.py:34-36 | Without a truthy title the constructor gives the blank post, which carries the defaults `standard`/`private` it will be stored with. With a title and a logged-in user, the new post has that title, its normalised shortname, the user as author and the current time as date. With a title and an anonymous caller, construction fails. |
| Models.SetCategory | assentio/apps/blog/models.py:108-111 | Setting a page's category succeeds exactly for `top-navigation` and `bottom-navigation`, and changes only the category. |
| Models.SetButtonState | assentio/apps/blog/models.py:123-126 | Setting a social button's state succeeds exactly for `private` and `public`, and changes only the state. |
| Models.BlankPost | assentio/apps/blog/models.py:30-31 | A post with every column unset except the defaults type `standard` and state `private`. |
| Models.BlankPage | assentio/apps/blog/models.py:94-96 | A page with the defaults category `top-navigation` and order 1. |
| Models.BlankSocialButton | assentio/apps/blog/models.py:119-121 | A social button with the defaults order 1 and state `private`. |
| Models.ValidPage | assentio/apps/blog/models.py:108-111 | A page's category is among the keys of `page_categories`. |
| Models.ValidButton | assentio/apps/blog/models.py:123-126 | A social button's state is among the keys of `states`. |
| Models.RecordsStayValid | assentio/apps/blog/models.py:94-126 | The blank records and every constructed post are valid. Binding a post keeps a page valid, and the category and button-state setters always produce valid records. |
| Models.BindPost | assentio/apps/blog/models.py:97-101 | Binding a post sets the page's foreign key to the post's identifier, and nothing else changes. |
| Models.ResolvePost | assentio/apps/blog/models.py:97-101 | `page.post` is a stored post whose identifier is the foreign key and whose type is `page`. It is missing exactly when no such post exists. |
| Models.BindResolves | assentio/apps/blog/models.py:97-101 | Under a primary key, a bound post resolves back exactly when its type is `page`. Any other type leaves the page unbound. |
| Models.SavePost | assentio/apps/blog/models.py:22-32 | Saving succeeds exactly when title and body are set and no other row holds the shortname. An insert appends the post under a fresh identifier and keeps earlier rows. An update replaces exactly the row with the post's identifier and keeps every other row in place; a post whose identifier is not stored yet is appended as it is. Identifier and shortname uniqueness are preserved. |
| Models.NextId | assentio/apps/blog/models.py:22 | The identifier the database gives a new row is positive and above every stored identifier. |
| Models.SameTitleConflicts | assentio/apps/blog/models.py:23 | Two posts created from the same title collide on the unique shortname, so the second save fails. |
| Models.CustomShortnameWins | assentio/apps/blog/models.py:51 | A custom shortname set before the title survives the title assignment, provided re-normalising that custom shortname leaves it unchanged and it is non-empty (an empty one counts as unset under `or`). |
| Models.CreatedShortname | assentio/tests/base.py:96-115 | Creating a post and assigning its title again leaves the title normalised twice as its shortname (when the first normalisation is non-empty). It is `url_fix(title.lower())` exactly as far as re-normalising that value changes nothing. |
| Text.EscapedShortnameChanges | assentio/apps/blog/models.py:56-58 | With a `url_fix` that writes upper-case percent-escapes, as werkzeug's does, re-normalising a shortname changes it: `<` becomes `%3C` and then `%3c`. |
| Models.RetitleKeepsAuthorAndDate | assentio/apps/blog/models.py:52-53 | Once the author is set, any later title assignment, by any user, keeps the author and the date. |
| Models.DefaultsValid | assentio/apps/blog/models.py:30-31 | The column defaults of posts, pages and buttons pass their own validators, and the default order is 1. |
| Text.LowerChar | assentio/apps/blog/models.py:58 | An upper-case letter becomes the lower-case letter at the same position of the alphabet. Every other character is left alone. |
| Text.Lower | assentio/apps/blog/models.py:58 | `str.lower` lower-cases each character in place: same length, each character as `Text.LowerChar` maps it, blanks kept, no upper-case letter left. A string already in lower case is unchanged. |
| Text.Normalize | assentio/apps/blog/models.py:56-58 | The shortname validator: `url_fix` applied to the lower-cased value. |
| Text.NormalizeIgnoresCase | assentio/apps/blog/models.py:58 | The shortname made from a value equals the one made from its lower-cased form. |
| Portlets.TypeTag | assentio/apps/blog/base.py:34-36 | A type tag is the class name lower-cased, character by character, so a lower-case name is its own tag. |
| Portlets.NewPortlet | assentio/apps/blog/base.py:44-48 | Instantiation fails with RuntimeError exactly for the base class. Any other portlet starts unattached, carrying the defaults private and order 1 it will be stored with. |
| Portlets.ValidPortlet | assentio/apps/blog/base.py:38-42 | A portlet's state is among the keys of `states`. |
| Portlets.PortletsStayValid | assentio/apps/blog/base.py:38-48 | Every portlet that can be instantiated starts valid. State changes produce valid portlets, and attaching to a slot keeps a portlet valid. |
| Portlets.SetPortletState | assentio/apps/blog/base.py:38-42 | Setting a portlet's state succeeds exactly for `private` and `public`, and changes only the state. |
| Portlets.Repr | assentio/apps/blog/base.py:50-51 | The string form has the shape `<tag "title">`, with length equal to tag plus title plus five. |
| Portlets.ReprRoundTrip | assentio/apps/blog/base.py:50-51 | The string form reads back to exactly the type tag and the title, whatever the title contains. |
| Portlets.TestPortletRepr | assentio/tests/test_blog.py:295-298 | A `TestPortlet` titled "Test Portlet 2" prints as `<testportlet "Test Portlet 2">` and reads back to that tag and title. |
| Portlets.TestPortletTag | assentio/tests/test_blog.py:280-295 | A `TestPortlet` has tag `testportlet` and, unlike the base class, can be instantiated. |
| Portlets.BaseTag | assentio/apps/blog/base.py:44-46 | The base class's tag is `baseportlet`, so instantiating it fails. |
| Portlets.GetTemplate | assentio/apps/blog/base.py:53-55 | The render hook fails with NotImplementedError exactly when the variant has no template of its own. Otherwise it returns the variant's rendering. |
| Portlets.RenderingByVariant | assentio/apps/blog/portlets.py:11-21 | A new text portlet renders through its template. A new `TestPortlet`, which only subclasses the base, fails with NotImplementedError. |
| Portlets.BackrefMatchesLookup | assentio/apps/blog/base.py:24-28 | The back-reference a variant declares on the slot, `portlet_<classname lower>`, is the attribute the blog looks up for exactly its own tag. |
| Portlets.AttachToSlot | assentio/apps/blog/base.py:20-22 | Attaching sets the portlet's slot key, and nothing else changes. |
| Portlets.SlotCollection | assentio/apps/blog/base.py:24-28 | A slot's back-reference holds exactly the stored portlets attached to the slot whose declared name matches. |
| Blog.Init | assentio/apps/blog/blog.py:48-58 | A fresh application's registry is exactly `{"textportlet"}`. |
| Blog.UpdatePortlets | assentio/apps/blog/blog.py:62-66 | Registering adds the class's tag, keeps every earlier tag, and adds nothing else. |
| Blog.UpdatePortletsIdempotent | assentio/apps/blog/blog.py:62-66 | Registering an already registered type leaves the application unchanged. |
| Blog.Restricted | assentio/apps/blog/blog.py:80-81 | A query hides non-public items exactly when the caller is anonymous and the query is not unrestricted. |
| Blog.Visible | assentio/apps/blog/blog.py:79-84 | An item is visible when the query is not restricted or the item is public. |
| Blog.GetPostsAsWritten | assentio/apps/blog/blog.py:68-90 | The query as written returns each post of the listed types that the caller may see, as often as it is stored, and only those. When ordered, the result is most recent first. |
| Blog.GetPosts | assentio/apps/blog/blog.py:68-90 | The documented query: as above, except that an empty type list means every type. |
| Blog.EmptyTypesSelectNothing | assentio/apps/blog/blog.py:68-77 | With an empty type list, the code as written returns nothing even when a public post exists. The documented query returns that post. |
| Blog.GetPostsMatchesCode | assentio/apps/blog/blog.py:68-77 | For every non-empty type list, the documented query and the code as written agree. |
| Blog.DateKeyOrder | assentio/apps/blog/blog.py:87-88 | Ascending order of the sort key is exactly most-recent-first order, with missing dates last. |
| Blog.GetAllPosts | assentio/apps/blog/blog.py:92-98 | The home listing holds exactly the visible stored posts of every type except `page`, each as often as it is stored, most recent first when ordered. |
| Blog.GetPages | assentio/apps/blog/blog.py:100-113 | Pages are listed as often as stored exactly when their post resolves, and, for a restricted query (anonymous and not unrestricted), when a public post carries their foreign key. They are sorted by `order` when ordered. |
| Blog.AnonymousPagesArePublic | assentio/apps/blog/blog.py:104-113 | Under a primary key, every page an anonymous caller is shown resolves to a public post. |
| Blog.GetSocialButtons | assentio/apps/blog/blog.py:115-130 | The buttons returned are exactly the visible stored buttons, as often as stored, sorted by `order` when ordered. |
| Blog.AuthenticatedSeesAllButtons | assentio/apps/blog/blog.py:115-130 | An authenticated caller gets every stored button, each as often as it is stored. Without ordering, the model's store returns them in insertion order. |
| Blog.FindSlot | assentio/apps/blog/blog.py:135-141 | The slot lookup returns a stored slot of that name, and nothing exactly when no slot has the name. |
| Blog.SlotPortlets | assentio/apps/blog/blog.py:143-146 | Collecting over the registry gives exactly the stored portlets attached to the slot whose tag is among the iterated ones. |
| Blog.SlotPortletsCount | assentio/apps/blog/blog.py:143-146 | When iteration repeats no tag, each such portlet is collected exactly as often as it is stored. |
| Blog.SlotCandidates | assentio/apps/blog/blog.py:143-150 | Before sorting, the slot's list holds exactly the stored portlets attached to it, of an iterated type, and visible to the caller. |
| Blog.SlotShows | assentio/apps/blog/blog.py:143-150 | A slot query shows a portlet when it is attached to the slot, its type is registered, and the caller may see it. |
| Blog.GetPortletsBySlot | assentio/apps/blog/blog.py:132-155 | An unknown slot gives an empty list. Otherwise the result holds exactly the slot's visible portlets of registered types, each as often as it is stored, in non-decreasing `order` when ordered. |
| Blog.PortletSortStable | assentio/apps/blog/blog.py:152-153 | Sorting keeps, among portlets of equal `order`, the order of the unsorted result. |
| Blog.PortletFilterBeforeSort | assentio/apps/blog/blog.py:148-153 | For an anonymous caller, filtering before the sort gives the same list as sorting all of the slot's portlets and filtering afterwards. |
| Blog.IterationOrderIrrelevant | assentio/apps/blog/blog.py:143-155 | The slot's portlets do not depend on the order in which the registry set is iterated, up to arrangement. |
| Blog.Paginate | assentio/apps/blog/blog.py:164-166 | A page exists exactly when its number is 1, or greater than 1 with items at its offset. Page `n` holds at most four items: the items from position `4(n-1)` in listing order, exactly four when the listing reaches that far. Otherwise the result is 404. |
| Blog.ItemOnItsPage | assentio/apps/blog/blog.py:164-166 | Every item appears on page `i/4 + 1`, at position `i mod 4`. |
| Blog.ItemOnlyOnItsPage | assentio/apps/blog/blog.py:164-166 | An item that occurs once appears on no other page. |
| Blog.ListingFixedByDistinctDates | assentio/apps/blog/blog.py:164-168 | When no two stored posts share a date, every listing the `ORDER BY date DESC` query may return equals the model's listing, so separate page requests cut their pages from the same list. |
| Blog.OldestOfFiveOnPageTwo | assentio/tests/test_fts_common.py:204-222 | With five visible posts, the strictly oldest is not on page 1. Page 2 holds exactly that post, and page 3 is 404. |
| Blog.GetAllPageComponents | assentio/apps/blog/blog.py:157-177 | Given a post, the components carry it and no listing. Without a post, the components carry no single post, and the listing is paginated for a non-zero page number (404 exactly when that page does not exist) and unpaginated otherwise. Pages, buttons and the slot lookup are the ordered queries for the same caller. |
| Blog.RouteMatches | assentio/apps/blog/blog.py:19-26 | The route matches a row by shortname when one is given, else by identifier, and only public rows for an anonymous caller. |
| Blog.PostRoute | assentio/apps/blog/blog.py:14-34 | The route gives 404 exactly when no visible row matches. A lookup by identifier redirects to the matching post's shortname. A lookup by shortname renders a stored visible post with that shortname and no listing, together with the caller's ordered pages, ordered buttons and slot lookup. |
| Blog.UnrestrictedIsAuthenticatedView | assentio/apps/blog/blog.py:79-81 | For posts (both the query as written and as documented), pages, buttons and slot portlets alike, an unrestricted query gives an anonymous caller exactly what an authenticated caller sees. |
| Blog.PostVisibleAfterPublishing | assentio/tests/test_blog.py:54-97 | A private post looked up by shortname is 404 for an anonymous caller and rendered for a logged-in one. Once published, an anonymous lookup by identifier redirects to the shortname, a lookup by shortname renders, and an unknown identifier or shortname is 404. |
| Blog.PublishingShowsPost | assentio/tests/test_blog.py:100-123 | A private standard post is hidden from anonymous callers. Once its state is set to public, it is listed. |

## Left out

- **Views and rendering.** The view modules, `TextPortlet.get_template`'s file read and Jinja rendering, the RSS feed, login, admin and caching are not part of this model. `Portlets.GetTemplate` takes the variant's rendering as a parameter.
- **`url_fix`.** Its internals belong to werkzeug, so it is a parameter. `Text.EscapeLess` is only a stand-in showing its upper-case escapes. Lemmas that need re-normalisation to change nothing take that as a hypothesis about the one value they use.
- Models.CreatedShortname: werkzeug's `url_fix` is not idempotent after lower-casing, because `lower` turns its upper-case escapes such as `%C3` into `%c3`. So assigning a new title can change a stored shortname, and a created post's shortname can differ from `url_fix(title.lower())`. The lemma promises `url_fix(title.lower())` only when re-normalising leaves it unchanged, and otherwise states the twice-normalised value.
- **`None` shortname.** `Models.AssignShortname` and `Models.AssignTitle` take a string, so the AttributeError that `validate_shortname(None)` raises at `value.lower()` is not modelled.
- **Lower-casing.** `Text.Lower` lower-cases ASCII letters only, not the rest of Unicode.
- **Dates.** Dates are natural-number instants, not `datetime` values. "Now" is a parameter.
- **Raising assignments.** A raising assignment is all-or-nothing in the model. In Python, `validate_title` may already have written the shortname before reading `current_user.username` raises.
- **Database checks.** Of the column constraints, only the NOT NULL constraints on the post's title and body and the unique shortname are checked (`Models.SavePost`). No length limit is checked. Pages, buttons and portlets are taken as already stored.
- **Column widths.** String column widths (`String(120)` and so on) are not enforced.
- **Unmapped types.** `get_portlets_by_slot` would raise AttributeError if a registered type had no back-reference on the slot. The model assumes every registered type is mapped: a missing back-reference reads as an empty collection.
- **Pagination library.** Flask-SQLAlchemy's `paginate` lives outside this repository. `Blog.Paginate` follows its documented `error_out=True` behaviour, and the pagination object's other fields are not modelled.
- **Page 0.** `if page:` treats 0 as no page, so `/?page=0` gets the unpaginated listing. Negative numbers give 404 through `Blog.Paginate`.
- **Non-numeric page numbers.** The index view's conversion of the `page` argument, where a non-number gives 404, is outside this model. `Blog.GetAllPageComponents` takes an optional integer.
- **SQL tie order.** The order of rows with equal sort keys in an SQL result is not promised. `Blog.GetPostsAsWritten`, `Blog.GetPages` and `Blog.GetSocialButtons` state sortedness and the multiset of rows, not the arrangement of ties.
- **Slot names.** `PortletSlot.name` is unique in the database. `Blog.FindSlot` takes the first match and does not assume uniqueness.
- Models.NewPost: the blank records, and so new posts, carry the column defaults (`type`, `state`, `category`, `order`) from construction on. SQLAlchemy applies `Column(default=...)` only at INSERT, so an unsaved Python object holds `None` there until it is saved. The same holds for `Models.BlankPost`, `Models.BlankPage`, `Models.BlankSocialButton`, and for the validity lemmas that start from them.
- Portlets.NewPortlet: a new portlet carries the defaults private and order 1 from construction on. SQLAlchemy fills them only at INSERT.
- Models.BindPost: the page's foreign key takes the post's identifier when the post is bound, so a post that has no identifier yet leaves it unset. SQLAlchemy copies the key at flush, after an unsaved post has been given its identifier.
- Blog.AuthenticatedSeesAllButtons: an unordered SQL result is modelled in insertion order. SQL promises only the multiset of rows, which the lemma states separately.
- Blog.GetAllPageComponents: every page request runs its own `ORDER BY date DESC LIMIT 4 OFFSET 4(n-1)` query, and SQL may arrange posts of equal date differently from one query to the next, so the program can show a post on two pages and skip another. `Blog.Paginate` slices one fixed listing, so `Blog.ItemOnItsPage` and `Blog.ItemOnlyOnItsPage` describe the program only when no two posts share a date, which `Blog.ListingFixedByDistinctDates` proves sufficient.
- **Enum checks.** The state, type and category validators check their value with `assert` (models.py:62, 67, 110 and 125, base.py:41). The model's `ValidationError` assumes assertions are enabled; under `python -O` they are removed and any value is stored.
- **Route arguments.** Flask's routing of `/post/<int:post_id>` and `/post/<shortname>` to the optional arguments is taken as given.

## Findings

| source | as written | input that shows it | evidently intended | confidence | as-written member | corrected member |
|---|---|---|---|---|---|---|
| assentio/apps/blog/blog.py:68-77 | `_get_posts` filters with `Post.type.in_(types)`, and the default `types=[]` selects no post at all | `_get_posts()` with one public `standard` post stored, called by an anonymous user: returns nothing | the docstring's "if [] return all types post" — an empty list means every post type | high; not executed | Blog.GetPostsAsWritten (with Blog.EmptyTypesSelectNothing) | Blog.GetPosts (with Blog.GetPostsMatchesCode) |
