/** The blog's records and the rules attached to their fields
    (`assentio/apps/blog/models.py`).

    SQLAlchemy runs a validator whenever a field is assigned; here every
    validated assignment is a function from the old record to the new one (or
    to the error the validator raises). Column defaults are part of the blank
    records. The acting user, "now" and `url_fix` come in through `Context`.
 */
module Models {
  import opened Wrappers
  import opened Seqs
  import Text

  /** An instant of time; larger is later. */
  type Date = nat

  const Private: string := "private"
  const Public: string := "public"

  /** The keys of `states`, `post_types` and `page_categories`. */
  const States: set<string> := {"private", "public"}
  const PostTypes: set<string> := {"standard", "image", "quote", "page", "flashnews"}
  const PageCategories: set<string> := {"top-navigation", "bottom-navigation"}

  /** `current_user`: anonymous, or logged in under a username. */
  datatype Actor = Anonymous | User(username: string)

  /** What a validator can observe besides the record itself. */
  datatype Context = Context(urlFix: string -> string, actor: Actor, now: Date)

  datatype Post = Post(
    id: Option<int>,
    storedShortname: Option<string>,
    title: Option<string>,
    description: Option<string>,
    body: Option<string>,
    showFull: Option<bool>,
    image: Option<string>,
    date: Option<Date>,
    postType: string,
    state: string,
    author: Option<string>)

  datatype Page = Page(id: Option<int>, category: string, order: int, postId: Option<int>)

  datatype SocialButton = SocialButton(
    id: Option<int>,
    name: Option<string>,
    image: Option<string>,
    url: Option<string>,
    order: int,
    disabled: Option<bool>,
    state: string)

  /** Python truthiness of an optional string: present and non-empty. */
  predicate Truthy(o: Option<string>)
  {
    o.Some? && o.value != ""
  }

  /** Python's `o or v` for an optional string. */
  function Or(o: Option<string>, v: string): string
  {
    if Truthy(o) then o.value else v
  }

  // ---------------------------------------------------------------- Post

  /** A post as constructed, with the column defaults for type and state. */
  function BlankPost(): Post
  {
    Post(None, None, None, None, None, None, None, None, "standard", Private, None)
  }

  /** Assigning the shortname: the validator stores `url_fix(value.lower())`. */
  function AssignShortname(p: Post, urlFix: string -> string, value: string): (r: Post)
    ensures r.storedShortname == Some(Text.Normalize(urlFix, value))
    ensures r.(storedShortname := p.storedShortname) == p
  {
    p.(storedShortname := Some(Text.Normalize(urlFix, value)))
  }

  /** Assigning the title. The validator (re)stores the shortname from the
      stored one if there is one, else from the title; fills in the author
      from the acting user and the date from "now", each only if unset.
      Reading the username of an anonymous user raises. */
  function AssignTitle(p: Post, ctx: Context, value: string): (r: Result<Post>)
    ensures r.Err? <==> !Truthy(p.author) && ctx.actor.Anonymous?
    ensures r.Ok? ==> r.value.title == Some(value)
    ensures r.Ok? && Truthy(p.storedShortname) ==>
              r.value.storedShortname == Some(Text.Normalize(ctx.urlFix, p.storedShortname.value))
    ensures r.Ok? && !Truthy(p.storedShortname) ==>
              r.value.storedShortname == Some(Text.Normalize(ctx.urlFix, value))
    ensures r.Ok? && Truthy(p.author) ==> r.value.author == p.author
    ensures r.Ok? && !Truthy(p.author) ==> r.value.author == Some(ctx.actor.username)
    ensures r.Ok? && p.date.Some? ==> r.value.date == p.date
    ensures r.Ok? && p.date.None? ==> r.value.date == Some(ctx.now)
    ensures r.Ok? ==> r.value.(title := p.title, storedShortname := p.storedShortname,
                               author := p.author, date := p.date) == p
  {
    var p1 := AssignShortname(p, ctx.urlFix, Or(p.storedShortname, value));
    if !Truthy(p.author) && ctx.actor.Anonymous? then
      Err(AttributeError("username"))
    else
      var author := if Truthy(p.author) then p.author.value else ctx.actor.username;
      var p2 := p1.(author := Some(author));
      var p3 := AssignDate(p2, Some(if p.date.Some? then p.date.value else ctx.now));
      Ok(p3.(title := Some(value)))
  }

  /** Assigning the date: a null value keeps the date already stored. */
  function AssignDate(p: Post, value: Option<Date>): (r: Post)
    ensures value.Some? ==> r.date == value
    ensures value.None? ==> r.date == p.date
    ensures r.(date := p.date) == p
  {
    if value.Some? then p.(date := value) else p
  }

  /** The `states` check shared by posts, social buttons and portlets. */
  function ValidateState(value: string): (r: Result<string>)
    ensures r.Ok? <==> value == Private || value == Public
    ensures r.Ok? ==> r.value == value
  {
    if value in States then Ok(value) else Err(ValidationError("state", value))
  }

  function SetPostState(p: Post, value: string): (r: Result<Post>)
    ensures r.Ok? <==> value in States
    ensures r.Ok? ==> r.value == p.(state := value)
  {
    match ValidateState(value)
    case Ok(v) => Ok(p.(state := v))
    case Err(e) => Err(e)
  }

  function SetPostType(p: Post, value: string): (r: Result<Post>)
    ensures r.Ok? <==> value in {"standard", "image", "quote", "page", "flashnews"}
    ensures r.Ok? ==> r.value == p.(postType := value)
  {
    if value in PostTypes then Ok(p.(postType := value)) else Err(ValidationError("type", value))
  }

  /** `Post(title)`: the title is assigned only when it is truthy. */
  function NewPost(ctx: Context, title: Option<string>): (r: Result<Post>)
    ensures !Truthy(title) ==> r == Ok(BlankPost())
    ensures Truthy(title) && ctx.actor.User? ==>
              r.Ok? && r.value.title == title
              && r.value.storedShortname == Some(Text.Normalize(ctx.urlFix, title.value))
              && r.value.author == Some(ctx.actor.username)
              && r.value.date == Some(ctx.now)
              && r.value.postType == "standard" && r.value.state == Private
    ensures Truthy(title) && ctx.actor.Anonymous? ==> r.Err?
  {
    if Truthy(title) then AssignTitle(BlankPost(), ctx, title.value) else Ok(BlankPost())
  }

  // ---------------------------------------------------------------- Page

  function BlankPage(): Page
  {
    Page(None, "top-navigation", 1, None)
  }

  function SetCategory(pg: Page, value: string): (r: Result<Page>)
    ensures r.Ok? <==> value == "top-navigation" || value == "bottom-navigation"
    ensures r.Ok? ==> r.value == pg.(category := value)
  {
    if value in PageCategories then Ok(pg.(category := value)) else Err(ValidationError("category", value))
  }

  /** `page.post = post`: the foreign key takes the post's identifier. */
  function BindPost(pg: Page, post: Post): (r: Page)
    ensures r.postId == post.id
    ensures r.(postId := pg.postId) == pg
  {
    pg.(postId := post.id)
  }

  /** A row whose identifier is `id`. */
  predicate HasId(p: Post, id: Option<int>)
  {
    id.Some? && p.id == id
  }

  /** The `Page.post` relationship: the post the foreign key points at,
      provided that post's type is `page`. */
  function ResolvePost(posts: seq<Post>, pg: Page): (r: Option<Post>)
    ensures r.Some? ==> r.value in posts && HasId(r.value, pg.postId) && r.value.postType == "page"
    ensures r.None? <==> forall i :: 0 <= i < |posts| ==> !(HasId(posts[i], pg.postId) && posts[i].postType == "page")
  {
    FindFirst(posts, p => HasId(p, pg.postId) && p.postType == "page")
  }

  // ---------------------------------------------------------------- SocialButton

  function BlankSocialButton(): SocialButton
  {
    SocialButton(None, None, None, None, 1, None, Private)
  }

  function SetButtonState(b: SocialButton, value: string): (r: Result<SocialButton>)
    ensures r.Ok? <==> value in States
    ensures r.Ok? ==> r.value == b.(state := value)
  {
    match ValidateState(value)
    case Ok(v) => Ok(b.(state := v))
    case Err(e) => Err(e)
  }

  // ---------------------------------------------------------------- the post table

  /** The `unique=True` constraint on `stored_shortname` (NULLs never clash). */
  predicate UniqueShortnames(posts: seq<Post>)
  {
    forall i, j :: 0 <= i < j < |posts| && posts[i].storedShortname.Some? ==>
      posts[i].storedShortname != posts[j].storedShortname
  }

  /** The primary key: every row has an identifier and no two share one. */
  predicate UniqueIds(posts: seq<Post>)
  {
    (forall i :: 0 <= i < |posts| ==> posts[i].id.Some?)
    && forall i, j :: 0 <= i < j < |posts| ==> posts[i].id != posts[j].id
  }

  /** The identifier the database assigns to a new row: one above the largest. */
  function NextId(posts: seq<Post>): (n: int)
    ensures n >= 1
    ensures forall i :: 0 <= i < |posts| && posts[i].id.Some? ==> posts[i].id.value < n
  {
    if |posts| == 0 then 1
    else
      var rest := NextId(posts[1..]);
      assert forall i :: 1 <= i < |posts| ==> posts[i] == posts[1..][i - 1];
      if posts[0].id.Some? && posts[0].id.value >= rest then posts[0].id.value + 1 else rest
  }

  /** A row other than `p` itself (for a new post: any row) already holds `p`'s shortname. */
  predicate ShortnameTaken(posts: seq<Post>, p: Post)
  {
    p.storedShortname.Some? &&
    exists i :: 0 <= i < |posts| && posts[i].storedShortname == p.storedShortname
                && (p.id.None? || posts[i].id != p.id)
  }

  /** Saving a post: the NOT NULL columns must be set and the shortname must be
      free; a new post is appended under a fresh identifier, a stored one
      replaces the row with its identifier. */
  function SavePost(posts: seq<Post>, p: Post): (r: Result<seq<Post>>)
    ensures r.Ok? <==> p.title.Some? && p.body.Some? && !ShortnameTaken(posts, p)
    ensures r.Ok? && p.id.None? ==>
              |r.value| == |posts| + 1 && r.value[..|posts|] == posts
              && r.value[|posts|] == p.(id := r.value[|posts|].id)
              && r.value[|posts|].id.Some?
              && forall i :: 0 <= i < |posts| ==> posts[i].id != r.value[|posts|].id
    ensures r.Ok? && p.id.Some? ==> p in r.value
    ensures r.Ok? && p.id.Some? && (exists i :: 0 <= i < |posts| && posts[i].id == p.id) ==>
              |r.value| == |posts|
              && forall i :: 0 <= i < |posts| ==> r.value[i] == (if posts[i].id == p.id then p else posts[i])
    ensures r.Ok? && p.id.Some? && (forall i :: 0 <= i < |posts| ==> posts[i].id != p.id) ==>
              r.value == posts + [p]
    ensures r.Ok? && UniqueIds(posts) ==> UniqueIds(r.value)
    ensures r.Ok? && UniqueShortnames(posts) && UniqueIds(posts) ==> UniqueShortnames(r.value)
  {
    if p.title.None? then Err(IntegrityError("title"))
    else if p.body.None? then Err(IntegrityError("body"))
    else if ShortnameTaken(posts, p) then Err(IntegrityError("stored_shortname"))
    else if p.id.None? then
      var row := p.(id := Some(NextId(posts)));
      Ok(posts + [row])
    else if exists i :: 0 <= i < |posts| && posts[i].id == p.id then
      var k :| 0 <= k < |posts| && posts[k].id == p.id;
      var rows := seq(|posts|, i requires 0 <= i < |posts| => if posts[i].id == p.id then p else posts[i]);
      assert rows[k] == p;
      Ok(rows)
    else
      Ok(posts + [p])
  }

  /** Two posts created from the same title clash on their shortname: the
      second save fails. */
  lemma SameTitleConflicts(posts: seq<Post>, ctx: Context, title: string, body1: string, body2: string)
    requires title != "" && ctx.actor.User?
    requires SavePost(posts, NewPost(ctx, Some(title)).value.(body := Some(body1))).Ok?
    ensures SavePost(SavePost(posts, NewPost(ctx, Some(title)).value.(body := Some(body1))).value,
                     NewPost(ctx, Some(title)).value.(body := Some(body2))).Err?
  {
    var first := NewPost(ctx, Some(title)).value.(body := Some(body1));
    var stored := SavePost(posts, first).value;
    assert stored[|posts|].storedShortname == first.storedShortname;
  }

  /** A custom shortname assigned before the title survives the title
      assignment, provided re-normalising it changes nothing and it does not
      normalise to the empty string. */
  lemma CustomShortnameWins(p: Post, ctx: Context, custom: string, title: string)
    requires Text.Normalize(ctx.urlFix, Text.Normalize(ctx.urlFix, custom)) == Text.Normalize(ctx.urlFix, custom)
    requires Text.Normalize(ctx.urlFix, custom) != ""
    requires AssignTitle(AssignShortname(p, ctx.urlFix, custom), ctx, title).Ok?
    ensures AssignTitle(AssignShortname(p, ctx.urlFix, custom), ctx, title).value.storedShortname
         == Some(Text.Normalize(ctx.urlFix, custom))
  {
  }

  /** The creation sequence of the application: `Post(title)`, then the
      title assigned once more. The second assignment re-normalises the
      stored shortname, so the result is the title normalised twice; it is
      `url_fix(title.lower())` only when re-normalising changes nothing. */
  lemma CreatedShortname(ctx: Context, title: string)
    requires title != "" && ctx.actor.User?
    ensures AssignTitle(NewPost(ctx, Some(title)).value, ctx, title).Ok?
    ensures Text.Normalize(ctx.urlFix, title) != "" ==>
              AssignTitle(NewPost(ctx, Some(title)).value, ctx, title).value.storedShortname
              == Some(Text.Normalize(ctx.urlFix, Text.Normalize(ctx.urlFix, title)))
    ensures Text.Normalize(ctx.urlFix, Text.Normalize(ctx.urlFix, title)) == Text.Normalize(ctx.urlFix, title) ==>
              AssignTitle(NewPost(ctx, Some(title)).value, ctx, title).value.storedShortname
              == Some(Text.Normalize(ctx.urlFix, title))
  {
  }

  /** Once the author is set (to a non-empty name), a later title assignment,
      by any user, leaves author and date as they were. */
  lemma RetitleKeepsAuthorAndDate(p: Post, ctx: Context, ctx2: Context, t1: string, t2: string)
    requires AssignTitle(p, ctx, t1).Ok?
    requires Truthy(AssignTitle(p, ctx, t1).value.author)
    ensures AssignTitle(AssignTitle(p, ctx, t1).value, ctx2, t2).Ok?
    ensures AssignTitle(AssignTitle(p, ctx, t1).value, ctx2, t2).value.author
         == AssignTitle(p, ctx, t1).value.author
    ensures AssignTitle(AssignTitle(p, ctx, t1).value, ctx2, t2).value.date
         == AssignTitle(p, ctx, t1).value.date
  {
  }

  /** Binding a post to a page resolves to that post exactly when its type is
      `page`; a post of any other type leaves the page unbound. */
  lemma BindResolves(posts: seq<Post>, pg: Page, post: Post)
    requires UniqueIds(posts) && post in posts
    ensures ResolvePost(posts, BindPost(pg, post)) == if post.postType == "page" then Some(post) else None
  {
    var i :| 0 <= i < |posts| && posts[i] == post;
    var r := ResolvePost(posts, BindPost(pg, post));
    if r.Some? {
      var j :| 0 <= j < |posts| && posts[j] == r.value;
      assert posts[j].id == posts[i].id;
    }
  }

  /** The column defaults pass their own validators. */
  lemma DefaultsValid()
    ensures SetPostState(BlankPost(), BlankPost().state).Ok?
    ensures SetPostType(BlankPost(), BlankPost().postType).Ok?
    ensures SetCategory(BlankPage(), BlankPage().category).Ok?
    ensures SetButtonState(BlankSocialButton(), BlankSocialButton().state).Ok?
    ensures BlankPage().order == 1 && BlankSocialButton().order == 1
  {
  }

  // ---------------------------------------------------------------- record validity

  /** What the validators guarantee about a post: its state and type are
      among the declared keys. */
  predicate ValidPost(p: Post)
  {
    p.state in States && p.postType in PostTypes
  }

  predicate ValidPage(pg: Page)
  {
    pg.category in PageCategories
  }

  predicate ValidButton(b: SocialButton)
  {
    b.state in States
  }

  /** One validated attribute assignment on a post, as the admin form or the
      application code performs it. */
  datatype PostEdit =
    | EditTitle(title: string)
    | EditShortname(shortname: string)
    | EditDate(date: Option<Date>)
    | EditState(state: string)
    | EditType(postType: string)

  function ApplyEdit(p: Post, ctx: Context, e: PostEdit): Result<Post>
  {
    match e
    case EditTitle(t) => AssignTitle(p, ctx, t)
    case EditShortname(v) => Ok(AssignShortname(p, ctx.urlFix, v))
    case EditDate(d) => Ok(AssignDate(p, d))
    case EditState(v) => SetPostState(p, v)
    case EditType(v) => SetPostType(p, v)
  }

  /** A sequence of assignments; the first one that raises ends it. */
  function ApplyEdits(p: Post, ctx: Context, edits: seq<PostEdit>): Result<Post>
    decreases |edits|
  {
    if |edits| == 0 then Ok(p)
    else
      match ApplyEdit(p, ctx, edits[0])
      case Err(e) => Err(e)
      case Ok(q) => ApplyEdits(q, ctx, edits[1..])
  }

  /** No sequence of assignments leaves a valid post with a state or a type
      outside the declared keys. */
  lemma {:induction false} EditsKeepPostValid(p: Post, ctx: Context, edits: seq<PostEdit>)
    requires ValidPost(p)
    ensures ApplyEdits(p, ctx, edits).Ok? ==> ValidPost(ApplyEdits(p, ctx, edits).value)
    decreases |edits|
  {
    if |edits| > 0 {
      match ApplyEdit(p, ctx, edits[0])
      case Err(_) =>
      case Ok(q) =>
        assert ValidPost(q);
        EditsKeepPostValid(q, ctx, edits[1..]);
    }
  }

  /** Once a post has a date, no assignment clears it, and the identifier
      never changes. */
  lemma {:induction false} DateNeverCleared(p: Post, ctx: Context, edits: seq<PostEdit>)
    requires p.date.Some?
    ensures ApplyEdits(p, ctx, edits).Ok? ==> ApplyEdits(p, ctx, edits).value.date.Some?
    ensures ApplyEdits(p, ctx, edits).Ok? ==> ApplyEdits(p, ctx, edits).value.id == p.id
    decreases |edits|
  {
    if |edits| > 0 {
      match ApplyEdit(p, ctx, edits[0])
      case Err(_) =>
      case Ok(q) =>
        assert q.date.Some? && q.id == p.id;
        DateNeverCleared(q, ctx, edits[1..]);
    }
  }

  /** A post that has been given a title has a date from then on, whatever is
      assigned afterwards. */
  lemma TitledPostKeepsDate(p: Post, ctx: Context, title: string, edits: seq<PostEdit>)
    requires AssignTitle(p, ctx, title).Ok?
    ensures ApplyEdits(AssignTitle(p, ctx, title).value, ctx, edits).Ok? ==>
              ApplyEdits(AssignTitle(p, ctx, title).value, ctx, edits).value.date.Some?
  {
    DateNeverCleared(AssignTitle(p, ctx, title).value, ctx, edits);
  }

  /** The blank records and every post the constructor makes are valid, and
      the page and button setters keep their records valid. */
  lemma RecordsStayValid(ctx: Context, title: Option<string>, pg: Page, b: SocialButton, post: Post, v: string)
    ensures ValidPost(BlankPost()) && ValidPage(BlankPage()) && ValidButton(BlankSocialButton())
    ensures NewPost(ctx, title).Ok? ==> ValidPost(NewPost(ctx, title).value)
    ensures ValidPage(pg) ==> ValidPage(BindPost(pg, post))
    ensures SetCategory(pg, v).Ok? ==> ValidPage(SetCategory(pg, v).value)
    ensures SetButtonState(b, v).Ok? ==> ValidButton(SetButtonState(b, v).value)
  {
  }
}
