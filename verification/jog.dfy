/**
 The request handlers of the jog blog as pure steps over an abstract state.

 A request sees the `posts` table, the session's `logged_in` flag and the
 session's queue of flashed messages; it produces the next state and one
 response. Flask's helpers are constructors here: `render_template` is
 `Render`, `redirect(url_for(...))` is `Redirect`, `abort` is `Abort`, and an
 exception that escapes a view is `Fail`. With DEBUG set, as the file's own
 settings have it, the exception propagates and no session cookie is written,
 so a failing request's session part is the one it started from, and a
 message it flashed before raising is lost; a write it committed to the
 database before raising stays.
 */
module Jog {
  import opened Options
  import opened Decimal
  import opened IdText
  import opened PostStore
  import Listing

  /** The credentials `/login` compares against, read from the application's configuration. */
  datatype Config = Config(username: string, password: string)

  /** The credentials the file itself sets, before any settings file overrides them. */
  const Defaults := Config("admin", "default")

  /** The module constant the public link of a post starts with. */
  const PublicUrlBase := "http://nginx.jwd.me"

  datatype State = State(store: Store, loggedIn: bool, flashes: seq<string>)

  /** The posted fields of a request; a missing key is absent from the map. */
  type Form = map<string, string>

  datatype HttpMethod = GET | POST

  /**
   `Markup(markdown.markdown(source))`: the conversion itself is a library
   this model does not interpret, so the rendered body is kept as a term.
   */
  datatype Html = Markdown(source: string)

  /** `time.ctime(seconds)`, kept as a term for the same reason. */
  datatype DisplayTime = Ctime(seconds: int)

  /** A post as the index and post pages show it. */
  datatype Entry = Entry(title: string, body: Html, id: int, dateCreated: DisplayTime)

  /** A post as the edit form shows it: raw Markdown and the raw timestamp. */
  datatype RawEntry = RawEntry(title: string, body: string, id: int, dateCreated: int)

  datatype Page =
    | IndexPage(entries: seq<Entry>)
    | PostPage(entry: Entry, puburl: string)
    | EditPage(raw: RawEntry)
    | CreatePage
    | LoginPage(error: Option<string>)

  datatype Target = ToIndex | ToShowPost(postId: int)

  datatype Response =
    | Render(template: string, page: Page)
    | Redirect(target: Target)
    | Abort(code: nat)
    /** The view returned None, which Flask refuses to turn into a response. */
    | NoResponse
    | Fail

  datatype Step = Step(state: State, response: Response)

  const EditLoginMessage := "You must login before editing a post."
  const SubmitLoginMessage := "You must login before submitting an edited post."
  const EditDoneMessage := "Your edit has been submitted."
  const DeleteLoginMessage := "You must login before deleting a post."
  const CreateLoginMessage := "You must login before posting."
  const AddDoneMessage := "New post was successfully created."
  const LoggedInMessage := "You were logged in"
  const LoggedOutMessage := "You were logged out"
  const InvalidUsername := "Invalid username"
  const InvalidPassword := "Invalid password"

  function Shown(id: int, p: Post): Entry {
    Entry(p.title, Markdown(p.body), id, Ctime(p.dateCreated))
  }

  /** The answer of a gated view to a visitor who is not logged in. */
  function MustLogin(s: State, message: string): Step {
    Step(s.(flashes := s.flashes + [message]), Redirect(ToIndex))
  }

  /**
   The redirect-with-flash gate: the visitor is sent to the index with one
   message queued, and neither the store nor the session flag changes.
   */
  predicate SentToIndex(s: State, r: Step, message: string) {
    && r.response == Redirect(ToIndex)
    && r.state.store == s.store
    && r.state.loggedIn == s.loggedIn
    && r.state.flashes == s.flashes + [message]
  }

  /** The rows with the given ids, in the given order, as the index shows them. */
  function Entries(st: Store, ids: seq<int>): (es: seq<Entry>)
    requires forall i :: 0 <= i < |ids| ==> ids[i] in st
    ensures |es| == |ids|
    ensures forall i :: 0 <= i < |ids| ==> es[i] == Shown(ids[i], st[ids[i]])
  {
    seq(|ids|, i requires 0 <= i < |ids| => Shown(ids[i], st[ids[i]]))
  }

  /**
   `es` lists the store: every row exactly once, shown as the index shows
   it, in strictly descending id order.
   */
  predicate Lists(st: Store, es: seq<Entry>) {
    && |es| == |st|
    && (forall i, j :: 0 <= i < j < |es| ==> es[i].id > es[j].id)
    && (forall i :: 0 <= i < |es| ==> es[i].id in st && es[i] == Shown(es[i].id, st[es[i].id]))
    && (forall id :: id in st ==> exists i :: 0 <= i < |es| && es[i].id == id)
  }

  /** Any strictly descending listing of exactly the store's ids, shown row by row, lists the store. */
  lemma EntriesList(st: Store, ids: seq<int>)
    requires Listing.StrictlyDescending(ids)
    requires forall k :: k in st <==> k in ids
    requires |ids| == |st|
    ensures forall i :: 0 <= i < |ids| ==> ids[i] in st
    ensures Lists(st, Entries(st, ids))
  {
    forall i | 0 <= i < |ids|
      ensures ids[i] in st
    {
      assert ids[i] in ids;
    }
    var es := Entries(st, ids);
    forall i, j | 0 <= i < j < |es|
      ensures es[i].id > es[j].id
    {
      assert es[i].id == ids[i] && es[j].id == ids[j];
    }
    forall id | id in st
      ensures exists i :: 0 <= i < |es| && es[i].id == id
    {
      var i :| 0 <= i < |ids| && ids[i] == id;
      assert es[i].id == id;
    }
  }

  lemma DescendingEntriesList(st: Store)
    ensures Lists(st, Entries(st, Listing.Descending(st.Keys)))
  {
    var ids := Listing.Descending(st.Keys);
    assert |st.Keys| == |st|;
    EntriesList(st, ids);
  }

  /** `/`: every post, newest id first, with no filtering or paging. */
  function IndexView(s: State): (r: Step)
    ensures r.state == s
    ensures r.response.Render? && r.response.template == "index.html"
    ensures r.response.page.IndexPage? && Lists(s.store, r.response.page.entries)
  {
    DescendingEntriesList(s.store);
    Step(s, Render("index.html", IndexPage(Entries(s.store, Listing.Descending(s.store.Keys)))))
  }

  /** The public link of a post: the base, `/post/`, the id. */
  function PublicUrl(id: nat): string {
    PublicUrlBase + "/post/" + NatToString(id)
  }

  /** `/post/<id>`: the row is read without a check, so a missing id crashes. */
  function ShowPost(s: State, postId: nat): (r: Step)
    ensures r.state == s
    ensures r.response.Fail? <==> postId !in s.store
    ensures postId in s.store ==>
      r.response == Render("post.html", PostPage(Shown(postId, s.store[postId]), PublicUrl(postId)))
  {
    if postId !in s.store then Step(s, Fail)
    else Step(s, Render("post.html", PostPage(Shown(postId, s.store[postId]), PublicUrl(postId))))
  }

  /**
   `/edit/<id>`: gated by redirect-with-flash. The query binds `str(post_id)`
   as the parameter sequence, so a string of two or more digits supplies more
   than the one parameter the statement takes and the query raises; a
   single digit binds correctly. A missing row crashes as in `ShowPost`.
   */
  function EditPost(s: State, postId: nat): (r: Step)
    ensures !s.loggedIn ==> SentToIndex(s, r, EditLoginMessage)
    ensures s.loggedIn ==> r.state == s
    ensures s.loggedIn ==> (r.response.Fail? <==> postId >= 10 || postId !in s.store)
    ensures s.loggedIn && !r.response.Fail? ==>
      && postId in s.store
      && r.response == Render("edit.html", EditPage(RawEntry(s.store[postId].title, s.store[postId].body, postId, s.store[postId].dateCreated)))
  {
    if !s.loggedIn then MustLogin(s, EditLoginMessage)
    else if |NatToString(postId)| != 1 then Step(s, Fail)
    else if postId !in s.store then Step(s, Fail)
    else
      var p := s.store[postId];
      Step(s, Render("edit.html", EditPage(RawEntry(p.title, p.body, postId, p.dateCreated))))
  }

  /**
   `POST /edit_submit`: gated by redirect-with-flash. The UPDATE binds the
   `id` field's text against the integer key, and SQLite's numeric affinity
   makes it match the row whose key the text reads as under `SqliteInteger`;
   the write is committed. The redirect then calls `int()` on the
   same text, and where `PythonInt` reads nothing the request fails after the
   write.
   */
  function EditSubmit(s: State, form: Form): (r: Step)
    ensures !s.loggedIn ==> SentToIndex(s, r, SubmitLoginMessage)
    ensures r.state.loggedIn == s.loggedIn
    ensures r.state.store.Keys == s.store.Keys
    ensures forall k :: k in s.store ==> r.state.store[k].dateCreated == s.store[k].dateCreated
    ensures s.loggedIn && !("title" in form && "body" in form && "id" in form) ==> r == Step(s, Fail)
    ensures s.loggedIn && "title" in form && "body" in form && "id" in form ==>
      && (forall k :: k in s.store ==>
            r.state.store[k] == (if SqliteInteger(form["id"]) == Some(k)
              then Post(form["title"], form["body"], s.store[k].dateCreated)
              else s.store[k]))
      && match PythonInt(form["id"])
         case Some(id) => r.response == Redirect(ToShowPost(id)) && r.state.flashes == s.flashes + [EditDoneMessage]
         case None => r.response == Fail && r.state.flashes == s.flashes
  {
    if !s.loggedIn then MustLogin(s, SubmitLoginMessage)
    else if !("title" in form && "body" in form && "id" in form) then Step(s, Fail)
    else
      var written := match SqliteInteger(form["id"])
        case Some(k) => Update(s.store, k, form["title"], form["body"])
        case None => s.store;
      match PythonInt(form["id"])
      case None => Step(s.(store := written), Fail)
      case Some(id) => Step(s.(store := written, flashes := s.flashes + [EditDoneMessage]), Redirect(ToShowPost(id)))
  }

  /** `/delete`: gated by redirect-with-flash, and otherwise does nothing. */
  function DeletePost(s: State): (r: Step)
    ensures !s.loggedIn ==> SentToIndex(s, r, DeleteLoginMessage)
    ensures s.loggedIn ==> r == Step(s, NoResponse)
  {
    if !s.loggedIn then MustLogin(s, DeleteLoginMessage) else Step(s, NoResponse)
  }

  /** `/create`: gated by redirect-with-flash; renders the empty form. */
  function CreatePost(s: State): (r: Step)
    ensures !s.loggedIn ==> SentToIndex(s, r, CreateLoginMessage)
    ensures s.loggedIn ==> r == Step(s, Render("create.html", CreatePage))
  {
    if !s.loggedIn then MustLogin(s, CreateLoginMessage) else Step(s, Render("create.html", CreatePage))
  }

  /**
   `POST /add`: refused with 401 and no flash when not logged in; otherwise
   one row is inserted with the server time `now` (`int(time.time())`).
   */
  function AddPost(s: State, form: Form, now: int): (r: Step)
    ensures !s.loggedIn ==> r == Step(s, Abort(401))
    ensures s.loggedIn && "title" in form && "body" in form ==>
      && r.response == Redirect(ToIndex)
      && r.state.loggedIn
      && r.state.flashes == s.flashes + [AddDoneMessage]
      && |r.state.store| == |s.store| + 1
      && (exists id :: id in r.state.store && id !in s.store)
      && (forall id :: id in r.state.store && id !in s.store ==>
            && r.state.store[id] == Post(form["title"], form["body"], now)
            && forall k :: k in s.store ==> k < id)
      && (forall k :: k in s.store ==> k in r.state.store && r.state.store[k] == s.store[k])
    ensures s.loggedIn && !("title" in form && "body" in form) ==> r == Step(s, Fail)
  {
    if !s.loggedIn then Step(s, Abort(401))
    else if !("title" in form && "body" in form) then Step(s, Fail)
    else
      var store' := Insert(s.store, form["title"], form["body"], now);
      assert store'.Keys == s.store.Keys + {NextId(s.store)};
      assert NextId(s.store) in store' && NextId(s.store) !in s.store;
      Step(s.(store := store', flashes := s.flashes + [AddDoneMessage]), Redirect(ToIndex))
  }

  /**
   `/login`: GET shows the form. POST checks the username first and the
   password only after it, and sets the flag only when both match.
   */
  function Login(cfg: Config, s: State, verb: HttpMethod, form: Form): (r: Step)
    ensures r.state.store == s.store
    ensures r.state.loggedIn <==> s.loggedIn || r.response == Redirect(ToIndex)
    ensures r.response == Redirect(ToIndex) <==>
      (&& verb == POST && "username" in form && "password" in form
       && form["username"] == cfg.username && form["password"] == cfg.password)
    ensures r.response != Redirect(ToIndex) ==> r.state == s
    ensures r.response == Redirect(ToIndex) ==> r.state.flashes == s.flashes + [LoggedInMessage]
  {
    if verb.GET? then Step(s, Render("login.html", LoginPage(None)))
    else if "username" !in form then Step(s, Fail)
    else if form["username"] != cfg.username then Step(s, Render("login.html", LoginPage(Some(InvalidUsername))))
    else if "password" !in form then Step(s, Fail)
    else if form["password"] != cfg.password then Step(s, Render("login.html", LoginPage(Some(InvalidPassword))))
    else Step(s.(loggedIn := true, flashes := s.flashes + [LoggedInMessage]), Redirect(ToIndex))
  }

  /** `/logout`: drops the flag whether or not it was set. */
  function Logout(s: State): (r: Step)
    ensures !r.state.loggedIn
    ensures r.state.store == s.store
    ensures r.state.flashes == s.flashes + [LoggedOutMessage]
    ensures r.response == Redirect(ToIndex)
  {
    Step(s.(loggedIn := false, flashes := s.flashes + [LoggedOutMessage]), Redirect(ToIndex))
  }

  /** The routes the application declares, with their path and form inputs. */
  datatype Request =
    | IndexRoute
    | ShowRoute(postId: nat)
    | EditRoute(postId: nat)
    | EditSubmitRoute(form: Form)
    | DeleteRoute
    | CreateRoute
    | AddRoute(form: Form)
    | LoginRoute(verb: HttpMethod, form: Form)
    | LogoutRoute

  /** The template each route renders, if it renders one. */
  function Template(req: Request): Option<string> {
    match req
    case IndexRoute => Some("index.html")
    case ShowRoute(_) => Some("post.html")
    case EditRoute(_) => Some("edit.html")
    case CreateRoute => Some("create.html")
    case LoginRoute(_, _) => Some("login.html")
    case _ => None
  }

  /**
   The router: one request, dispatched to its view. Each route renders only
   its own template; only `/add` aborts, and only for a visitor who is not
   logged in; only `/delete` gives no response, and only for one who is.
   */
  function Handle(cfg: Config, s: State, req: Request, now: int): (r: Step)
    ensures r.response.Render? ==> Template(req) == Some(r.response.template)
    ensures r.response.Abort? <==> req.AddRoute? && !s.loggedIn
    ensures r.response.NoResponse? <==> req.DeleteRoute? && s.loggedIn
  {
    match req
    case IndexRoute => IndexView(s)
    case ShowRoute(id) => ShowPost(s, id)
    case EditRoute(id) => EditPost(s, id)
    case EditSubmitRoute(form) => EditSubmit(s, form)
    case DeleteRoute => DeletePost(s)
    case CreateRoute => CreatePost(s)
    case AddRoute(form) => AddPost(s, form, now)
    case LoginRoute(verb, form) => Login(cfg, s, verb, form)
    case LogoutRoute => Logout(s)
  }
}
