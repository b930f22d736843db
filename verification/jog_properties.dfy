/**
 Properties of the jog views that relate several calls, several routes, or
 whole sequences of requests.
 */
module JogProperties {
  import opened Options
  import opened Decimal
  import opened IdText
  import opened PostStore
  import opened Jog
  import Listing

  // ----- Login and logout -----

  /** A GET of `/login` shows the form with no error and changes nothing. */
  lemma LoginGetShowsForm(cfg: Config, s: State, form: Form)
    ensures Login(cfg, s, GET, form) == Step(s, Render("login.html", LoginPage(None)))
  {
  }

  /**
   A wrong username is reported as such whatever the password, even when
   the password field is missing, and nothing changes.
   */
  lemma LoginWrongUsername(cfg: Config, s: State, form: Form)
    requires "username" in form && form["username"] != cfg.username
    ensures Login(cfg, s, POST, form) == Step(s, Render("login.html", LoginPage(Some(InvalidUsername))))
  {
  }

  /** The right username with a wrong password is a password error and logs no one in. */
  lemma LoginWrongPassword(cfg: Config, s: State, form: Form)
    requires "username" in form && form["username"] == cfg.username
    requires "password" in form && form["password"] != cfg.password
    ensures Login(cfg, s, POST, form) == Step(s, Render("login.html", LoginPage(Some(InvalidPassword))))
  {
  }

  /** Both credentials right: the flag is set, one message is queued, and the visitor goes to the index. */
  lemma LoginSucceeds(cfg: Config, s: State, form: Form)
    requires "username" in form && form["username"] == cfg.username
    requires "password" in form && form["password"] == cfg.password
    ensures Login(cfg, s, POST, form)
      == Step(State(s.store, true, s.flashes + [LoggedInMessage]), Redirect(ToIndex))
  {
  }

  /** Under the file's own settings, `admin` with password `default` logs in. */
  lemma DefaultCredentialsLogIn(s: State)
    ensures Login(Defaults, s, POST, map["username" := "admin", "password" := "default"])
      == Step(State(s.store, true, s.flashes + [LoggedInMessage]), Redirect(ToIndex))
  {
    LoginSucceeds(Defaults, s, map["username" := "admin", "password" := "default"]);
  }

  /** Logging out twice leaves the flag as logging out once, and neither touches the store. */
  lemma LogoutIdempotent(s: State)
    ensures var once := Logout(s).state;
      && Logout(once).state.loggedIn == once.loggedIn
      && Logout(once).state.store == s.store
      && Logout(once).response == Logout(s).response
  {
  }

  /**
   Gating differs by route: a visitor who is not logged in is sent to the
   index with a route-specific message by the edit form, the edit submit,
   the create form and delete, but `/add` answers 401 and queues nothing.
   None of them touches the store.
   */
  lemma LoggedOutGating(s: State, postId: nat, form: Form, now: int)
    requires !s.loggedIn
    ensures SentToIndex(s, EditPost(s, postId), EditLoginMessage)
    ensures SentToIndex(s, EditSubmit(s, form), SubmitLoginMessage)
    ensures SentToIndex(s, CreatePost(s), CreateLoginMessage)
    ensures SentToIndex(s, DeletePost(s), DeleteLoginMessage)
    ensures AddPost(s, form, now) == Step(s, Abort(401))
  {
  }

  /** After a logout every gated route treats the visitor as logged out. */
  lemma LogoutThenGated(s: State, postId: nat, form: Form, now: int)
    ensures var t := Logout(s).state;
      && SentToIndex(t, EditPost(t, postId), EditLoginMessage)
      && SentToIndex(t, EditSubmit(t, form), SubmitLoginMessage)
      && SentToIndex(t, CreatePost(t), CreateLoginMessage)
      && SentToIndex(t, DeletePost(t), DeleteLoginMessage)
      && AddPost(t, form, now) == Step(t, Abort(401))
  {
  }

  /** Logged in, `/create` shows the form and `/delete` gives no response; neither writes. */
  lemma LoggedInCreateAndDelete(s: State)
    requires s.loggedIn
    ensures CreatePost(s) == Step(s, Render("create.html", CreatePage))
    ensures DeletePost(s) == Step(s, NoResponse)
  {
  }

  // ----- Reading posts -----

  /**
   The index order is the only strictly descending listing of the store's
   ids: any other listing with the same ids, largest first, is the same.
   */
  lemma IndexOrderIsUnique(s: State, ids: seq<int>)
    requires Listing.StrictlyDescending(ids)
    requires forall k :: k in ids <==> k in s.store
    ensures forall i :: 0 <= i < |ids| ==> ids[i] in s.store
    ensures IndexView(s).response.page.entries == Entries(s.store, ids)
  {
    var d := Listing.Descending(s.store.Keys);
    Listing.DescendingUnique(d, ids);
  }

  /** `/post/<id>` of a stored post shows it with a public link whose last segment reads back as the id. */
  lemma ShowPostLinksBack(s: State, postId: nat)
    requires postId in s.store
    ensures var prefix := PublicUrlBase + "/post/";
      var url := ShowPost(s, postId).response.page.puburl;
      && ShowPost(s, postId).response.page.entry == Shown(postId, s.store[postId])
      && |prefix| <= |url| && url[..|prefix|] == prefix
      && AllDigits(url[|prefix|..]) && DigitsValue(url[|prefix|..]) == postId
  {
    var prefix := PublicUrlBase + "/post/";
    var url := PublicUrl(postId);
    assert url[|prefix|..] == NatToString(postId);
    DigitsValueOfNatToString(postId);
  }

  // ----- Writing posts -----

  function AddForm(title: string, body: string): Form {
    map["title" := title, "body" := body]
  }

  /** The post just added is shown by `/post/<id>` with the title and body given and the time of the request. */
  lemma AddThenShow(s: State, title: string, body: string, now: int)
    requires s.loggedIn
    ensures var s' := AddPost(s, AddForm(title, body), now).state;
      var id := NextId(s.store);
      id >= 0 ==>
        ShowPost(s', id).response
          == Render("post.html", PostPage(Entry(title, Markdown(body), id, Ctime(now)), PublicUrl(id)))
  {
  }

  /** The post just added heads the index. */
  lemma AddThenIndexFirst(s: State, title: string, body: string, now: int)
    requires s.loggedIn
    ensures var s' := AddPost(s, AddForm(title, body), now).state;
      var es := IndexView(s').response.page.entries;
      |es| > 0 && es[0] == Entry(title, Markdown(body), NextId(s.store), Ctime(now))
  {
    var s' := AddPost(s, AddForm(title, body), now).state;
    var id := NextId(s.store);
    assert id in s'.store && s'.store[id] == Post(title, body, now);
    assert forall k :: k in s'.store ==> k <= id;
    LargestFirst(s'.store, IndexView(s').response.page.entries, id);
  }

  /** In a listing of the store, the row with the largest id comes first. */
  lemma LargestFirst(st: Store, es: seq<Entry>, id: int)
    requires Lists(st, es) && id in st
    requires forall k :: k in st ==> k <= id
    ensures |es| > 0 && es[0] == Shown(id, st[id])
  {
    var i :| 0 <= i < |es| && es[i].id == id;
    assert es[0].id >= es[i].id;
    assert es[0].id in st;
  }

  function EditForm(id: string, title: string, body: string): Form {
    map["title" := title, "body" := body, "id" := id]
  }

  /** Submitting the same edit again leaves the store as the first submit left it. */
  lemma EditSubmitIdempotent(s: State, form: Form)
    ensures var once := EditSubmit(s, form);
      && EditSubmit(once.state, form).state.store == once.state.store
      && EditSubmit(once.state, form).response == once.response
  {
  }

  /**
   The edit form shows a row's id; submitting that id spelled in decimal
   edits exactly that row and comes back to its page.
   */
  lemma EditOfShownId(s: State, k: nat, title: string, body: string)
    requires s.loggedIn && k in s.store
    ensures var r := EditSubmit(s, EditForm(NatToString(k), title, body));
      && r.response == Redirect(ToShowPost(k))
      && r.state.store == s.store[k := Post(title, body, s.store[k].dateCreated)]
  {
    ReadingsOfSpelling(k);
    EditSubmitMatched(s, NatToString(k), k, title, body);
  }

  /** A store that keeps the ids, rewrites row k and keeps every other row is the update of row k. */
  lemma RewrittenRow(st: Store, st': Store, k: int, p: Post)
    requires k in st && st'.Keys == st.Keys && st'[k] == p
    requires forall j :: j in st && j != k ==> st'[j] == st[j]
    ensures st' == st[k := p]
  {
  }

  /** An id text both readings take for the same stored row rewrites that row and returns to its page. */
  lemma EditSubmitMatched(s: State, idText: string, k: int, title: string, body: string)
    requires s.loggedIn && k in s.store
    requires SqliteInteger(idText) == Some(k) && PythonInt(idText) == Some(k)
    ensures var r := EditSubmit(s, EditForm(idText, title, body));
      && r.response == Redirect(ToShowPost(k))
      && r.state.store == s.store[k := Post(title, body, s.store[k].dateCreated)]
      && r.state.flashes == s.flashes + [EditDoneMessage]
  {
    var form := EditForm(idText, title, body);
    assert "title" in form && "body" in form && "id" in form;
    assert form["id"] == idText && form["title"] == title && form["body"] == body;
    var r := EditSubmit(s, form);
    RewrittenRow(s.store, r.state.store, k, Post(title, body, s.store[k].dateCreated));
  }

  /**
   An id spelled with a trailing `.0` is matched by the UPDATE, which is
   committed, and then rejected by `int()`: the request fails with the row
   already rewritten and the session as it was.
   */
  lemma EditSubmitCommitsThenFails(s: State, k: nat, title: string, body: string)
    requires s.loggedIn && k in s.store
    ensures var r := EditSubmit(s, EditForm(NatToString(k) + ".0", title, body));
      && r.response == Fail
      && r.state.store == s.store[k := Post(title, body, s.store[k].dateCreated)]
      && r.state.loggedIn && r.state.flashes == s.flashes
  {
    var t := NatToString(k);
    DigitsValueOfNatToString(k);
    ReadingsOfPointZero(t);
    EditSubmitMatchedButRejected(s, t + ".0", k, title, body);
  }

  /** An id text SQLite matches to a stored row but `int()` rejects rewrites that row and fails. */
  lemma EditSubmitMatchedButRejected(s: State, idText: string, k: int, title: string, body: string)
    requires s.loggedIn && k in s.store
    requires SqliteInteger(idText) == Some(k) && PythonInt(idText) == None
    ensures var r := EditSubmit(s, EditForm(idText, title, body));
      && r.response == Fail
      && r.state.store == s.store[k := Post(title, body, s.store[k].dateCreated)]
      && r.state.loggedIn && r.state.flashes == s.flashes
  {
    var form := EditForm(idText, title, body);
    assert "title" in form && "body" in form && "id" in form;
    assert form["id"] == idText && form["title"] == title && form["body"] == body;
    var r := EditSubmit(s, form);
    RewrittenRow(s.store, r.state.store, k, Post(title, body, s.store[k].dateCreated));
  }

  /** An id text SQLite matches to no row but `int()` reads keeps every row and still reports the edit done. */
  lemma EditSubmitUnmatchedButRead(s: State, idText: string, id: int, title: string, body: string)
    requires s.loggedIn
    requires SqliteInteger(idText) == None && PythonInt(idText) == Some(id)
    ensures var r := EditSubmit(s, EditForm(idText, title, body));
      && r.response == Redirect(ToShowPost(id))
      && r.state.store == s.store
      && r.state.flashes == s.flashes + [EditDoneMessage]
  {
    var form := EditForm(idText, title, body);
    assert "title" in form && "body" in form && "id" in form;
    assert form["id"] == idText;
    var r := EditSubmit(s, form);
    assert r.state.store.Keys == s.store.Keys;
    assert forall k :: k in s.store ==> r.state.store[k] == s.store[k];
  }

  /**
   A blank between the minus sign and a stored row's id: the UPDATE matches
   no row, yet the edit is reported done and the visitor is sent to the page
   of the negated id.
   */
  lemma EditSubmitBlankAfterSign(s: State, k: nat, title: string, body: string)
    requires s.loggedIn
    ensures var r := EditSubmit(s, EditForm("- " + NatToString(k), title, body));
      && r.response == Redirect(ToShowPost(-(k as int)))
      && r.state.store == s.store
      && r.state.flashes == s.flashes + [EditDoneMessage]
  {
    DigitsValueOfNatToString(k);
    ReadingsOfBlankAfterSign(NatToString(k));
    EditSubmitUnmatchedButRead(s, "- " + NatToString(k), -(k as int), title, body);
  }

  // ----- Whole requests -----

  /** A request that succeeds in logging in: a POST to `/login` with both credentials right. */
  predicate IsGoodLogin(cfg: Config, req: Request) {
    && req.LoginRoute? && req.verb == POST
    && "username" in req.form && "password" in req.form
    && req.form["username"] == cfg.username && req.form["password"] == cfg.password
  }

  /** Only a good login sets the flag, and only a logout clears it. */
  lemma SessionFlagChanges(cfg: Config, s: State, req: Request, now: int)
    ensures var s' := Handle(cfg, s, req, now).state;
      && (s'.loggedIn && !s.loggedIn ==> IsGoodLogin(cfg, req))
      && (!s'.loggedIn && s.loggedIn ==> req.LogoutRoute?)
  {
  }

  /** Only `/add` and `/edit_submit` write the store, and only for a logged-in visitor. */
  lemma OnlyAddAndEditWrite(cfg: Config, s: State, req: Request, now: int)
    ensures var s' := Handle(cfg, s, req, now).state;
      s'.store != s.store ==> s.loggedIn && (req.AddRoute? || req.EditSubmitRoute?)
  {
  }

  /**
   A request that fails leaves the session as it was, and only an edit
   submit, whose UPDATE is committed before `int()` raises, can have
   written the store.
   */
  lemma FailKeepsSession(cfg: Config, s: State, req: Request, now: int)
    ensures var r := Handle(cfg, s, req, now);
      r.response.Fail? ==>
        && r.state.loggedIn == s.loggedIn
        && r.state.flashes == s.flashes
        && (req.EditSubmitRoute? || r.state.store == s.store)
  {
  }

  /**
   Every row survives every request with its id and creation date; the
   flash queue only ever grows by at most one message at its end.
   */
  predicate Evolves(s: State, s': State) {
    && (forall k :: k in s.store ==> k in s'.store && s'.store[k].dateCreated == s.store[k].dateCreated)
    && |s.flashes| <= |s'.flashes| && s'.flashes[..|s.flashes|] == s.flashes
  }

  lemma HandleEvolves(cfg: Config, s: State, req: Request, now: int)
    ensures var s' := Handle(cfg, s, req, now).state;
      Evolves(s, s') && |s'.flashes| <= |s.flashes| + 1
  {
    forall m: string
      ensures (s.flashes + [m])[..|s.flashes|] == s.flashes
    {
    }
    match req
    case IndexRoute =>
    case ShowRoute(_) =>
    case EditRoute(_) =>
    case EditSubmitRoute(_) =>
    case DeleteRoute =>
    case CreateRoute =>
    case AddRoute(_) =>
    case LoginRoute(_, _) =>
    case LogoutRoute =>
  }

  // ----- Sequences of requests -----

  /** A request and the server time at which it arrives. */
  datatype Arrival = Arrival(req: Request, now: int)

  /** The state after serving the arrivals in order. */
  function Run(cfg: Config, s: State, trace: seq<Arrival>): State
    decreases |trace|
  {
    if trace == [] then s
    else Run(cfg, Handle(cfg, s, trace[0].req, trace[0].now).state, trace[1..])
  }

  /** Without a good login, a visitor who starts logged out never changes the store. */
  lemma {:induction false} NoLoginNoWrites(cfg: Config, s: State, trace: seq<Arrival>)
    requires !s.loggedIn
    requires forall i :: 0 <= i < |trace| ==> !IsGoodLogin(cfg, trace[i].req)
    ensures Run(cfg, s, trace).store == s.store
    ensures !Run(cfg, s, trace).loggedIn
    decreases |trace|
  {
    if trace != [] {
      var s1 := Handle(cfg, s, trace[0].req, trace[0].now).state;
      SessionFlagChanges(cfg, s, trace[0].req, trace[0].now);
      OnlyAddAndEditWrite(cfg, s, trace[0].req, trace[0].now);
      assert forall i :: 0 <= i < |trace[1..]| ==> trace[1..][i] == trace[i + 1];
      NoLoginNoWrites(cfg, s1, trace[1..]);
    }
  }

  /** Over any sequence of requests, rows are never removed and never change their creation date. */
  lemma {:induction false} RunEvolves(cfg: Config, s: State, trace: seq<Arrival>)
    ensures Evolves(s, Run(cfg, s, trace))
    decreases |trace|
  {
    if trace != [] {
      var s1 := Handle(cfg, s, trace[0].req, trace[0].now).state;
      HandleEvolves(cfg, s, trace[0].req, trace[0].now);
      RunEvolves(cfg, s1, trace[1..]);
      var s2 := Run(cfg, s1, trace[1..]);
      assert s2.flashes[..|s1.flashes|][..|s.flashes|] == s2.flashes[..|s.flashes|];
    }
  }
}
