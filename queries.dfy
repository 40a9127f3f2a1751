/** The read-only parts of the handlers: the login check, the profile-edit
    uniqueness guard, the explore filter, the chat thread between two users
    and the list of chat partners. Each is a query over the tables in
    storage order. */
module Queries {
  import opened Tables
  import opened Text
  import opened Records

  /* ---------------------------------------------------------------- login */

  datatype LoginResult = Authenticated(userId: int) | InvalidCredentials

  /** The login check: the first user with exactly this username, whose
      stored hash is the hash of the given password. An unknown username and
      a wrong password give the same answer. */
  function Login(users: seq<User>, hash: string -> string, username: string, password: string): (r: LoginResult)
    ensures r.Authenticated? ==>
      exists i :: 0 <= i < |users| && users[i].id == r.userId
                  && users[i].username == username && users[i].password == hash(password)
    ensures (forall i :: 0 <= i < |users| ==> users[i].username != username) ==> r == InvalidCredentials
    ensures (forall i :: 0 <= i < |users| && users[i].username == username ==> users[i].password != hash(password))
            ==> r == InvalidCredentials
  {
    match FirstIndex((u: User) => u.username == username, users)
    case None => InvalidCredentials
    case Some(i) => if users[i].password == hash(password) then Authenticated(users[i].id) else InvalidCredentials
  }

  /** With unique usernames, login succeeds as user `id` exactly when that
      user has the given username and the hash of the given password. */
  lemma LoginIff(users: seq<User>, hash: string -> string, username: string, password: string, id: int)
    requires UsersUnique(users)
    ensures Login(users, hash, username, password) == Authenticated(id) <==>
      exists i :: 0 <= i < |users| && users[i].id == id
                  && users[i].username == username && users[i].password == hash(password)
  {
    if i :| 0 <= i < |users| && users[i].id == id && users[i].username == username && users[i].password == hash(password) {
      var f := FirstIndex((u: User) => u.username == username, users);
      assert f.Some?;
      assert f.value == i by {
        if f.value < i {
        } else if f.value > i {
        }
      }
    }
  }

  /** A user who registered with a username nobody else has can log in with
      the password they registered. */
  lemma LoginAfterRegister(users: seq<User>, hash: string -> string, u: User, password: string)
    requires forall i :: 0 <= i < |users| ==> users[i].username != u.username
    requires u.password == hash(password)
    ensures Login(users + [u], hash, u.username, password) == Authenticated(u.id)
  {
    var s := users + [u];
    var f := FirstIndex((v: User) => v.username == u.username, s);
    assert s[|users|] == u;
    assert f == Some(|users|);
  }

  /* ------------------------------------------------- profile-edit guard */

  /** The first user, in storage order, whose username or email equals the
      submitted one (`filter(username == u | email == e).first()`). */
  function FirstMatch(users: seq<User>, username: string, email: string): (r: Option<nat>)
    ensures r.Some? ==> r.value < |users|
                        && (users[r.value].username == username || users[r.value].email == email)
    ensures r.Some? ==> forall j :: 0 <= j < r.value ==> users[j].username != username && users[j].email != email
    ensures r.None? <==> forall j :: 0 <= j < |users| ==> users[j].username != username && users[j].email != email
  {
    FirstIndex((u: User) => u.username == username || u.email == email, users)
  }

  /** The profile edit is refused when the first matching user is somebody
      other than the current user. */
  predicate EditRefused(users: seq<User>, me: int, username: string, email: string): (r: bool)
    ensures r <==> exists i :: 0 <= i < |users| && users[i].id != me
                     && (users[i].username == username || users[i].email == email)
                     && forall j :: 0 <= j < i ==> users[j].username != username && users[j].email != email
  {
    match FirstMatch(users, username, email)
    case None => false
    case Some(i) => users[i].id != me
  }

  /** The guard only refuses genuine clashes. */
  lemma EditRefusedIsClash(users: seq<User>, me: int, username: string, email: string)
    requires EditRefused(users, me, username, email)
    ensures TakenByOther(users, me, username, email)
  {
    var i := FirstMatch(users, username, email).value;
    assert users[i].id != me;
  }

  /** The guard does not catch every clash: it looks at the first match
      only. Here the current user (id 1) keeps their username and takes the
      email of user 2; the first match is the current user, so the guard lets
      the edit through and only the unique constraint on `email` stops it. */
  lemma EditGuardMissesClash()
    ensures var users := [User(1, "A", "A", "alice", "a@x.com", "h1"), User(2, "B", "B", "bob", "b@x.com", "h2")];
            !EditRefused(users, 1, "alice", "b@x.com") && TakenByOther(users, 1, "alice", "b@x.com")
  {
    var users := [User(1, "A", "A", "alice", "a@x.com", "h1"), User(2, "B", "B", "bob", "b@x.com", "h2")];
    assert FirstMatch(users, "alice", "b@x.com") == Some(0);
    assert users[1].id != 1 && users[1].email == "b@x.com";
  }

  /* -------------------------------------------------------------- explore */

  /** Whether a paper passes the explore filters, given the stripped search
      text `q`: an empty filter is skipped, the two filters are AND-ed. */
  predicate Selected(p: Paper, q: string, category: string) {
    (q == [] || ILike(p.title, "%" + q + "%")) && (category == [] || p.category == category)
  }

  /** The explore query: papers whose title matches `ILIKE '%search%'` (with
      `search` stripped first) and whose category equals `category`. */
  function Explore(papers: seq<Paper>, search: string, category: string): (r: seq<Paper>)
    ensures |r| <= |papers|
    ensures forall p :: p in r ==> p in papers
    ensures category != [] ==> forall p :: p in r ==> p.category == category
  {
    Filter((p: Paper) => Selected(p, Strip(search), category), papers)
  }

  /** With no search text (after stripping) and no category, explore lists
      every paper, in storage order. */
  lemma ExploreEverything(papers: seq<Paper>, search: string, category: string)
    requires Strip(search) == [] && category == []
    ensures Explore(papers, search, category) == papers
  {
    FilterAll((p: Paper) => Selected(p, Strip(search), category), papers);
  }

  /** For a search text without `LIKE` wildcards, explore lists exactly the
      papers whose lower-cased title contains the lower-cased stripped search
      text and, when a category is selected, whose category is that one. */
  lemma ExploreMembers(papers: seq<Paper>, search: string, category: string, p: Paper)
    requires NoWildcards(Strip(search))
    ensures p in Explore(papers, search, category) <==>
      p in papers && Contains(Lower(p.title), Lower(Strip(search)))
      && (category == [] || p.category == category)
  {
    var q := Strip(search);
    ILikeContains(p.title, q);
    if q == [] {
      assert Lower(q) <= Lower(p.title)[0..];
    }
  }

  /** The two filters compose by AND: filtering by search and category is
      filtering by search, then by category. */
  lemma {:induction false} ExploreIntersection(papers: seq<Paper>, search: string, category: string)
    ensures Explore(papers, search, category) == Explore(Explore(papers, search, []), [], category)
    decreases |papers|
  {
    assert Strip([]) == [];
    if papers != [] {
      ExploreIntersection(papers[1..], search, category);
      var head := if Selected(papers[0], Strip(search), []) then [papers[0]] else [];
      var inner := Explore(papers, search, []);
      assert inner == head + Explore(papers[1..], search, []);
      FilterAppend((p: Paper) => Selected(p, Strip([]), category), head, Explore(papers[1..], search, []));
    }
  }

  /** A freshly uploaded paper shows up when exploring its own category and
      not when exploring any other. */
  lemma UploadedPaperExplorable(papers: seq<Paper>, p: Paper, category: string)
    requires category != []
    ensures p in Explore(papers + [p], "", category) <==> p.category == category
  {
    assert Strip("") == [];
    assert p in papers + [p];
  }

  /** Browsing one category with a blank search over a one-paper table
      lists that paper exactly when it is filed under the category. */
  lemma ExploreOnePaper(p: Paper, category: string)
    requires category != []
    ensures Explore([p], "", category) == if p.category == category then [p] else []
  {
    assert Strip("") == [];
    assert [p][1..] == [];
  }

  /** The dashboard: the papers the user owns, in storage order. */
  function Dashboard(papers: seq<Paper>, me: int): (r: seq<Paper>)
    ensures forall p :: p in r <==> p in papers && p.userId == me
  {
    Filter((p: Paper) => p.userId == me, papers)
  }

  /* ----------------------------------------------------------------- chat */

  /** `m` was sent from `a` to `b` or from `b` to `a`. */
  predicate Between(m: ChatMessage, a: int, b: int) {
    (m.senderId == a && m.recipientId == b) || (m.senderId == b && m.recipientId == a)
  }

  /** The chat thread between `a` and `b`, in storage order. */
  function Thread(messages: seq<ChatMessage>, a: int, b: int): (r: seq<ChatMessage>)
    ensures |r| <= |messages|
    ensures forall m :: m in r ==> m in messages && {m.senderId, m.recipientId} == {a, b}
  {
    Filter((m: ChatMessage) => Between(m, a, b), messages)
  }

  /** The thread holds exactly the messages sent in either direction. */
  lemma ThreadMembers(messages: seq<ChatMessage>, a: int, b: int, m: ChatMessage)
    ensures m in Thread(messages, a, b) <==>
      m in messages && ((m.senderId == a && m.recipientId == b) || (m.senderId == b && m.recipientId == a))
  {
  }

  /** The thread seen by `a` is the thread seen by `b`, message for message
      and in the same order. */
  lemma ThreadSymmetric(messages: seq<ChatMessage>, a: int, b: int)
    ensures Thread(messages, a, b) == Thread(messages, b, a)
  {
    FilterAgree((m: ChatMessage) => Between(m, a, b), (m: ChatMessage) => Between(m, b, a), messages);
  }

  /** A newly stored message extends the thread it belongs to, at the end,
      and leaves every other thread as it was. */
  lemma ThreadAfterPost(messages: seq<ChatMessage>, m: ChatMessage, a: int, b: int)
    ensures Thread(messages + [m], a, b) ==
      Thread(messages, a, b) + (if Between(m, a, b) then [m] else [])
  {
    var f := (x: ChatMessage) => Between(x, a, b);
    FilterAppend(f, messages, [m]);
    assert [m][1..] == [];
  }

  /** One row of the partner query's join: user `u` is sender or recipient
      of `m`, `me` is sender or recipient of `m`, and `u` is not `me`. */
  predicate JoinedRow(u: User, m: ChatMessage, me: int) {
    (m.senderId == u.id || m.recipientId == u.id) && (m.senderId == me || m.recipientId == me) && u.id != me
  }

  /** Some message joins with `u` for `me`. */
  predicate IsPartner(messages: seq<ChatMessage>, u: User, me: int) {
    exists k :: 0 <= k < |messages| && JoinedRow(u, messages[k], me)
  }

  /** The distinct users the partner query returns for `me`, in storage
      order of the user table. */
  function Partners(users: seq<User>, messages: seq<ChatMessage>, me: int): (r: seq<User>)
    ensures |r| <= |users|
    ensures forall u :: u in r ==> u in users && u.id != me
  {
    Filter((u: User) => IsPartner(messages, u, me), users)
  }

  /** A user is a chat partner of `me` exactly when they are not `me` and
      some message went between them, in either direction. */
  lemma PartnersIff(users: seq<User>, messages: seq<ChatMessage>, me: int, u: User)
    ensures u in Partners(users, messages, me) <==>
      u in users && u.id != me && exists k :: 0 <= k < |messages| && Between(messages[k], u.id, me)
  {
    if u.id != me && exists k :: 0 <= k < |messages| && Between(messages[k], u.id, me) {
      var k :| 0 <= k < |messages| && Between(messages[k], u.id, me);
      assert JoinedRow(u, messages[k], me);
    }
    if IsPartner(messages, u, me) {
      var k :| 0 <= k < |messages| && JoinedRow(u, messages[k], me);
      assert Between(messages[k], u.id, me);
    }
  }

  /** The partner list never holds the same user twice. */
  lemma PartnersDistinct(users: seq<User>, messages: seq<ChatMessage>, me: int)
    requires UsersUnique(users)
    ensures Distinct(Partners(users, messages, me))
  {
    assert Distinct(users) by {
      forall i, j | 0 <= i < j < |users| ensures users[i] != users[j] {
        assert users[i].id != users[j].id;
      }
    }
    FilterDistinct((u: User) => IsPartner(messages, u, me), users);
  }

  /** After `me` sends a message to another user, that user is one of
      `me`'s chat partners, and `me` is one of theirs. */
  lemma PartnersAfterPost(users: seq<User>, messages: seq<ChatMessage>, m: ChatMessage, u: User)
    requires u in users && m.recipientId == u.id && m.senderId != u.id
    requires exists v :: v in users && v.id == m.senderId
    ensures u in Partners(users, messages + [m], m.senderId)
    ensures forall v :: v in users && v.id == m.senderId ==> v in Partners(users, messages + [m], u.id)
  {
    var s := messages + [m];
    assert s[|messages|] == m;
    assert JoinedRow(u, s[|messages|], m.senderId);
    forall v | v in users && v.id == m.senderId
      ensures v in Partners(users, s, u.id)
    {
      assert JoinedRow(v, s[|messages|], u.id);
    }
  }

  /** What storing message `m` from `me` to `r` does to the chat queries:
      the thread between the two grows by `m` at the end, seen from either
      side, and the recipient becomes one of `me`'s partners. */
  lemma PostEffects(users: seq<User>, messages: seq<ChatMessage>, m: ChatMessage)
    requires IsUser(users, m.senderId) && IsUser(users, m.recipientId)
    ensures Thread(messages + [m], m.senderId, m.recipientId) == Thread(messages, m.senderId, m.recipientId) + [m]
    ensures Thread(messages + [m], m.recipientId, m.senderId) == Thread(messages + [m], m.senderId, m.recipientId)
    ensures m.recipientId != m.senderId ==>
      UserById(users, m.recipientId).Some? && UserById(users, m.recipientId).value in Partners(users, messages + [m], m.senderId)
  {
    ThreadAfterPost(messages, m, m.senderId, m.recipientId);
    ThreadSymmetric(messages + [m], m.recipientId, m.senderId);
    if m.recipientId != m.senderId {
      var i := UserIndex(users, m.recipientId).value;
      PartnersAfterPost(users, messages, m, users[i]);
    }
  }
}
