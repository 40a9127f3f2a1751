/** The application state and one method per request handler that changes
    the state or queries the tables for the logged-in user.
    The logged-in user is passed in as `me`: a request is authenticated when
    some user row has that id (an anonymous session, or one naming a user
    that does not exist, has none). Password hashing and file-name
    sanitising are functions the application is created with. */
module Application {
  import opened Tables
  import opened Records
  import opened Queries

  class ScholarConnect {
    var users: seq<User>
    var papers: seq<Paper>
    var messages: seq<ChatMessage>
    /** The process-wide notification log, shared by every user. */
    var notifications: seq<string>
    /** The next key each table's sequence hands out. */
    var nextUserId: int
    var nextPaperId: int
    var nextMessageId: int
    /** Password hashing; checking a password is comparing its hash. */
    const hash: string -> string
    /** The file-name sanitiser applied to uploads. */
    const sanitize: string -> string

    predicate Valid()
      reads this
    {
      Consistent(users, papers, messages, nextUserId, nextPaperId, nextMessageId)
    }

    /** Whether `me` identifies a logged-in user: the user loader finds a
        row with that id. */
    predicate LoggedIn(me: int): (r: bool)
      reads this
      ensures r <==> UserById(users, me).Some?
    {
      IsUser(users, me)
    }

    constructor (hash: string -> string, sanitize: string -> string)
      ensures Valid()
      ensures users == [] && papers == [] && messages == [] && notifications == []
      ensures nextUserId == 1 && nextPaperId == 1 && nextMessageId == 1
      ensures this.hash == hash && this.sanitize == sanitize
    {
      users, papers, messages, notifications := [], [], [], [];
      nextUserId, nextPaperId, nextMessageId := 1, 1, 1;
      this.hash, this.sanitize := hash, sanitize;
    }

    /** Inserts a user under the next key, with a username and email no
        user has, and commits. */
    method InsertUser(u: User)
      requires Valid()
      requires u.id == nextUserId && !Taken(users, u.username, u.email)
      modifies this
      ensures Valid()
      ensures users == old(users) + [u] && nextUserId == old(nextUserId) + 1
      ensures papers == old(papers) && messages == old(messages) && notifications == old(notifications)
      ensures nextPaperId == old(nextPaperId) && nextMessageId == old(nextMessageId)
    {
      AddUserConsistent(users, papers, messages, nextUserId, nextPaperId, nextMessageId, u);
      users := users + [u];
      nextUserId := nextUserId + 1;
    }

    /** Deletes the paper row at position `i` and commits: exactly the
        paper with that row's key goes. */
    method RemovePaper(i: nat)
      requires Valid() && i < |papers|
      modifies this
      ensures Valid()
      ensures papers == old(papers)[..i] + old(papers)[i + 1..]
      ensures forall p :: p in papers <==> p in old(papers) && p.id != old(papers)[i].id
      ensures users == old(users) && messages == old(messages) && notifications == old(notifications)
      ensures nextUserId == old(nextUserId) && nextPaperId == old(nextPaperId) && nextMessageId == old(nextMessageId)
    {
      RemovePaperKeepsOthers(papers, i);
      RemovePaperConsistent(users, papers, messages, nextUserId, nextPaperId, nextMessageId, i);
      papers := papers[..i] + papers[i + 1..];
    }

    /** POST /register. A password that differs from its confirmation is
        refused. An empty password makes the bcrypt hash raise, a server
        error before anything is written. Otherwise the user is stored with
        the hash of the password and the registration is logged; a username
        or email already in use makes the commit fail. */
    method Register(firstName: string, lastName: string, username: string, email: string,
                    password: string, confirmPassword: string) returns (o: Outcome)
      requires Valid()
      modifies this
      ensures Valid()
      ensures password != confirmPassword ==>
        o == Redirect(RegisterPage, PasswordsDoNotMatch) && unchanged(this)
      ensures password == confirmPassword && password == "" ==>
        o == ServerError && unchanged(this)
      ensures password == confirmPassword && password != "" && Taken(old(users), username, email) ==>
        o == CommitFailed && unchanged(this)
      ensures password == confirmPassword && password != "" && !Taken(old(users), username, email) ==>
        && o == Redirect(LoginPage, NoFlash)
        && users == old(users) + [User(old(nextUserId), firstName, lastName, username, email, hash(password))]
        && notifications == old(notifications) + [RegisteredNote(username)]
        && papers == old(papers) && messages == old(messages)
        && nextUserId == old(nextUserId) + 1
        && nextPaperId == old(nextPaperId) && nextMessageId == old(nextMessageId)
        && Login(users, hash, username, password) == Authenticated(old(nextUserId))
    {
      if password != confirmPassword {
        return Redirect(RegisterPage, PasswordsDoNotMatch);
      }
      if password == "" {
        // generate_password_hash refuses an empty password
        return ServerError;
      }
      if Taken(users, username, email) {
        // the unique constraints on username and email reject the insert
        return CommitFailed;
      }
      var u := User(nextUserId, firstName, lastName, username, email, hash(password));
      LoginAfterRegister(users, hash, u, password);
      InsertUser(u);
      notifications := notifications + [RegisteredNote(username)];
      o := Redirect(LoginPage, NoFlash);
    }

    /** POST /edit_profile. Refused when the first user matching the new
        username or email is somebody else; a clash with any other user that
        this guard misses makes the commit fail. Otherwise the names,
        username and email are overwritten, and the password hash is
        replaced only when a new password was given. */
    method EditProfile(me: int, firstName: string, lastName: string, username: string,
                       email: string, password: string) returns (o: Outcome)
      requires Valid()
      modifies this
      ensures Valid()
      ensures !old(LoggedIn(me)) ==> o == Unauthorized && unchanged(this)
      ensures old(LoggedIn(me)) && EditRefused(old(users), me, username, email) ==>
        o == Redirect(EditProfilePage, UsernameOrEmailTaken) && unchanged(this)
      ensures old(LoggedIn(me)) && !EditRefused(old(users), me, username, email)
              && TakenByOther(old(users), me, username, email) ==>
        o == CommitFailed && unchanged(this)
      ensures old(LoggedIn(me)) && !TakenByOther(old(users), me, username, email) ==>
        var i := UserIndex(old(users), me).value;
        && o == Redirect(ProfilePage, ProfileUpdated)
        && users == old(users)[i := User(me, firstName, lastName, username, email,
                                         if password != "" then hash(password) else old(users)[i].password)]
        && papers == old(papers) && messages == old(messages) && notifications == old(notifications)
        && nextUserId == old(nextUserId) && nextPaperId == old(nextPaperId) && nextMessageId == old(nextMessageId)
        && (password != "" ==> Login(users, hash, username, password) == Authenticated(me))
    {
      if !IsUser(users, me) {
        return Unauthorized;
      }
      if EditRefused(users, me, username, email) {
        return Redirect(EditProfilePage, UsernameOrEmailTaken);
      }
      if TakenByOther(users, me, username, email) {
        // the unique constraints on username and email reject the update
        return CommitFailed;
      }
      var i := UserIndex(users, me).value;
      var secret := if password != "" then hash(password) else users[i].password;
      var u := User(me, firstName, lastName, username, email, secret);
      ReplaceUserConsistent(users, papers, messages, nextUserId, nextPaperId, nextMessageId, i, u);
      users := users[i := u];
      if password != "" {
        assert users[i].id == me && users[i].username == username && users[i].password == hash(password);
        LoginIff(users, hash, username, password, me);
      }
      o := Redirect(ProfilePage, ProfileUpdated);
    }

    /** POST /upload. Every field and the file must be present and the
        category must be one of the ten; then the paper is stored under the
        current user, with the path the sanitised file name is saved at. No
        notification is logged. */
    method Upload(me: int, title: string, description: string, category: string,
                  fileName: string) returns (o: Outcome)
      requires Valid()
      modifies this
      ensures Valid()
      ensures !old(LoggedIn(me)) ==> o == Unauthorized && unchanged(this)
      ensures old(LoggedIn(me)) && (title == "" || description == "" || category == "" || fileName == "") ==>
        o == Redirect(UploadPage, MissingFields) && unchanged(this)
      ensures old(LoggedIn(me)) && title != "" && description != "" && category != "" && fileName != ""
              && category !in Categories ==>
        o == Redirect(UploadPage, InvalidCategory) && unchanged(this)
      ensures old(LoggedIn(me)) && title != "" && description != "" && fileName != "" && category in Categories ==>
        && o == Redirect(DashboardPage, PaperUploaded(title))
        && papers == old(papers) + [Paper(old(nextPaperId), title, description, category,
                                          UploadPath(sanitize(fileName)), me)]
        && nextPaperId == old(nextPaperId) + 1
        && users == old(users) && messages == old(messages) && notifications == old(notifications)
        && nextUserId == old(nextUserId) && nextMessageId == old(nextMessageId)
    {
      if !IsUser(users, me) {
        return Unauthorized;
      }
      if title == "" || description == "" || category == "" || fileName == "" {
        return Redirect(UploadPage, MissingFields);
      }
      if category !in Categories {
        return Redirect(UploadPage, InvalidCategory);
      }
      var p := Paper(nextPaperId, title, description, category, UploadPath(sanitize(fileName)), me);
      AddPaperConsistent(users, papers, messages, nextUserId, nextPaperId, nextMessageId, p);
      papers := papers + [p];
      nextPaperId := nextPaperId + 1;
      o := Redirect(DashboardPage, PaperUploaded(title));
    }

    /** POST /delete_paper/<id>. Any logged-in user may delete any paper.
        An unknown id changes nothing; otherwise exactly that paper is
        removed and the deletion is logged with its title. */
    method DeletePaper(me: int, paperId: int) returns (o: Outcome)
      requires Valid()
      modifies this
      ensures Valid()
      ensures !old(LoggedIn(me)) ==> o == Unauthorized && unchanged(this)
      ensures old(LoggedIn(me)) && old(PaperIndex(papers, paperId)).None? ==>
        o == Redirect(DashboardPage, PaperNotFound) && unchanged(this)
      ensures old(LoggedIn(me)) && old(PaperIndex(papers, paperId)).Some? ==>
        var i := old(PaperIndex(papers, paperId)).value;
        && o == Redirect(DashboardPage, PaperDeleted)
        && papers == old(papers)[..i] + old(papers)[i + 1..]
        && (forall p :: p in papers <==> p in old(papers) && p.id != paperId)
        && notifications == old(notifications) + [DeletedNote(old(papers)[i].title)]
        && users == old(users) && messages == old(messages)
        && nextUserId == old(nextUserId) && nextPaperId == old(nextPaperId) && nextMessageId == old(nextMessageId)
    {
      if !IsUser(users, me) {
        return Unauthorized;
      }
      match PaperIndex(papers, paperId)
      case None =>
        o := Redirect(DashboardPage, PaperNotFound);
      case Some(i) =>
        var title := papers[i].title;
        RemovePaper(i);
        notifications := notifications + [DeletedNote(title)];
        o := Redirect(DashboardPage, PaperDeleted);
    }

    /** POST /collaborate/<id>. Looks up the paper (404 if none) and its
        owner; when the owner exists, logs a collaboration request naming
        the owner and the paper and sends the requester to the chat with the
        owner. Only the log changes. */
    method Collaborate(me: int, paperId: int) returns (o: Outcome)
      modifies this
      ensures users == old(users) && papers == old(papers) && messages == old(messages)
      ensures nextUserId == old(nextUserId) && nextPaperId == old(nextPaperId) && nextMessageId == old(nextMessageId)
      ensures !old(LoggedIn(me)) ==> o == Unauthorized && unchanged(this)
      ensures old(LoggedIn(me)) && PaperIndex(papers, paperId).None? ==> o == NotFound && unchanged(this)
      ensures old(LoggedIn(me)) && PaperIndex(papers, paperId).Some? ==>
        var p := papers[PaperIndex(papers, paperId).value];
        match UserById(users, p.userId)
        case None => o == Redirect(ExplorePage, ChatOpenFailed) && unchanged(this)
        case Some(owner) =>
          && o == Redirect(ChatPage(owner.id), NoFlash)
          && owner.id == p.userId
          && notifications == old(notifications) + [CollaborationNote(owner.username, p.title)]
      ensures old(Valid()) && old(LoggedIn(me)) && PaperIndex(papers, paperId).Some? ==>
        o == Redirect(ChatPage(papers[PaperIndex(papers, paperId).value].userId), NoFlash)
      ensures old(Valid()) ==> Valid()
    {
      if !IsUser(users, me) {
        return Unauthorized;
      }
      match PaperIndex(papers, paperId)
      case None =>
        o := NotFound;
      case Some(i) =>
        var p := papers[i];
        match UserById(users, p.userId)
        case None =>
          o := Redirect(ExplorePage, ChatOpenFailed);
        case Some(owner) =>
          notifications := notifications + [CollaborationNote(owner.username, p.title)];
          o := Redirect(ChatPage(owner.id), NoFlash);
    }

    /** GET /dashboard: the papers the current user owns. */
    method Dashboard(me: int) returns (o: Outcome)
      requires Valid()
      ensures LoggedIn(me) ==> o == ShowPapers(Queries.Dashboard(papers, me))
      ensures !LoggedIn(me) ==> o == Unauthorized
      ensures o.ShowPapers? ==> forall p :: p in o.papers <==> p in papers && p.userId == me
    {
      if !IsUser(users, me) {
        return Unauthorized;
      }
      o := ShowPapers(Queries.Dashboard(papers, me));
    }

    /** GET /chats: the current user's chat partners. */
    method Chats(me: int) returns (o: Outcome)
      requires Valid()
      ensures LoggedIn(me) ==> o == ShowPartners(Partners(users, messages, me))
      ensures !LoggedIn(me) ==> o == Unauthorized
      ensures o.ShowPartners? ==> Distinct(o.partners) && forall u :: u in o.partners ==> u.id != me
    {
      if !IsUser(users, me) {
        return Unauthorized;
      }
      var partners := Partners(users, messages, me);
      PartnersDistinct(users, messages, me);
      forall u | u in partners
        ensures u.id != me
      {
        PartnersIff(users, messages, me, u);
      }
      o := ShowPartners(partners);
    }

    /** Inserts a chat message under the next key and commits. */
    method StoreMessage(m: ChatMessage)
      requires Valid()
      requires m.id == nextMessageId && IsUser(users, m.senderId) && IsUser(users, m.recipientId)
      modifies this
      ensures Valid()
      ensures messages == old(messages) + [m] && nextMessageId == old(nextMessageId) + 1
      ensures users == old(users) && papers == old(papers) && notifications == old(notifications)
      ensures nextUserId == old(nextUserId) && nextPaperId == old(nextPaperId)
      ensures Thread(messages, m.senderId, m.recipientId) == old(Thread(messages, m.senderId, m.recipientId)) + [m]
      ensures Thread(messages, m.recipientId, m.senderId) == Thread(messages, m.senderId, m.recipientId)
      ensures m.recipientId != m.senderId ==>
        UserById(users, m.recipientId).Some? && UserById(users, m.recipientId).value in Partners(users, messages, m.senderId)
    {
      AddMessageConsistent(users, papers, messages, nextUserId, nextPaperId, nextMessageId, m);
      PostEffects(users, messages, m);
      messages := messages + [m];
      nextMessageId := nextMessageId + 1;
    }

    /** GET and POST /chat/<recipient>. A POST with a non-empty message
        stores it, from the current user to the recipient, and redirects back
        to the thread; a recipient that is not a user makes the commit fail.
        A GET (`message` is None) or a POST with an empty message shows the
        thread between the two users. */
    method ChatInbox(me: int, recipientId: int, message: Option<string>) returns (o: Outcome)
      requires Valid()
      modifies this
      ensures Valid()
      ensures !old(LoggedIn(me)) ==> o == Unauthorized && unchanged(this)
      ensures old(LoggedIn(me)) && (message == None || message == Some("")) ==>
        && o == ShowThread(Thread(messages, me, recipientId), UserById(users, recipientId))
        && unchanged(this)
      ensures old(LoggedIn(me)) && message.Some? && message.value != "" && !old(LoggedIn(recipientId)) ==>
        o == CommitFailed && unchanged(this)
      ensures old(LoggedIn(me)) && message.Some? && message.value != "" && old(LoggedIn(recipientId)) ==>
        var m := ChatMessage(old(nextMessageId), me, recipientId, message.value);
        && o == Redirect(ChatPage(recipientId), NoFlash)
        && messages == old(messages) + [m]
        && nextMessageId == old(nextMessageId) + 1
        && users == old(users) && papers == old(papers) && notifications == old(notifications)
        && nextUserId == old(nextUserId) && nextPaperId == old(nextPaperId)
        && Thread(messages, me, recipientId) == old(Thread(messages, me, recipientId)) + [m]
        && Thread(messages, recipientId, me) == Thread(messages, me, recipientId)
        && (recipientId != me ==> UserById(users, recipientId).value in Partners(users, messages, me))
    {
      if !IsUser(users, me) {
        return Unauthorized;
      }
      if message.Some? && message.value != "" {
        if !IsUser(users, recipientId) {
          // the foreign key on recipient_id rejects the insert
          return CommitFailed;
        }
        var m := ChatMessage(nextMessageId, me, recipientId, message.value);
        StoreMessage(m);
        return Redirect(ChatPage(recipientId), NoFlash);
      }
      o := ShowThread(Thread(messages, me, recipientId), UserById(users, recipientId));
    }

    /** POST /modify_submission/<id>. Looks up the paper (404 if none); only
        its owner may change it, and only to one of the ten categories. An
        empty title or description keeps the old one; the category is always
        replaced; the file and the owner never change. */
    method ModifySubmission(me: int, paperId: int, title: string, description: string,
                            category: string) returns (o: Outcome)
      requires Valid()
      modifies this
      ensures Valid()
      ensures !old(LoggedIn(me)) ==> o == Unauthorized && unchanged(this)
      ensures old(LoggedIn(me)) && old(PaperIndex(papers, paperId)).None? ==> o == NotFound && unchanged(this)
      ensures old(LoggedIn(me)) && old(PaperIndex(papers, paperId)).Some? ==>
        var i := old(PaperIndex(papers, paperId)).value;
        var p := old(papers)[i];
        && (p.userId != me ==> o == Redirect(DashboardPage, NotAuthorizedToEdit) && unchanged(this))
        && (p.userId == me && category !in Categories ==>
              o == Redirect(ModifySubmissionPage(paperId), InvalidCategory) && unchanged(this))
        && (p.userId == me && category in Categories ==>
              && o == Redirect(DashboardPage, SubmissionUpdated)
              && papers == old(papers)[i := Paper(p.id, if title != "" then title else p.title,
                                                  if description != "" then description else p.description,
                                                  category, p.filePath, p.userId)]
              && users == old(users) && messages == old(messages) && notifications == old(notifications)
              && nextUserId == old(nextUserId) && nextPaperId == old(nextPaperId)
              && nextMessageId == old(nextMessageId))
    {
      if !IsUser(users, me) {
        return Unauthorized;
      }
      match PaperIndex(papers, paperId)
      case None =>
        o := NotFound;
      case Some(i) =>
        var p := papers[i];
        if p.userId != me {
          return Redirect(DashboardPage, NotAuthorizedToEdit);
        }
        if category !in Categories {
          return Redirect(ModifySubmissionPage(paperId), InvalidCategory);
        }
        var newTitle := if title != "" then title else p.title;
        var newDescription := if description != "" then description else p.description;
        var q := Paper(p.id, newTitle, newDescription, category, p.filePath, p.userId);
        ReplacePaperConsistent(users, papers, messages, nextUserId, nextPaperId, nextMessageId, i, q);
        papers := papers[i := q];
        o := Redirect(DashboardPage, SubmissionUpdated);
    }
  }

  /** A session: alice registers, logs in and uploads a paper, which then
      appears on their dashboard and under its own category, but not under
      another one. */
  method ExampleSession(hash: string -> string, sanitize: string -> string)
  {
    var ml, ai := Categories[1], Categories[0];
    assert ml != ai by { assert ml[0] == 'M' && ai[0] == 'A'; }
    var app := new ScholarConnect(hash, sanitize);
    assert !Taken([], "alice", "alice@x.com");
    var o := app.Register("Alice", "Liddell", "alice", "alice@x.com", "pw", "pw");
    assert o == Redirect(LoginPage, NoFlash);
    var alice := User(1, "Alice", "Liddell", "alice", "alice@x.com", hash("pw"));
    assert app.users == [alice];
    assert Login([alice], hash, "alice", "pw") == Authenticated(1);
    assert app.LoggedIn(1) by { assert app.users[0].id == 1; }
    assert ml in Categories;
    o := app.Upload(1, "Paper1", "d", ml, "f.pdf");
    assert o == Redirect(DashboardPage, PaperUploaded("Paper1"));
    var p := Paper(1, "Paper1", "d", ml, UploadPath(sanitize("f.pdf")), 1);
    assert app.papers == [p];
    o := app.Dashboard(1);
    assert o == ShowPapers([p]) by { assert Dashboard([p], 1) == [p]; }
    ExploreOnePaper(p, ml);
    ExploreOnePaper(p, ai);
    assert Explore(app.papers, "", ml) == [p];
    assert Explore(app.papers, "", ai) == [];
  }
}
