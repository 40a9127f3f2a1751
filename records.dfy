/** The three tables of the application (users, papers, chat messages), the
    fixed category list, the texts the application appends to its
    notification log, what a request handler answers with, and the
    integrity the database schema maintains over the tables. */
module Records {
  import opened Tables

  /** A row of the `user` table; `password` holds a hash, never the secret. */
  datatype User = User(id: int, firstName: string, lastName: string,
                       username: string, email: string, password: string)

  /** A row of the `paper` table; `userId` is the owner. */
  datatype Paper = Paper(id: int, title: string, description: string,
                         category: string, filePath: string, userId: int)

  /** A row of the `chat_message` table: a message sent from one user to another. */
  datatype ChatMessage = ChatMessage(id: int, senderId: int, recipientId: int, message: string)

  /** The ten categories a paper may be filed under. */
  const Categories: seq<string> := [
    "Artificial Intelligence", "Machine Learning", "Data Science", "Cybersecurity", "Computer Vision",
    "Blockchain", "Internet of Things", "Cloud Computing", "Robotics", "Quantum Computing"
  ]

  /** The directory uploaded files are stored under. */
  const UploadFolder: string := "uploads"

  /** `os.path.join(UploadFolder, name)` for a name that is not absolute
      (a sanitised file name never is). */
  function UploadPath(name: string): string {
    UploadFolder + "/" + name
  }

  function RegisteredNote(username: string): string {
    "User '" + username + "' registered successfully!"
  }

  function DeletedNote(title: string): string {
    "Paper '" + title + "' deleted successfully."
  }

  function CollaborationNote(username: string, title: string): string {
    "Collaboration request sent to " + username + " for paper '" + title + "'."
  }

  /** Pages a handler can redirect to. */
  datatype Page =
    | RegisterPage | LoginPage | DashboardPage | ProfilePage | EditProfilePage
    | UploadPage | ExplorePage | ChatPage(recipientId: int) | ModifySubmissionPage(paperId: int)

  /** The message a handler flashes to the next page, if any. */
  datatype Flash =
    | NoFlash | PasswordsDoNotMatch | UsernameOrEmailTaken | ProfileUpdated
    | MissingFields | InvalidCategory | PaperUploaded(title: string)
    | PaperNotFound | PaperDeleted | ChatOpenFailed | NotAuthorizedToEdit | SubmissionUpdated

  /** What a handler answers: a redirect with a flash message, a rendered
      chat thread, partner list or dashboard, a 404, a 401 for a request without a
      logged-in user, a failed commit (a database constraint the handler
      does not catch: the request ends in a server error and the session
      is rolled back), or a server error raised before anything is
      written. */
  datatype Outcome =
    | Redirect(to: Page, flash: Flash)
    | ShowThread(messages: seq<ChatMessage>, recipient: Option<User>)
    | ShowPartners(partners: seq<User>)
    | ShowPapers(papers: seq<Paper>)
    | NotFound
    | Unauthorized
    | CommitFailed
    | ServerError

  /** Some user row has this id. */
  predicate IsUser(users: seq<User>, id: int) {
    exists i :: 0 <= i < |users| && users[i].id == id
  }

  /** The position of the user row with this id (`User.query.get(id)`). */
  function UserIndex(users: seq<User>, id: int): (r: Option<nat>)
    ensures r.Some? <==> IsUser(users, id)
    ensures r.Some? ==> r.value < |users| && users[r.value].id == id
  {
    FirstIndex((u: User) => u.id == id, users)
  }

  /** The position of the paper row with this id (`Paper.query.get(id)`). */
  function PaperIndex(papers: seq<Paper>, id: int): (r: Option<nat>)
    ensures r.Some? <==> exists i :: 0 <= i < |papers| && papers[i].id == id
    ensures r.Some? ==> r.value < |papers| && papers[r.value].id == id
  {
    FirstIndex((p: Paper) => p.id == id, papers)
  }

  /** The user row with this id, if any. */
  function UserById(users: seq<User>, id: int): Option<User> {
    match UserIndex(users, id)
    case None => None
    case Some(i) => Some(users[i])
  }

  /** Some user already has this username or this email. */
  predicate Taken(users: seq<User>, username: string, email: string) {
    exists i :: 0 <= i < |users| && (users[i].username == username || users[i].email == email)
  }

  /** Some user other than `me` already has the username or the email. */
  predicate TakenByOther(users: seq<User>, me: int, username: string, email: string) {
    exists i :: 0 <= i < |users| && users[i].id != me && (users[i].username == username || users[i].email == email)
  }

  /** The unique constraints on `user.username` and `user.email`, and the
      primary key on `user.id`. */
  predicate UsersUnique(users: seq<User>) {
    forall i, j :: 0 <= i < j < |users| ==>
      users[i].id != users[j].id && users[i].username != users[j].username && users[i].email != users[j].email
  }

  /** What the schema and the handlers keep true of the tables between
      requests: keys in range of their sequences and distinct, usernames and
      emails unique, every foreign key naming a user, and every paper filed
      under one of the ten categories. Under it, each next key is still
      unused, so an insert under it cannot clash with a stored row. */
  predicate Consistent(users: seq<User>, papers: seq<Paper>, messages: seq<ChatMessage>,
                       nextUserId: int, nextPaperId: int, nextMessageId: int): (r: bool)
    ensures r ==> forall i :: 0 <= i < |users| ==> users[i].id != nextUserId
    ensures r ==> forall i :: 0 <= i < |papers| ==> papers[i].id != nextPaperId
    ensures r ==> forall i :: 0 <= i < |messages| ==> messages[i].id != nextMessageId
  {
    && 1 <= nextUserId && 1 <= nextPaperId && 1 <= nextMessageId
    && UsersUnique(users)
    && (forall i :: 0 <= i < |users| ==> 1 <= users[i].id < nextUserId)
    && (forall i, j :: 0 <= i < j < |papers| ==> papers[i].id != papers[j].id)
    && (forall i :: 0 <= i < |papers| ==> 1 <= papers[i].id < nextPaperId)
    && (forall i :: 0 <= i < |papers| ==> papers[i].category in Categories)
    && (forall i :: 0 <= i < |papers| ==> IsUser(users, papers[i].userId))
    && (forall i, j :: 0 <= i < j < |messages| ==> messages[i].id != messages[j].id)
    && (forall i :: 0 <= i < |messages| ==> 1 <= messages[i].id < nextMessageId)
    && (forall i :: 0 <= i < |messages| ==>
          IsUser(users, messages[i].senderId) && IsUser(users, messages[i].recipientId))
  }

  /** Registering a user whose username and email are both new, under the
      next user key, keeps the tables consistent. */
  lemma AddUserConsistent(users: seq<User>, papers: seq<Paper>, messages: seq<ChatMessage>,
                          nextUserId: int, nextPaperId: int, nextMessageId: int, u: User)
    requires Consistent(users, papers, messages, nextUserId, nextPaperId, nextMessageId)
    requires u.id == nextUserId && !Taken(users, u.username, u.email)
    ensures Consistent(users + [u], papers, messages, nextUserId + 1, nextPaperId, nextMessageId)
  {
    var s := users + [u];
    assert s[|users|] == u;
    forall id | IsUser(users, id) ensures IsUser(s, id) {
      var i :| 0 <= i < |users| && users[i].id == id;
      assert s[i] == users[i];
    }
    forall i, j | 0 <= i < j < |s|
      ensures s[i].id != s[j].id && s[i].username != s[j].username && s[i].email != s[j].email
    {
      if j == |users| {
        assert s[i] == users[i];
      }
    }
  }

  /** Replacing a user row by one with the same key, whose username and
      email no other user has, keeps the tables consistent. */
  lemma ReplaceUserConsistent(users: seq<User>, papers: seq<Paper>, messages: seq<ChatMessage>,
                              nextUserId: int, nextPaperId: int, nextMessageId: int, i: nat, u: User)
    requires Consistent(users, papers, messages, nextUserId, nextPaperId, nextMessageId)
    requires i < |users| && u.id == users[i].id
    requires !TakenByOther(users, u.id, u.username, u.email)
    ensures Consistent(users[i := u], papers, messages, nextUserId, nextPaperId, nextMessageId)
  {
    var s := users[i := u];
    forall id | IsUser(users, id) ensures IsUser(s, id) {
      var k :| 0 <= k < |users| && users[k].id == id;
      assert s[k].id == id;
    }
    forall a, b | 0 <= a < b < |s|
      ensures s[a].id != s[b].id && s[a].username != s[b].username && s[a].email != s[b].email
    {
      if a == i {
        assert users[b].id != u.id;
      } else if b == i {
        assert users[a].id != u.id;
      }
    }
  }

  /** Storing a paper under the next paper key, owned by a user and filed
      under one of the ten categories, keeps the tables consistent. */
  lemma AddPaperConsistent(users: seq<User>, papers: seq<Paper>, messages: seq<ChatMessage>,
                           nextUserId: int, nextPaperId: int, nextMessageId: int, p: Paper)
    requires Consistent(users, papers, messages, nextUserId, nextPaperId, nextMessageId)
    requires p.id == nextPaperId && p.category in Categories && IsUser(users, p.userId)
    ensures Consistent(users, papers + [p], messages, nextUserId, nextPaperId + 1, nextMessageId)
  {
    var s := papers + [p];
    assert s[|papers|] == p;
    forall i, j | 0 <= i < j < |s| ensures s[i].id != s[j].id {
      if j == |papers| {
        assert s[i] == papers[i];
      }
    }
  }

  /** Deleting the paper at position `i` keeps the tables consistent. */
  lemma RemovePaperConsistent(users: seq<User>, papers: seq<Paper>, messages: seq<ChatMessage>,
                              nextUserId: int, nextPaperId: int, nextMessageId: int, i: nat)
    requires Consistent(users, papers, messages, nextUserId, nextPaperId, nextMessageId)
    requires i < |papers|
    ensures Consistent(users, papers[..i] + papers[i + 1..], messages, nextUserId, nextPaperId, nextMessageId)
  {
    var s := papers[..i] + papers[i + 1..];
    assert forall k :: 0 <= k < |s| ==> s[k] == if k < i then papers[k] else papers[k + 1];
  }

  /** Replacing a paper row by one with the same key, owned by a user and
      filed under one of the ten categories, keeps the tables consistent. */
  lemma ReplacePaperConsistent(users: seq<User>, papers: seq<Paper>, messages: seq<ChatMessage>,
                               nextUserId: int, nextPaperId: int, nextMessageId: int, i: nat, p: Paper)
    requires Consistent(users, papers, messages, nextUserId, nextPaperId, nextMessageId)
    requires i < |papers| && p.id == papers[i].id && p.category in Categories && IsUser(users, p.userId)
    ensures Consistent(users, papers[i := p], messages, nextUserId, nextPaperId, nextMessageId)
  {
  }

  /** Storing a message under the next message key, between two users,
      keeps the tables consistent. */
  lemma AddMessageConsistent(users: seq<User>, papers: seq<Paper>, messages: seq<ChatMessage>,
                             nextUserId: int, nextPaperId: int, nextMessageId: int, m: ChatMessage)
    requires Consistent(users, papers, messages, nextUserId, nextPaperId, nextMessageId)
    requires m.id == nextMessageId && IsUser(users, m.senderId) && IsUser(users, m.recipientId)
    ensures Consistent(users, papers, messages + [m], nextUserId, nextPaperId, nextMessageId + 1)
  {
    var s := messages + [m];
    assert s[|messages|] == m;
    forall i, j | 0 <= i < j < |s| ensures s[i].id != s[j].id {
      if j == |messages| {
        assert s[i] == messages[i];
      }
    }
  }

  /** In consistent tables a lookup by key (`query.get(id)`) finds the very
      row carrying that key, and every paper owner, sender and recipient
      can be looked up and is a user id already handed out. */
  lemma ConsistentLookups(users: seq<User>, papers: seq<Paper>, messages: seq<ChatMessage>,
                          nextUserId: int, nextPaperId: int, nextMessageId: int)
    requires Consistent(users, papers, messages, nextUserId, nextPaperId, nextMessageId)
    ensures forall i :: 0 <= i < |users| ==> UserIndex(users, users[i].id) == Some(i)
    ensures forall i :: 0 <= i < |papers| ==> PaperIndex(papers, papers[i].id) == Some(i)
    ensures forall i :: 0 <= i < |papers| ==> UserById(users, papers[i].userId).Some?
    ensures forall i :: 0 <= i < |messages| ==>
              UserById(users, messages[i].senderId).Some? && UserById(users, messages[i].recipientId).Some?
    ensures forall i :: 0 <= i < |papers| ==> papers[i].userId < nextUserId
    ensures forall i :: 0 <= i < |messages| ==>
              messages[i].senderId < nextUserId && messages[i].recipientId < nextUserId
  {
    forall i | 0 <= i < |users|
      ensures UserIndex(users, users[i].id) == Some(i)
    {
      var k := UserIndex(users, users[i].id).value;
      assert k == i;
    }
    forall i | 0 <= i < |papers|
      ensures PaperIndex(papers, papers[i].id) == Some(i)
    {
      var k := PaperIndex(papers, papers[i].id).value;
      assert k == i;
    }
  }

  /** Removing the row at `i` from a table with distinct keys removes
      exactly the row with that key. */
  lemma RemovePaperKeepsOthers(papers: seq<Paper>, i: nat)
    requires i < |papers|
    requires forall a, b :: 0 <= a < b < |papers| ==> papers[a].id != papers[b].id
    ensures forall p :: p in papers[..i] + papers[i + 1..] <==> p in papers && p.id != papers[i].id
  {
    var s := papers[..i] + papers[i + 1..];
    forall p ensures p in s <==> p in papers && p.id != papers[i].id {
      if p in s {
        var k :| 0 <= k < |s| && s[k] == p;
        if k < i {
          assert s[k] == papers[k];
        } else {
          assert s[k] == papers[k + 1];
        }
      }
      if p in papers && p.id != papers[i].id {
        var k :| 0 <= k < |papers| && papers[k] == p;
        if k < i {
          assert s[k] == p;
        } else {
          assert k != i;
          assert s[k - 1] == p;
        }
      }
    }
  }

  /** Every notification names what it is about. */
  lemma NotesNameTheirSubject(username: string, title: string)
    ensures RegisteredNote(username)[6..6 + |username|] == username
    ensures DeletedNote(title)[7..7 + |title|] == title
    ensures CollaborationNote(username, title)[30..30 + |username|] == username
    ensures CollaborationNote(username, title)[30 + |username| + 12..30 + |username| + 12 + |title|] == title
  {
  }
}
