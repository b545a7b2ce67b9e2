/** The application: one object holding the users table, the books table, their AUTOINCREMENT
    counters and the client's session, with one method or function per route. */
module Library {
  import opened Passwords
  import opened Tables
  import opened Search

  /** Where a route redirects: `url_for('login')` or `url_for('dashboard')`. */
  datatype Target = LoginPage | DashboardPage

  /** The outcome of a signup POST: redirect to login (the model also returns the id the row
      received), or the signup page again after the IntegrityError. */
  datatype SignupResult = SignedUp(userId: nat) | DuplicateUsername

  /** The outcome of a login POST: redirect to the dashboard, or the login page again. */
  datatype LoginResult = LoggedIn(identity: Identity) | InvalidCredentials

  /** What a listing route renders: a redirect to login, or the rows handed to the template. */
  datatype Listing = RedirectToLogin | Rows(books: seq<Book>)

  class LibraryApp {
    const hasher: Hasher
    var users: seq<User>
    var books: seq<Book>
    /** The id AUTOINCREMENT gives the next inserted row of each table. */
    var nextUserId: nat
    var nextBookId: nat
    var session: Option<Identity>

    /** The table constraints and what the routes keep true of the session. They make the ids
        primary keys: no two rows of a table share one. */
    ghost predicate Valid()
      reads this
      ensures Valid() ==> forall i, j :: 0 <= i < j < |users| ==> users[i].id != users[j].id
      ensures Valid() ==> forall i, j :: 0 <= i < j < |books| ==> books[i].id != books[j].id
    {
      && UsernamesUnique(users)
      && UserIdsIssued(users, nextUserId) && 1 <= nextUserId
      && BookIdsIssued(books, nextBookId) && 1 <= nextBookId
      && SessionRefersToUser(users, session)
    }

    /** The `'user_id' in session` guard. */
    predicate HasSession()
      reads this`session
    {
      session.Some?
    }

    /** A fresh database after `init_db` and a client without a session. */
    constructor (h: Hasher)
      ensures Valid() && hasher == h
      ensures users == [] && books == [] && nextUserId == 1 && nextBookId == 1 && session == None
    {
      hasher := h;
      users, books := [], [];
      nextUserId, nextBookId := 1, 1;
      session := None;
    }

    /** The signup POST: hash the password and insert the row; a taken username changes nothing. */
    method Signup(username: string, password: string, salt: string) returns (r: SignupResult)
      requires Valid()
      modifies this`users, this`nextUserId
      ensures Valid()
      ensures r.DuplicateUsername? <==> exists u :: u in old(users) && u.username == username
      ensures r.DuplicateUsername? ==> users == old(users) && nextUserId == old(nextUserId)
      ensures r.SignedUp? ==>
                && r.userId == old(nextUserId)
                && (forall u :: u in old(users) ==> u.id < r.userId)
                && users == old(users) + [User(r.userId, username, hasher.hash(password, HashMethod, salt))]
                && nextUserId == old(nextUserId) + 1
    {
      var hashed := hasher.hash(password, HashMethod, salt);
      var inserted := InsertUser(users, nextUserId, username, hashed);
      match inserted
      case None =>
        r := DuplicateUsername;
      case Some(rows) =>
        InsertUserKeepsInvariant(users, nextUserId, username, hashed);
        assert rows == users + [User(nextUserId, username, hashed)];
        users := rows;
        r := SignedUp(nextUserId);
        nextUserId := nextUserId + 1;
    }

    /** The login POST: look the username up and verify the password against the stored hash.
        Success overwrites the session with that row's id and username; failure leaves it. */
    method Login(username: string, password: string) returns (r: LoginResult)
      requires Valid()
      modifies this`session
      ensures Valid()
      ensures r.LoggedIn? <==> exists u :: u in users && u.username == username && hasher.verify(u.passwordHash, password)
      ensures r.LoggedIn? ==> exists u :: u in users && u.username == username && r.identity == Identity(u.id, u.username)
      ensures r.LoggedIn? ==> session == Some(r.identity)
      ensures r.InvalidCredentials? ==> session == old(session)
    {
      match Authenticate(users, hasher, username, password)
      case Some(identity) =>
        r := LoggedIn(identity);
        session := Some(identity);
      case None =>
        r := InvalidCredentials;
        if u :| u in users && u.username == username && hasher.verify(u.passwordHash, password) {
          AuthenticateDecidedByTheRow(users, hasher, u, password);
          assert false;
        }
    }

    /** The logout route: the session is cleared whatever it held. */
    method Logout() returns (r: Target)
      requires Valid()
      modifies this`session
      ensures Valid()
      ensures session == None && !HasSession() && r == LoginPage
    {
      session := None;
      r := LoginPage;
    }

    /** The add_book POST: without a session, a redirect and no change; with one, one row appended
        with the next AUTOINCREMENT id and `available` set to 1. */
    method AddBook(title: string, author: string) returns (r: Target)
      requires Valid()
      modifies this`books, this`nextBookId
      ensures Valid()
      ensures !HasSession() ==> r == LoginPage && books == old(books) && nextBookId == old(nextBookId)
      ensures HasSession() ==>
                && r == DashboardPage
                && (forall b :: b in old(books) ==> b.id < old(nextBookId))
                && books == old(books) + [Book(old(nextBookId), title, author, Available)]
                && nextBookId == old(nextBookId) + 1
    {
      if !HasSession() {
        return LoginPage;
      }
      AppendBookKeepsIds(books, nextBookId, title, author);
      books := books + [Book(nextBookId, title, author, Available)];
      nextBookId := nextBookId + 1;
      r := DashboardPage;
    }

    /** The delete_book route: without a session, a redirect and no change; with one, every row
        carrying `bookId` removed and the others kept in order. */
    method DeleteBook(bookId: nat) returns (r: Target)
      requires Valid()
      modifies this`books
      ensures Valid()
      ensures !HasSession() ==> r == LoginPage && books == old(books)
      ensures HasSession() ==> r == DashboardPage && books == RemoveId(old(books), bookId)
    {
      if !HasSession() {
        return LoginPage;
      }
      RemoveIdKeepsIds(books, bookId, nextBookId);
      books := RemoveId(books, bookId);
      r := DashboardPage;
    }

    /** The dashboard route: the whole books table, in insertion order, or a redirect. */
    function Dashboard(): (r: Listing)
      reads this`session, this`books
      ensures !HasSession() <==> r == RedirectToLogin
      ensures HasSession() ==> r == Rows(books)
    {
      if !HasSession() then RedirectToLogin else Rows(books)
    }

    /** The view_books route: the same guard and the same rows as the dashboard. */
    function ViewBooks(): (r: Listing)
      reads this`session, this`books
      ensures !HasSession() <==> r == RedirectToLogin
      ensures HasSession() ==> r == Rows(books)
    {
      if !HasSession() then RedirectToLogin else Rows(books)
    }

    /** The search route. It reads only the books table: there is no session check. */
    function Search(query: string): (r: seq<Book>)
      reads this`books
      ensures query == [] ==> r == []
      ensures query != [] ==> forall b :: b in r <==> b in books && Matches(b, query)
      ensures IsSubsequence(r, books)
    {
      SearchIsSubsequence(books, query);
      SearchCatalog(books, query)
    }
  }

  /** A signup on a fresh database: the users table holds the one new row, with id 1 and the
      hash of the password. */
  method SignupOnFreshApp(h: Hasher, salt: string) returns (app: LibraryApp)
    ensures fresh(app) && app.Valid() && app.hasher == h
    ensures app.users == [User(1, "alice", h.hash("pw123", HashMethod, salt))]
    ensures app.books == [] && app.nextBookId == 1 && app.session == None
  {
    app := new LibraryApp(h);
    var signedUp := app.Signup("alice", "pw123", salt);
  }

  /** Signup and login of a new user on a fresh database: the session holds the new row. */
  method SignupThenLoginOnFreshApp(h: Hasher, salt: string) returns (app: LibraryApp)
    requires Sound(h)
    ensures fresh(app) && app.Valid() && app.hasher == h
    ensures app.users == [User(1, "alice", h.hash("pw123", HashMethod, salt))]
    ensures app.books == [] && app.nextBookId == 1
    ensures app.session == Some(Identity(1, "alice"))
  {
    app := SignupOnFreshApp(h, salt);
    var alice := app.users[0];
    assert alice in app.users && h.verify(alice.passwordHash, "pw123");
    var loggedIn := app.Login("alice", "pw123");
  }

  /** Signup, login, add, list, delete, list, logout, list: the listings see one row with
      `available` = 1, then none, then only a redirect. */
  method SignupLoginAddDeleteLogout(h: Hasher, salt: string) returns (first: Listing, second: Listing, third: Listing)
    requires Sound(h)
    ensures first == Rows([Book(1, "Dune", "Herbert", Available)])
    ensures second == Rows([])
    ensures third == RedirectToLogin
  {
    var app := SignupThenLoginOnFreshApp(h, salt);
    var added := app.AddBook("Dune", "Herbert");
    assert app.books == [Book(1, "Dune", "Herbert", Available)];
    first := app.Dashboard();
    var deleted := app.DeleteBook(1);
    assert RemoveId([Book(1, "Dune", "Herbert", Available)], 1) == RemoveId([], 1) == [];
    second := app.ViewBooks();
    var loggedOut := app.Logout();
    third := app.ViewBooks();
  }
}
