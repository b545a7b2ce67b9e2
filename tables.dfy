/** The two tables of the application, held in memory: their rows, the constraints the schema
    puts on them (a UNIQUE username, AUTOINCREMENT ids) and the row-level operations the routes
    run against them. */
module Tables {
  import opened Passwords

  datatype Option<T> = None | Some(value: T)

  /** A row of `users`; `passwordHash` is the value of the `password` column. */
  datatype User = User(id: nat, username: string, passwordHash: string)

  /** A row of `books`; `available` is the INTEGER column, set to 1 on insert. */
  datatype Book = Book(id: nat, title: string, author: string, available: int)

  /** What a logged-in session holds: its `user_id` and `username` keys. */
  datatype Identity = Identity(userId: nat, username: string)

  /** The value `add_book` stores in `available`. */
  const Available: int := 1

  /** The UNIQUE constraint on `users.username`. */
  ghost predicate UsernamesUnique(users: seq<User>) {
    forall i, j :: 0 <= i < j < |users| ==> users[i].username != users[j].username
  }

  /** AUTOINCREMENT ids only grow, so rows are in increasing id order and every id lies in
      [1, next), `next` being the id the next insert receives. */
  ghost predicate UserIdsIssued(users: seq<User>, next: nat) {
    && (forall i, j :: 0 <= i < j < |users| ==> users[i].id < users[j].id)
    && (forall u :: u in users ==> 1 <= u.id < next)
  }

  ghost predicate BookIdsIssued(books: seq<Book>, next: nat) {
    && (forall i, j :: 0 <= i < j < |books| ==> books[i].id < books[j].id)
    && (forall b :: b in books ==> 1 <= b.id < next)
  }

  /** A session, when present, names an existing user by id and username. */
  ghost predicate SessionRefersToUser(users: seq<User>, session: Option<Identity>) {
    session.Some? ==> exists u :: u in users && Identity(u.id, u.username) == session.value
  }

  /** `a` is `b` with some rows dropped, the rest kept in order. */
  predicate IsSubsequence<T(==)>(a: seq<T>, b: seq<T>) {
    if a == [] then true
    else if b == [] then false
    else if a[0] == b[0] then IsSubsequence(a[1..], b[1..])
    else IsSubsequence(a, b[1..])
  }

  /** SELECT * FROM users WHERE username = ?, first row. */
  function FindByUsername(users: seq<User>, name: string): (r: Option<User>)
    ensures r.Some? ==> r.value in users && r.value.username == name
    ensures r.None? <==> forall u :: u in users ==> u.username != name
  {
    if users == [] then None
    else if users[0].username == name then Some(users[0])
    else FindByUsername(users[1..], name)
  }

  /** Under the UNIQUE constraint, the row found for a username is the one row carrying it. */
  lemma {:induction false} FindByUsernameUnique(users: seq<User>, u: User)
    requires UsernamesUnique(users) && u in users
    ensures FindByUsername(users, u.username) == Some(u)
  {
    if users[0] != u {
      var k :| 0 <= k < |users| && users[k] == u;
      assert k > 0 && users[0].username != users[k].username;
      assert users[1..][k - 1] == u;
      FindByUsernameUnique(users[1..], u);
    }
  }

  /** INSERT INTO users (username, password): None stands for the IntegrityError raised by the
      UNIQUE constraint, Some for the table after the row is appended. */
  function InsertUser(users: seq<User>, id: nat, name: string, passwordHash: string): (r: Option<seq<User>>)
    ensures r.None? <==> exists u :: u in users && u.username == name
    ensures r.Some? ==> |r.value| == |users| + 1 && r.value[..|users|] == users
    ensures r.Some? ==> r.value[|users|] == User(id, name, passwordHash)
  {
    if FindByUsername(users, name).Some? then None else Some(users + [User(id, name, passwordHash)])
  }

  /** A successful insert keeps usernames unique and, given the next AUTOINCREMENT id, ids issued. */
  lemma InsertUserKeepsInvariant(users: seq<User>, next: nat, name: string, passwordHash: string)
    requires UsernamesUnique(users) && UserIdsIssued(users, next) && 1 <= next
    requires InsertUser(users, next, name, passwordHash).Some?
    ensures UsernamesUnique(InsertUser(users, next, name, passwordHash).value)
    ensures UserIdsIssued(InsertUser(users, next, name, passwordHash).value, next + 1)
  {
    InsertUserKeepsUniqueNames(users, next, name, passwordHash);
    var row := User(next, name, passwordHash);
    var r := users + [row];
    assert InsertUser(users, next, name, passwordHash).value == r;
    forall i, j | 0 <= i < j < |r| ensures r[i].id < r[j].id {
      assert r[i] == users[i] && users[i] in users;
      if j < |users| {
        assert r[j] == users[j];
      }
    }
    forall u | u in r ensures 1 <= u.id < next + 1 {
      if u != row {
        assert u in users;
      }
    }
  }

  /** A second insert of the same username always raises the IntegrityError: one username,
      at most one row. */
  lemma {:induction false} SecondInsertFails(users: seq<User>, id1: nat, id2: nat, name: string, hash1: string, hash2: string)
    requires InsertUser(users, id1, name, hash1).Some?
    ensures InsertUser(InsertUser(users, id1, name, hash1).value, id2, name, hash2).None?
  {
    var r := InsertUser(users, id1, name, hash1).value;
    assert r[|users|] in r;
  }

  /** The credential check of the login route: the row found for `name`, when its stored hash
      verifies `password`, gives the identity stored in the session. */
  function Authenticate(users: seq<User>, h: Hasher, name: string, password: string): (r: Option<Identity>)
    ensures r.Some? ==> exists u :: u in users && u.username == name && h.verify(u.passwordHash, password)
                                      && r.value == Identity(u.id, u.username)
  {
    match FindByUsername(users, name)
    case None => None
    case Some(u) => if h.verify(u.passwordHash, password) then Some(Identity(u.id, u.username)) else None
  }

  /** Conversely, with unique usernames, a row whose hash verifies the password always logs in,
      and a row whose hash does not verify it never does. */
  lemma AuthenticateDecidedByTheRow(users: seq<User>, h: Hasher, u: User, password: string)
    requires UsernamesUnique(users) && u in users
    ensures Authenticate(users, h, u.username, password)
            == if h.verify(u.passwordHash, password) then Some(Identity(u.id, u.username)) else None
  {
    FindByUsernameUnique(users, u);
  }

  /** A user who has just signed up can log in with the same password. */
  lemma SignupThenLogin(users: seq<User>, h: Hasher, id: nat, name: string, password: string, salt: string)
    requires Sound(h) && UsernamesUnique(users)
    requires InsertUser(users, id, name, h.hash(password, HashMethod, salt)).Some?
    ensures Authenticate(InsertUser(users, id, name, h.hash(password, HashMethod, salt)).value, h, name, password)
            == Some(Identity(id, name))
  {
    var stored := h.hash(password, HashMethod, salt);
    var r := InsertUser(users, id, name, stored).value;
    InsertUserKeepsUniqueNames(users, id, name, stored);
    assert r[|users|] in r;
    AuthenticateDecidedByTheRow(r, h, User(id, name, stored), password);
  }

  lemma InsertUserKeepsUniqueNames(users: seq<User>, id: nat, name: string, passwordHash: string)
    requires UsernamesUnique(users)
    requires InsertUser(users, id, name, passwordHash).Some?
    ensures UsernamesUnique(InsertUser(users, id, name, passwordHash).value)
  {
    var r := InsertUser(users, id, name, passwordHash).value;
    forall i, j | 0 <= i < j < |r| ensures r[i].username != r[j].username {
      if j == |users| {
        assert r[i] == users[i];
        assert users[i] in users;
      } else {
        assert r[i] == users[i] && r[j] == users[j];
      }
    }
  }

  /** INSERT INTO books: the row appended with the next AUTOINCREMENT id keeps ids issued. */
  lemma AppendBookKeepsIds(books: seq<Book>, next: nat, title: string, author: string)
    requires BookIdsIssued(books, next) && 1 <= next
    ensures BookIdsIssued(books + [Book(next, title, author, Available)], next + 1)
  {
    var r := books + [Book(next, title, author, Available)];
    forall i, j | 0 <= i < j < |r| ensures r[i].id < r[j].id {
      assert r[i] == books[i];
      if j < |books| {
        assert r[j] == books[j];
      } else {
        assert books[i] in books;
      }
    }
  }

  /** DELETE FROM books WHERE id = ?: the table without the rows carrying `id`, in table order. */
  function RemoveId(books: seq<Book>, id: nat): (r: seq<Book>)
    ensures forall b :: b in r <==> b in books && b.id != id
    ensures |r| <= |books|
  {
    if books == [] then []
    else if books[0].id == id then RemoveId(books[1..], id)
    else [books[0]] + RemoveId(books[1..], id)
  }

  /** Deleting an id no row carries leaves the table as it was. */
  lemma {:induction false} RemoveAbsentId(books: seq<Book>, id: nat)
    requires forall b :: b in books ==> b.id != id
    ensures RemoveId(books, id) == books
  {
    if books != [] {
      assert books == [books[0]] + books[1..];
      RemoveAbsentId(books[1..], id);
    }
  }

  /** Deleting twice is deleting once. */
  lemma RemoveIdIdempotent(books: seq<Book>, id: nat)
    ensures RemoveId(RemoveId(books, id), id) == RemoveId(books, id)
  {
    RemoveAbsentId(RemoveId(books, id), id);
  }

  /** The rows a delete keeps are kept in their order. */
  lemma {:induction false} RemoveIdIsSubsequence(books: seq<Book>, id: nat)
    ensures IsSubsequence(RemoveId(books, id), books)
  {
    if books != [] {
      RemoveIdIsSubsequence(books[1..], id);
      var rest := RemoveId(books[1..], id);
      if books[0].id != id {
        assert ([books[0]] + rest)[1..] == rest;
      }
    }
  }

  /** A delete keeps ids issued. */
  lemma {:induction false} RemoveIdKeepsIds(books: seq<Book>, id: nat, next: nat)
    requires BookIdsIssued(books, next)
    ensures BookIdsIssued(RemoveId(books, id), next)
  {
    if books != [] {
      var tail := books[1..];
      IdsIssuedTail(books, next);
      RemoveIdKeepsIds(tail, id, next);
      if books[0].id != id {
        var rest := RemoveId(tail, id);
        forall b | b in rest ensures books[0].id < b.id {
          var k :| 0 <= k < |tail| && tail[k] == b;
          assert tail[k] == books[k + 1];
        }
        IdsIssuedCons(books[0], rest, next);
      }
    }
  }

  lemma IdsIssuedTail(books: seq<Book>, next: nat)
    requires BookIdsIssued(books, next) && books != []
    ensures BookIdsIssued(books[1..], next)
  {
    var tail := books[1..];
    forall i, j | 0 <= i < j < |tail| ensures tail[i].id < tail[j].id {
      assert tail[i] == books[i + 1] && tail[j] == books[j + 1];
    }
  }

  lemma IdsIssuedCons(first: Book, rest: seq<Book>, next: nat)
    requires BookIdsIssued(rest, next) && 1 <= first.id < next
    requires forall b :: b in rest ==> first.id < b.id
    ensures BookIdsIssued([first] + rest, next)
  {
    var r := [first] + rest;
    forall i, j | 0 <= i < j < |r| ensures r[i].id < r[j].id {
      assert r[j] == rest[j - 1];
      if i == 0 {
        assert rest[j - 1] in rest;
      } else {
        assert r[i] == rest[i - 1];
      }
    }
  }
}
