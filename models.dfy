/**
 * The record shapes of the library database (models.py) and the two stores the
 * application changes: the relational database, as in-memory tables, and the
 * file system under the static directory, as a set of existing paths.
 */
module Models {
  import opened Wrappers

  /** A row of the users table (models.py:6-12); the password is kept as an opaque hash. */
  datatype User = User(username: string, email: string, passwordHash: string, isAdmin: bool)

  /** A row of the book table (models.py:20-33); nullable columns are options. */
  datatype Book = Book(
    title: string,
    author: string,
    description: Option<string>,
    coverPath: Option<string>,
    filePath: Option<string>,
    bookUrl: Option<string>,
    publisher: Option<string>,
    year: Option<int>,
    isbn: Option<string>,
    category: Option<string>)

  /** A row of the book_analytics table (models.py:38-45): three counters for one book. */
  datatype AnalyticsRow = AnalyticsRow(bookId: int, viewCount: nat, downloadCount: nat, shareCount: nat)

  /** A freshly constructed analytics row: every counter takes its column default 0 (models.py:41-43). */
  function NewAnalyticsRow(bookId: int): AnalyticsRow
  {
    AnalyticsRow(bookId, 0, 0, 0)
  }

  /** What a click event records about the request that caused it, as opaque strings. */
  datatype RequestMeta = RequestMeta(userAgent: string, ipAddress: Option<string>, referrer: Option<string>)

  /** A row of the append-only click_event log (models.py:47-54). */
  datatype ClickEvent = ClickEvent(bookId: int, eventType: string, meta: RequestMeta)

  /** The invariant every operation keeps on book_analytics: no two rows belong to the same book. */
  predicate AtMostOneRowPerBook(rows: seq<AnalyticsRow>)
  {
    forall i, j | 0 <= i < j < |rows| :: rows[i].bookId != rows[j].bookId
  }

  /** The unique constraints on username and email (models.py:8-9). */
  predicate UniqueUsers(users: seq<User>)
  {
    forall i, j | 0 <= i < j < |users| :: users[i].username != users[j].username && users[i].email != users[j].email
  }

  /** Whether some user already holds the email address. */
  predicate EmailTaken(users: seq<User>, email: string)
  {
    exists i | 0 <= i < |users| :: users[i].email == email
  }

  /** `User.query.filter_by(username=...).first()`: the index of the first user with that name. */
  function FindUser(users: seq<User>, username: string): (r: Option<nat>)
    ensures r.Some? ==> r.value < |users| && users[r.value].username == username
    ensures r.Some? ==> forall j | 0 <= j < r.value :: users[j].username != username
    ensures r.None? ==> forall j | 0 <= j < |users| :: users[j].username != username
  {
    if |users| == 0 then None
    else if users[0].username == username then Some(0)
    else match FindUser(users[1..], username)
      case None => None
      case Some(k) => Some(k + 1)
  }

  /**
   * What every committed state satisfies: at most one analytics row per book, the
   * foreign keys of analytics rows and click events (models.py:40, 49) point at
   * existing books, every book id was drawn from the id sequence, and users are unique.
   */
  predicate Consistent(books: map<int, Book>, nextBookId: int, analytics: seq<AnalyticsRow>,
                       events: seq<ClickEvent>, users: seq<User>)
  {
    && AtMostOneRowPerBook(analytics)
    && (forall i | 0 <= i < |analytics| :: analytics[i].bookId in books)
    && (forall i | 0 <= i < |events| :: events[i].bookId in books)
    && (forall id | id in books :: id < nextBookId)
    && UniqueUsers(users)
  }

  /** The relational store: one field per table, plus the id sequence of the book table. */
  class Database {
    var books: map<int, Book>
    var nextBookId: int
    var analytics: seq<AnalyticsRow>
    var events: seq<ClickEvent>
    var users: seq<User>

    /** The invariant of the tables, see `Consistent`. */
    ghost predicate Valid()
      reads this
    {
      Consistent(books, nextBookId, analytics, events, users)
    }

    /** An empty database, as `db.create_all()` leaves it. */
    constructor ()
      ensures Valid()
      ensures books == map[] && analytics == [] && events == [] && users == [] && nextBookId == 1
    {
      books, nextBookId := map[], 1;
      analytics, events, users := [], [], [];
    }
  }

  /** The file system, as the set of paths that exist. */
  class Disk {
    var files: set<string>

    constructor (existing: set<string>)
      ensures files == existing
    {
      files := existing;
    }
  }
}
