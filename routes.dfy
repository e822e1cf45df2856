/**
 * The request handlers of routes.py, reduced to their outcomes: which response a
 * request gets and how it changes the database and the upload folder. Page
 * rendering, flashing and redirect targets are collapsed into `Response` values.
 */
module Routes {
  import opened Wrappers
  import opened Models
  import opened Forms
  import opened Utils

  /** The requesting user, as the login session knows it. */
  datatype Principal = Anonymous | SignedIn(user: User)

  datatype Response =
    | Rendered                    // a template page
    | ToLogin                     // the login-required redirect
    | Forbidden                   // abort(403)
    | NotFound                    // get_or_404 on an unknown book
    | ServerError                 // an exception escaped the handler (500)
    | ToDashboard
    | ToManageBooks
    | ToBookDetail(bookId: int)   // with the "not available for download" message
    | SendFile(path: string)
    | ToExternal(url: string)
    | Json(status: int)

  // ------------------------------------------------------------------ access control

  /**
   * What every admin route does first: `@login_required` sends anonymous visitors
   * to the login page, then a signed-in user who is not an admin gets 403.
   * None means the handler proceeds.
   */
  function AdminGate(who: Principal): Option<Response>
  {
    match who
    case Anonymous => Some(ToLogin)
    case SignedIn(u) => if u.isAdmin then None else Some(Forbidden)
  }

  /** Only admins pass; a signed-in non-admin is always refused with 403. */
  lemma AdminGateRule(who: Principal)
    ensures AdminGate(who).None? <==> who.SignedIn? && who.user.isAdmin
    ensures who.SignedIn? && !who.user.isAdmin ==> AdminGate(who) == Some(Forbidden)
  {
  }

  /** The outcome of the login route. */
  datatype LoginOutcome = AlreadySignedIn | LoginPage | InvalidCredentials | LoggedIn(user: User)

  /**
   * The login route (routes.py:59-74): a signed-in visitor is sent on; an unsubmitted
   * or invalid form is shown again; otherwise the user named in the form must exist,
   * the password must check against the stored hash, and the user must be an admin.
   * `checkPassword(hash, password)` stands for the password-hash check.
   */
  function Login(who: Principal, submitted: Option<LoginForm>, users: seq<User>,
                 checkPassword: (string, string) -> bool): LoginOutcome
  {
    if who.SignedIn? then AlreadySignedIn
    else if submitted.None? || !LoginFormValid(submitted.value) then LoginPage
    else
      var form := submitted.value;
      match FindUser(users, form.username)
      case Some(i) =>
        if checkPassword(users[i].passwordHash, form.password) && users[i].isAdmin then LoggedIn(users[i])
        else InvalidCredentials
      case None => InvalidCredentials
  }

  /**
   * A valid submission logs in exactly when some user has that name, the password
   * checks and the user is an admin; every other case gets one and the same generic
   * error, whether the user is unknown, the password wrong or the user not an admin.
   */
  lemma LoginAcceptance(form: LoginForm, users: seq<User>, checkPassword: (string, string) -> bool)
    requires UniqueUsers(users) && LoginFormValid(form)
    ensures var out := Login(Anonymous, Some(form), users, checkPassword);
      && (out.LoggedIn? <==>
            exists i | 0 <= i < |users| ::
              users[i].username == form.username && checkPassword(users[i].passwordHash, form.password) && users[i].isAdmin)
      && (out.LoggedIn? ==> out.user in users && out.user.username == form.username && out.user.isAdmin)
      && (!out.LoggedIn? ==> out == InvalidCredentials)
  {
    var out := Login(Anonymous, Some(form), users, checkPassword);
    if i :| 0 <= i < |users| && users[i].username == form.username
           && checkPassword(users[i].passwordHash, form.password) && users[i].isAdmin {
      assert FindUser(users, form.username).Some?;
    }
  }

  // ------------------------------------------------------------------ analytics API

  /** `not book_id or not event_type`: an absent or zero id, or an absent or empty kind. */
  predicate MissingParameter(bookId: Option<int>, eventType: Option<string>)
  {
    bookId.None? || bookId.value == 0 || !Truthy(eventType)
  }

  /** The analytics tables after one event of `eventType` was recorded for `bookId`. */
  predicate EventRecorded(rows0: seq<AnalyticsRow>, events0: seq<ClickEvent>,
                          rows1: seq<AnalyticsRow>, events1: seq<ClickEvent>,
                          bookId: int, eventType: string, meta: RequestMeta)
  {
    rows1 == RecordRows(rows0, bookId, eventType) && events1 == events0 + [ClickEvent(bookId, eventType, meta)]
  }

  /**
   * `POST /api/track` (routes.py:259-279): 400 for a missing parameter, checked before
   * anything else; then 404 for an unknown book, with nothing recorded; otherwise the
   * recorder's answer decides between 200 and 500, so the first view, download or
   * share of a book without an analytics row answers 500.
   */
  method TrackEvent(db: Database, bookId: Option<int>, eventType: Option<string>, meta: RequestMeta, storeOk: bool)
    returns (status: int)
    requires db.Valid()
    modifies db
    ensures db.Valid()
    ensures MissingParameter(bookId, eventType) ==> status == 400
    ensures !MissingParameter(bookId, eventType) && bookId.value !in old(db.books) ==> status == 404
    ensures !MissingParameter(bookId, eventType) && bookId.value in old(db.books) ==>
      status == (if storeOk && RecordRowsAsWritten(old(db.analytics), bookId.value, eventType.value).Some? then 200 else 500)
    ensures status == 200 ==>
      EventRecorded(old(db.analytics), old(db.events), db.analytics, db.events, bookId.value, eventType.value, meta)
    ensures status != 200 ==> db.analytics == old(db.analytics) && db.events == old(db.events)
    ensures db.books == old(db.books) && db.users == old(db.users) && db.nextBookId == old(db.nextBookId)
  {
    if MissingParameter(bookId, eventType) {
      return 400;
    }
    if bookId.value !in db.books {
      return 404;
    }
    var success := IncrementAnalytics(db, bookId.value, eventType.value, meta, storeOk);
    status := if success then 200 else 500;
  }

  // ------------------------------------------------------------------ public book routes

  /**
   * Where a download goes: the stored file first, then the external URL, else nowhere.
   * Serving the stored file answers 404 when it is no longer in the upload folder.
   */
  function DownloadTarget(bookId: int, book: Book, files: set<string>): Response
  {
    if Truthy(book.filePath) then
      if Join(StaticFolder, book.filePath.value) in files then SendFile(Join(StaticFolder, book.filePath.value))
      else NotFound
    else if Truthy(book.bookUrl) then ToExternal(book.bookUrl.value)
    else ToBookDetail(bookId)
  }

  /**
   * A book is downloadable only through a set file path or a set URL, the file taking
   * precedence; a set file path that names a missing file gives 404, never the URL.
   */
  lemma DownloadPrecedence(bookId: int, book: Book, files: set<string>)
    ensures DownloadTarget(bookId, book, files).SendFile? <==>
      Truthy(book.filePath) && Join(StaticFolder, book.filePath.value) in files
    ensures DownloadTarget(bookId, book, files).SendFile? ==>
      DownloadTarget(bookId, book, files).path == Join(StaticFolder, book.filePath.value)
    ensures DownloadTarget(bookId, book, files) == NotFound <==>
      Truthy(book.filePath) && Join(StaticFolder, book.filePath.value) !in files
    ensures DownloadTarget(bookId, book, files).ToExternal? <==> !Truthy(book.filePath) && Truthy(book.bookUrl)
    ensures DownloadTarget(bookId, book, files) == ToBookDetail(bookId) <==>
      !Truthy(book.filePath) && !Truthy(book.bookUrl)
  {
  }

  /**
   * `GET /book/<id>/download` (routes.py:27-46): 404 for an unknown book; otherwise a
   * `download` event is recorded first (its failure, including the lost first event
   * of a book without an analytics row, is ignored) and the download is dispatched.
   */
  method DownloadBook(db: Database, disk: Disk, bookId: int, meta: RequestMeta, storeOk: bool) returns (r: Response)
    requires db.Valid()
    modifies db
    ensures db.Valid()
    ensures bookId !in old(db.books) ==> r == NotFound && db.analytics == old(db.analytics) && db.events == old(db.events)
    ensures bookId in old(db.books) ==> r == DownloadTarget(bookId, old(db.books)[bookId], disk.files)
    ensures bookId in old(db.books) && storeOk && RecordRowsAsWritten(old(db.analytics), bookId, "download").Some? ==>
      EventRecorded(old(db.analytics), old(db.events), db.analytics, db.events, bookId, "download", meta)
    ensures !(storeOk && RecordRowsAsWritten(old(db.analytics), bookId, "download").Some?) ==>
      db.analytics == old(db.analytics) && db.events == old(db.events)
    ensures db.books == old(db.books) && db.users == old(db.users) && db.nextBookId == old(db.nextBookId)
  {
    if bookId !in db.books {
      return NotFound;
    }
    var book := db.books[bookId];
    var _ := IncrementAnalytics(db, bookId, "download", meta, storeOk);
    r := DownloadTarget(bookId, book, disk.files);
  }

  /** `GET /book/<id>` (routes.py:19-24): 404, or a `view` event and the detail page. */
  method ViewBook(db: Database, bookId: int, meta: RequestMeta, storeOk: bool) returns (r: Response)
    requires db.Valid()
    modifies db
    ensures db.Valid()
    ensures r == if bookId in old(db.books) then Rendered else NotFound
    ensures bookId in old(db.books) && storeOk && RecordRowsAsWritten(old(db.analytics), bookId, "view").Some? ==>
      EventRecorded(old(db.analytics), old(db.events), db.analytics, db.events, bookId, "view", meta)
    ensures !(bookId in old(db.books) && storeOk && RecordRowsAsWritten(old(db.analytics), bookId, "view").Some?) ==>
      db.analytics == old(db.analytics) && db.events == old(db.events)
    ensures db.books == old(db.books) && db.users == old(db.users) && db.nextBookId == old(db.nextBookId)
  {
    if bookId !in db.books {
      return NotFound;
    }
    var _ := IncrementAnalytics(db, bookId, "view", meta, storeOk);
    r := Rendered;
  }

  /**
   * `POST /api/book/<id>/share` (routes.py:49-56): 404, or a `share` event; the reply
   * reports success even when recording failed.
   */
  method ShareBook(db: Database, bookId: int, meta: RequestMeta, storeOk: bool) returns (r: Response)
    requires db.Valid()
    modifies db
    ensures db.Valid()
    ensures r == if bookId in old(db.books) then Json(200) else NotFound
    ensures bookId in old(db.books) && storeOk && RecordRowsAsWritten(old(db.analytics), bookId, "share").Some? ==>
      EventRecorded(old(db.analytics), old(db.events), db.analytics, db.events, bookId, "share", meta)
    ensures !(bookId in old(db.books) && storeOk && RecordRowsAsWritten(old(db.analytics), bookId, "share").Some?) ==>
      db.analytics == old(db.analytics) && db.events == old(db.events)
    ensures db.books == old(db.books) && db.users == old(db.users) && db.nextBookId == old(db.nextBookId)
  {
    if bookId !in db.books {
      return NotFound;
    }
    var _ := IncrementAnalytics(db, bookId, "share", meta, storeOk);
    r := Json(200);
  }

  // ------------------------------------------------------------------ admin book management

  /** A submitted form that passes validation (`validate_on_submit`). */
  predicate Accepted(submitted: Option<BookForm>)
  {
    submitted.Some? && BookFormValid(submitted.value)
  }

  /** The path an optional upload is stored under, if a file was sent. */
  function StoredUpload(upload: Option<string>, subfolder: string, token: string, secureFilename: string -> string): Option<string>
  {
    if Truthy(upload) then Some(SavedPath(subfolder, token, secureFilename(upload.value))) else None
  }

  /** The file an optional upload is written to, if a file was sent. */
  function UploadWritten(upload: Option<string>, subfolder: string, token: string, secureFilename: string -> string): set<string>
  {
    if Truthy(upload) then {WrittenPath(subfolder, token, secureFilename(upload.value))} else {}
  }

  /** The book row the form describes, with the given stored paths. */
  function BookFromForm(f: BookForm, coverPath: Option<string>, filePath: Option<string>): Book
  {
    Book(f.title, f.author, Some(f.description), coverPath, filePath, Some(f.bookUrl),
         Some(f.publisher), f.year, Some(f.isbn), Some(f.category))
  }

  /** The book row `add_book` commits for a valid form with the given upload tokens. */
  function NewBook(f: BookForm, coverToken: string, fileToken: string, secureFilename: string -> string): Book
  {
    BookFromForm(f, StoredUpload(f.cover, "covers", coverToken, secureFilename),
                    StoredUpload(f.bookFile, "books", fileToken, secureFilename))
  }

  /** A stored path after an edit: the new upload's path if one was sent, else the current one. */
  function KeepOrReplace(current: Option<string>, uploaded: Option<string>): Option<string>
  {
    if uploaded.Some? then uploaded else current
  }

  /** The book row after `edit_book` with the given form and upload tokens. */
  function EditedBook(b: Book, f: BookForm, coverToken: string, fileToken: string, secureFilename: string -> string): Book
  {
    BookFromForm(f,
      KeepOrReplace(b.coverPath, StoredUpload(f.cover, "covers", coverToken, secureFilename)),
      KeepOrReplace(b.filePath, StoredUpload(f.bookFile, "books", fileToken, secureFilename)))
  }

  /** An edit replaces a stored path only when a new file is uploaded; otherwise it keeps the old one. */
  lemma EditReplacesOnlyUploaded(b: Book, f: BookForm, coverToken: string, fileToken: string, secureFilename: string -> string)
    ensures var e := EditedBook(b, f, coverToken, fileToken, secureFilename);
      && e.coverPath == (if Truthy(f.cover) then Some(SavedPath("covers", coverToken, secureFilename(f.cover.value))) else b.coverPath)
      && e.filePath == (if Truthy(f.bookFile) then Some(SavedPath("books", fileToken, secureFilename(f.bookFile.value))) else b.filePath)
      && e == BookFromForm(f, e.coverPath, e.filePath)
      && e.title == f.title && e.author == f.author && e.year == f.year
  {
  }

  /** The files after one upload field of `edit_book`: the old file removed, the new one written. */
  function ReplaceUpload(files: set<string>, oldPath: Option<string>, upload: Option<string>, subfolder: string,
                         token: string, secureFilename: string -> string, removeOk: bool): set<string>
  {
    if Truthy(upload) then Removed(files, oldPath, removeOk) + UploadWritten(upload, subfolder, token, secureFilename)
    else files
  }

  /** One upload field of `add_book` (routes.py:137-144): save the file if one was sent. */
  method SaveUpload(disk: Disk, upload: Option<string>, subfolder: string, token: string,
                    secureFilename: string -> string)
    returns (path: Option<string>)
    modifies disk
    ensures path == StoredUpload(upload, subfolder, token, secureFilename)
    ensures disk.files == old(disk.files) + UploadWritten(upload, subfolder, token, secureFilename)
  {
    path := None;
    if Truthy(upload) {
      var saved := SaveFile(disk, upload.value, subfolder, token, secureFilename);
      path := Some(saved);
    }
  }

  /**
   * `POST /admin/books/add` (routes.py:116-158). After the admin check and form
   * validation, the uploads are saved, the book is committed under the next id, and
   * then, in a second commit, its analytics row with zero counters. A failing commit
   * rolls back its own writes and ends the request with 500; saved files stay.
   */
  method AddBook(db: Database, disk: Disk, who: Principal, submitted: Option<BookForm>,
                 secureFilename: string -> string, coverToken: string, fileToken: string,
                 bookCommitOk: bool, analyticsCommitOk: bool)
    returns (r: Response)
    requires db.Valid()
    modifies db, disk
    ensures db.Valid()
    ensures AdminGate(who).Some? ==> r == AdminGate(who).value && unchanged(db) && unchanged(disk)
    ensures AdminGate(who).None? && !Accepted(submitted) ==> r == Rendered && unchanged(db) && unchanged(disk)
    ensures AdminGate(who).None? && Accepted(submitted) ==>
      disk.files == old(disk.files) + UploadWritten(submitted.value.cover, "covers", coverToken, secureFilename)
                                    + UploadWritten(submitted.value.bookFile, "books", fileToken, secureFilename)
    ensures AdminGate(who).None? && Accepted(submitted) ==>
      old(db.nextBookId) !in old(db.books) && FindRow(old(db.analytics), old(db.nextBookId)).None?
    ensures AdminGate(who).None? && Accepted(submitted) && !bookCommitOk ==>
      r == ServerError && unchanged(db)
    ensures AdminGate(who).None? && Accepted(submitted) && bookCommitOk ==>
      && db.books == old(db.books)[old(db.nextBookId) := NewBook(submitted.value, coverToken, fileToken, secureFilename)]
      && db.nextBookId == old(db.nextBookId) + 1
      && r == (if analyticsCommitOk then ToManageBooks else ServerError)
      && db.analytics == old(db.analytics) + (if analyticsCommitOk then [NewAnalyticsRow(old(db.nextBookId))] else [])
    ensures db.users == old(db.users) && db.events == old(db.events)
  {
    var gate := AdminGate(who);
    if gate.Some? {
      return gate.value;
    }
    if !Accepted(submitted) {
      return Rendered;
    }
    var f := submitted.value;
    var coverPath := SaveUpload(disk, f.cover, "covers", coverToken, secureFilename);
    var filePath := SaveUpload(disk, f.bookFile, "books", fileToken, secureFilename);
    var book := BookFromForm(f, coverPath, filePath);
    var id := db.nextBookId;
    BookAddedConsistent(db.books, id, db.analytics, db.events, db.users, book);
    if !bookCommitOk {
      return ServerError;
    }
    db.books, db.nextBookId := db.books[id := book], id + 1;
    if !analyticsCommitOk {
      return ServerError;
    }
    db.analytics := db.analytics + [NewAnalyticsRow(id)];
    r := ToManageBooks;
  }

  /**
   * Both commits of `add_book` keep the tables consistent: the id drawn from the
   * sequence is unused and has no analytics row yet.
   */
  lemma BookAddedConsistent(books: map<int, Book>, id: int, analytics: seq<AnalyticsRow>,
                            events: seq<ClickEvent>, users: seq<User>, book: Book)
    requires Consistent(books, id, analytics, events, users)
    ensures id !in books && FindRow(analytics, id).None?
    ensures Consistent(books[id := book], id + 1, analytics, events, users)
    ensures Consistent(books[id := book], id + 1, analytics + [NewAnalyticsRow(id)], events, users)
  {
    NoRowForUnusedId(analytics, books, id);
    NewRowForNewBook(analytics, id);
  }

  /** A book id not in the book table has no analytics row, given the foreign key holds. */
  lemma NoRowForUnusedId(rows: seq<AnalyticsRow>, books: map<int, Book>, id: int)
    requires forall i | 0 <= i < |rows| :: rows[i].bookId in books
    requires id !in books
    ensures FindRow(rows, id).None?
  {
  }

  /**
   * The analytics row `add_book` creates for a book that has none is its only row,
   * with zero counters, and leaves every other book's counters as they were.
   */
  lemma NewRowForNewBook(rows: seq<AnalyticsRow>, id: int)
    requires AtMostOneRowPerBook(rows) && FindRow(rows, id).None?
    ensures var r := rows + [NewAnalyticsRow(id)];
      && AtMostOneRowPerBook(r)
      && FindRow(r, id) == Some(|rows|)
      && CountersOf(r, id) == AnalyticsRow(id, 0, 0, 0)
      && forall other | other != id :: CountersOf(r, other) == CountersOf(rows, other)
  {
    var r := rows + [NewAnalyticsRow(id)];
    FindRowAppend(rows, NewAnalyticsRow(id), id);
    forall other | other != id
      ensures CountersOf(r, other) == CountersOf(rows, other)
    {
      FindRowAppend(rows, NewAnalyticsRow(id), other);
      var k := FindRow(rows, other);
      if k.Some? {
        assert r[k.value] == rows[k.value];
      }
    }
  }

  /**
   * One upload field of `edit_book` (routes.py:182-188 and 191-197): when a new file
   * was sent, delete the stored one if there is one, save the new one and answer its
   * path; otherwise keep the current path and touch no file.
   */
  method ReplaceStoredFile(disk: Disk, current: Option<string>, upload: Option<string>, subfolder: string,
                           token: string, secureFilename: string -> string, removeOk: bool)
    returns (path: Option<string>)
    modifies disk
    ensures path == KeepOrReplace(current, StoredUpload(upload, subfolder, token, secureFilename))
    ensures disk.files == ReplaceUpload(old(disk.files), current, upload, subfolder, token, secureFilename, removeOk)
  {
    path := current;
    if Truthy(upload) {
      if Truthy(current) {
        var _ := DeleteFile(disk, current, removeOk);
      }
      var saved := SaveFile(disk, upload.value, subfolder, token, secureFilename);
      path := Some(saved);
    }
  }

  /**
   * `POST /admin/books/edit/<id>` (routes.py:161-208). After the admin check, the
   * lookup and form validation, the fields are taken from the form; a cover or file
   * upload first deletes the old stored file (a failed delete is ignored), then saves
   * the new one and points the book at it. The commit makes the new row visible, or
   * fails with 500 leaving the old row (and the files already changed).
   */
  method EditBook(db: Database, disk: Disk, who: Principal, bookId: int, submitted: Option<BookForm>,
                  secureFilename: string -> string, coverToken: string, fileToken: string,
                  coverRemoveOk: bool, fileRemoveOk: bool, commitOk: bool)
    returns (r: Response)
    requires db.Valid()
    modifies db, disk
    ensures db.Valid()
    ensures AdminGate(who).Some? ==> r == AdminGate(who).value && unchanged(db) && unchanged(disk)
    ensures AdminGate(who).None? && bookId !in old(db.books) ==> r == NotFound && unchanged(db) && unchanged(disk)
    ensures AdminGate(who).None? && bookId in old(db.books) && !Accepted(submitted) ==>
      r == Rendered && unchanged(db) && unchanged(disk)
    ensures AdminGate(who).None? && bookId in old(db.books) && Accepted(submitted) ==>
      var f := submitted.value;
      var b := old(db.books)[bookId];
      && disk.files == ReplaceUpload(
           ReplaceUpload(old(disk.files), b.coverPath, f.cover, "covers", coverToken, secureFilename, coverRemoveOk),
           b.filePath, f.bookFile, "books", fileToken, secureFilename, fileRemoveOk)
      && db.books == (if commitOk then old(db.books)[bookId := EditedBook(b, f, coverToken, fileToken, secureFilename)]
                      else old(db.books))
      && r == (if commitOk then ToManageBooks else ServerError)
    ensures db.analytics == old(db.analytics) && db.events == old(db.events)
    ensures db.users == old(db.users) && db.nextBookId == old(db.nextBookId)
  {
    var gate := AdminGate(who);
    if gate.Some? {
      return gate.value;
    }
    if bookId !in db.books {
      return NotFound;
    }
    if !Accepted(submitted) {
      return Rendered;
    }
    var f := submitted.value;
    var current := db.books[bookId];
    var coverPath := ReplaceStoredFile(disk, current.coverPath, f.cover, "covers", coverToken, secureFilename, coverRemoveOk);
    var filePath := ReplaceStoredFile(disk, current.filePath, f.bookFile, "books", fileToken, secureFilename, fileRemoveOk);
    var book := BookFromForm(f, coverPath, filePath);
    if !commitOk {
      return ServerError;
    }
    db.books := db.books[bookId := book];
    r := ToManageBooks;
  }

  /** `BookAnalytics.query.filter_by(book_id=...).delete()`: the rows of other books. */
  function RowsWithout(rows: seq<AnalyticsRow>, bookId: int): (r: seq<AnalyticsRow>)
    ensures forall x :: x in r <==> x in rows && x.bookId != bookId
  {
    if rows == [] then []
    else (if rows[0].bookId == bookId then [] else [rows[0]]) + RowsWithout(rows[1..], bookId)
  }

  /** `ClickEvent.query.filter_by(book_id=...).delete()`: the events of other books. */
  function EventsWithout(events: seq<ClickEvent>, bookId: int): (r: seq<ClickEvent>)
    ensures forall e :: e in r <==> e in events && e.bookId != bookId
  {
    if events == [] then []
    else (if events[0].bookId == bookId then [] else [events[0]]) + EventsWithout(events[1..], bookId)
  }

  /** Deleting one book's rows keeps the table at most one row per book. */
  lemma {:induction false} RowsWithoutUnique(rows: seq<AnalyticsRow>, bookId: int)
    requires AtMostOneRowPerBook(rows)
    ensures AtMostOneRowPerBook(RowsWithout(rows, bookId))
  {
    if rows != [] {
      var tail := rows[1..];
      assert AtMostOneRowPerBook(tail) by {
        forall i, j | 0 <= i < j < |tail| ensures tail[i].bookId != tail[j].bookId {
          assert tail[i] == rows[i + 1] && tail[j] == rows[j + 1];
        }
      }
      RowsWithoutUnique(tail, bookId);
      var rest := RowsWithout(tail, bookId);
      if rows[0].bookId != bookId {
        var r := [rows[0]] + rest;
        forall j | 0 < j < |r| ensures r[0].bookId != r[j].bookId {
          assert r[j] in rest;
          assert r[j] in tail;
          var k :| 0 <= k < |tail| && tail[k] == r[j];
          assert rows[k + 1] == r[j];
        }
        assert RowsWithout(rows, bookId) == r;
      } else {
        assert RowsWithout(rows, bookId) == [] + rest;
      }
    }
  }

  /** In a table with at most one row per book, a row present in it is the one its book shows. */
  lemma CountersOfMember(rows: seq<AnalyticsRow>, x: AnalyticsRow)
    requires AtMostOneRowPerBook(rows) && x in rows
    ensures CountersOf(rows, x.bookId) == x
  {
    var i :| 0 <= i < |rows| && rows[i] == x;
    FindRowAt(rows, i);
  }

  /**
   * The analytics side of the delete cascade: the deleted book keeps no row (it
   * shows zero counters again) and every other book shows the counters it had.
   */
  lemma DeleteCascadeCounters(rows: seq<AnalyticsRow>, bookId: int, other: int)
    requires AtMostOneRowPerBook(rows)
    ensures FindRow(RowsWithout(rows, bookId), bookId).None?
    ensures other != bookId ==> CountersOf(RowsWithout(rows, bookId), other) == CountersOf(rows, other)
  {
    var r := RowsWithout(rows, bookId);
    RowsWithoutUnique(rows, bookId);
    if other != bookId {
      match FindRow(rows, other)
      case Some(i) =>
        assert rows[i] in r;
        CountersOfMember(r, rows[i]);
      case None =>
    }
  }

  /**
   * The event side of the delete cascade: the deleted book's log is empty and every
   * other book's log is unchanged, order included.
   */
  lemma {:induction false} DeleteCascadeEvents(events: seq<ClickEvent>, bookId: int, other: int)
    ensures EventsOf(EventsWithout(events, bookId), bookId) == []
    ensures other != bookId ==> EventsOf(EventsWithout(events, bookId), other) == EventsOf(events, other)
  {
    if events != [] {
      DeleteCascadeEvents(events[1..], bookId, other);
      var rest := EventsWithout(events[1..], bookId);
      if events[0].bookId != bookId {
        var r := [events[0]] + rest;
        assert r[0] == events[0] && r[1..] == rest;
        assert EventsWithout(events, bookId) == r;
        assert EventsOf(r, bookId) == EventsOf(rest, bookId);
      } else {
        assert EventsWithout(events, bookId) == [] + rest;
        assert [] + rest == rest;
        assert other != bookId ==> EventsOf(events, other) == [] + EventsOf(events[1..], other);
      }
    }
  }

  /** The delete cascade keeps the tables consistent: nothing is left pointing at the deleted book. */
  lemma BookDeletedConsistent(books: map<int, Book>, nextBookId: int, analytics: seq<AnalyticsRow>,
                              events: seq<ClickEvent>, users: seq<User>, bookId: int)
    requires Consistent(books, nextBookId, analytics, events, users)
    ensures Consistent(books - {bookId}, nextBookId, RowsWithout(analytics, bookId), EventsWithout(events, bookId), users)
  {
    var rows, log, remaining := RowsWithout(analytics, bookId), EventsWithout(events, bookId), books - {bookId};
    RowsWithoutUnique(analytics, bookId);
    forall i | 0 <= i < |rows| ensures rows[i].bookId in remaining {
      assert rows[i] in analytics;
    }
    forall i | 0 <= i < |log| ensures log[i].bookId in remaining {
      assert log[i] in events;
    }
  }

  /**
   * `POST /admin/books/delete/<id>` (routes.py:211-235). After the admin check and the
   * lookup, the stored cover and book file are deleted (failures ignored), then the
   * book's analytics rows, its click events and the book itself go in one commit.
   * A failed commit keeps the rows and answers 500; the files are gone either way.
   */
  method DeleteBook(db: Database, disk: Disk, who: Principal, bookId: int,
                    coverRemoveOk: bool, fileRemoveOk: bool, commitOk: bool)
    returns (r: Response)
    requires db.Valid()
    modifies db, disk
    ensures db.Valid()
    ensures AdminGate(who).Some? ==> r == AdminGate(who).value && unchanged(db) && unchanged(disk)
    ensures AdminGate(who).None? && bookId !in old(db.books) ==> r == NotFound && unchanged(db) && unchanged(disk)
    ensures AdminGate(who).None? && bookId in old(db.books) ==>
      var b := old(db.books)[bookId];
      && disk.files == Removed(Removed(old(disk.files), b.coverPath, coverRemoveOk), b.filePath, fileRemoveOk)
      && r == (if commitOk then ToManageBooks else ServerError)
      && (commitOk ==> db.books == old(db.books) - {bookId}
                       && db.analytics == RowsWithout(old(db.analytics), bookId)
                       && db.events == EventsWithout(old(db.events), bookId))
      && (!commitOk ==> db.books == old(db.books) && db.analytics == old(db.analytics) && db.events == old(db.events))
    ensures db.users == old(db.users) && db.nextBookId == old(db.nextBookId)
  {
    var gate := AdminGate(who);
    if gate.Some? {
      return gate.value;
    }
    if bookId !in db.books {
      return NotFound;
    }
    var book := db.books[bookId];
    if Truthy(book.coverPath) {
      var _ := DeleteFile(disk, book.coverPath, coverRemoveOk);
    }
    if Truthy(book.filePath) {
      var _ := DeleteFile(disk, book.filePath, fileRemoveOk);
    }
    var rows := RowsWithout(db.analytics, bookId);
    var log := EventsWithout(db.events, bookId);
    var remaining := db.books - {bookId};
    if !commitOk {
      return ServerError;
    }
    BookDeletedConsistent(db.books, db.nextBookId, db.analytics, db.events, db.users, bookId);
    db.books, db.analytics, db.events := remaining, rows, log;
    r := ToManageBooks;
  }
}
