/**
 * The helpers of utils.py: storing and deleting uploaded files, and the analytics
 * recorder that bumps a book's counter and appends a click event in one commit.
 */
module Utils {
  import opened Wrappers
  import opened Models

  // ------------------------------------------------------------------ file storage

  const StaticFolder: string := "static"
  /** Where uploads are written (app.py:39). */
  const UploadFolder: string := "static/uploads"

  /** `os.path.join` of a directory and a relative name. */
  function Join(dir: string, name: string): string
  {
    dir + "/" + name
  }

  /** The stored file name: the random token, an underscore, the sanitised client name. */
  function UniqueFilename(token: string, safeName: string): string
  {
    token + "_" + safeName
  }

  /** The path `save_file` returns, relative to the static folder. */
  function SavedPath(subfolder: string, token: string, safeName: string): string
  {
    Join(Join("uploads", subfolder), UniqueFilename(token, safeName))
  }

  /** The path `save_file` writes to. */
  function WrittenPath(subfolder: string, token: string, safeName: string): string
  {
    Join(Join(UploadFolder, subfolder), UniqueFilename(token, safeName))
  }

  /** The file `delete_file` would remove for a stored path: none for a missing or empty path. */
  function DeleteTarget(path: Option<string>): Option<string>
  {
    if Truthy(path) then Some(Join(StaticFolder, path.value)) else None
  }

  /** The files left after `delete_file(path)`; a removal that raises leaves them all. */
  function Removed(files: set<string>, path: Option<string>, removeOk: bool): set<string>
  {
    if DeleteTarget(path).Some? && removeOk then files - {DeleteTarget(path).value} else files
  }

  /** The path handed back by `save_file` names, under the static folder, the file it wrote. */
  lemma SavedPathLocatesFile(subfolder: string, token: string, safeName: string)
    ensures DeleteTarget(Some(SavedPath(subfolder, token, safeName))) == Some(WrittenPath(subfolder, token, safeName))
  {
    var n := UniqueFilename(token, safeName);
    var p := SavedPath(subfolder, token, safeName);
    assert p == "uploads" + ("/" + subfolder + "/" + n);
    assert Join(StaticFolder, p) == (StaticFolder + "/" + "uploads") + ("/" + subfolder + "/" + n);
    assert StaticFolder + "/" + "uploads" == UploadFolder;
    assert |p| > 0 && Truthy(Some(p));
    assert WrittenPath(subfolder, token, safeName) == UploadFolder + ("/" + subfolder + "/" + n);
  }

  /**
   * Tokens of one length (uuid4 hex strings are all 32 characters) make stored paths
   * collision-free: two saves into one subfolder give the same path only when both
   * the token and the sanitised name are the same.
   */
  lemma SavedPathsDistinct(subfolder: string, t1: string, n1: string, t2: string, n2: string)
    requires |t1| == |t2|
    ensures SavedPath(subfolder, t1, n1) == SavedPath(subfolder, t2, n2) <==> t1 == t2 && n1 == n2
  {
    var pre := Join("uploads", subfolder) + "/";
    var p1, p2 := SavedPath(subfolder, t1, n1), SavedPath(subfolder, t2, n2);
    assert p1 == pre + t1 + "_" + n1;
    assert p2 == pre + t2 + "_" + n2;
    if p1 == p2 {
      assert t1 == p1[|pre|..|pre| + |t1|];
      assert t2 == p2[|pre|..|pre| + |t2|];
      assert n1 == p1[|pre| + |t1| + 1..];
      assert n2 == p2[|pre| + |t2| + 1..];
    }
  }

  /**
   * `save_file` (utils.py:9-27): writes the upload under its subfolder with a
   * token-prefixed sanitised name and returns the path relative to the static folder.
   * The name sanitiser and the random token come from outside.
   */
  method SaveFile(disk: Disk, filename: string, subfolder: string, token: string, secureFilename: string -> string)
    returns (path: string)
    modifies disk
    ensures path == SavedPath(subfolder, token, secureFilename(filename))
    ensures disk.files == old(disk.files) + {WrittenPath(subfolder, token, secureFilename(filename))}
  {
    var safeName := secureFilename(filename);
    var uniqueFilename := UniqueFilename(token, safeName);
    var uploadPath := Join(UploadFolder, subfolder);
    disk.files := disk.files + {Join(uploadPath, uniqueFilename)};
    path := Join(Join("uploads", subfolder), uniqueFilename);
  }

  /**
   * `delete_file` (utils.py:29-39): removes the file under the static folder and
   * answers true only when an existing file was removed; an empty path, a missing
   * file or a failing removal (`removeOk` false) answer false and change nothing.
   */
  method DeleteFile(disk: Disk, path: Option<string>, removeOk: bool) returns (deleted: bool)
    modifies disk
    ensures deleted <==> DeleteTarget(path).Some? && DeleteTarget(path).value in old(disk.files) && removeOk
    ensures deleted ==> DeleteTarget(path).value !in disk.files
    ensures disk.files == Removed(old(disk.files), path, removeOk)
  {
    deleted := false;
    if Truthy(path) && Join(StaticFolder, path.value) in disk.files {
      if removeOk {
        disk.files := disk.files - {Join(StaticFolder, path.value)};
        deleted := true;
      }
    }
  }

  // ------------------------------------------------------------------ analytics recorder

  /** The three counters of an analytics row. */
  datatype Counter = Views | Downloads | Shares

  /** The counter an event kind belongs to; other kinds belong to none. */
  function CounterFor(eventType: string): Option<Counter>
  {
    if eventType == "view" then Some(Views)
    else if eventType == "download" then Some(Downloads)
    else if eventType == "share" then Some(Shares)
    else None
  }

  function Count(row: AnalyticsRow, c: Counter): nat
  {
    match c
    case Views => row.viewCount
    case Downloads => row.downloadCount
    case Shares => row.shareCount
  }

  /** The counter update of utils.py:53-58. */
  function Bump(row: AnalyticsRow, eventType: string): AnalyticsRow
  {
    if eventType == "view" then row.(viewCount := row.viewCount + 1)
    else if eventType == "download" then row.(downloadCount := row.downloadCount + 1)
    else if eventType == "share" then row.(shareCount := row.shareCount + 1)
    else row
  }

  /** Exactly the counter matching the event kind rises by one; an unknown kind changes nothing. */
  lemma BumpCounts(row: AnalyticsRow, eventType: string)
    ensures Bump(row, eventType).bookId == row.bookId
    ensures forall c :: Count(Bump(row, eventType), c) == Count(row, c) + (if CounterFor(eventType) == Some(c) then 1 else 0)
  {
  }

  /** `BookAnalytics.query.filter_by(book_id=...).first()`: the first row of the book. */
  function FindRow(rows: seq<AnalyticsRow>, bookId: int): (r: Option<nat>)
    ensures r.Some? ==> r.value < |rows| && rows[r.value].bookId == bookId
    ensures r.Some? ==> forall j | 0 <= j < r.value :: rows[j].bookId != bookId
    ensures r.None? ==> forall j | 0 <= j < |rows| :: rows[j].bookId != bookId
  {
    if |rows| == 0 then None
    else if rows[0].bookId == bookId then Some(0)
    else match FindRow(rows[1..], bookId)
      case None => None
      case Some(k) => Some(k + 1)
  }

  /** The book's counters as the store shows them: its row, or all zeros when it has none. */
  function CountersOf(rows: seq<AnalyticsRow>, bookId: int): AnalyticsRow
  {
    match FindRow(rows, bookId)
    case Some(i) => rows[i]
    case None => NewAnalyticsRow(bookId)
  }

  /** The analytics table after one recorded event: get or create the book's row, then bump it. */
  function RecordRows(rows: seq<AnalyticsRow>, bookId: int, eventType: string): seq<AnalyticsRow>
  {
    match FindRow(rows, bookId)
    case Some(i) => rows[i := Bump(rows[i], eventType)]
    case None => rows + [Bump(NewAnalyticsRow(bookId), eventType)]
  }

  /** With unique rows, the row of a book found anywhere is the one `FindRow` returns. */
  lemma FindRowAt(rows: seq<AnalyticsRow>, i: nat)
    requires AtMostOneRowPerBook(rows) && i < |rows|
    ensures FindRow(rows, rows[i].bookId) == Some(i)
  {
  }

  /** `FindRow` depends only on the sequence of book ids. */
  lemma FindRowSameIds(r1: seq<AnalyticsRow>, r2: seq<AnalyticsRow>, bookId: int)
    requires |r1| == |r2|
    requires forall j | 0 <= j < |r1| :: r1[j].bookId == r2[j].bookId
    ensures FindRow(r1, bookId) == FindRow(r2, bookId)
  {
  }

  /** Appending a row only adds a match for a book that had none. */
  lemma FindRowAppend(rows: seq<AnalyticsRow>, x: AnalyticsRow, bookId: int)
    ensures FindRow(rows + [x], bookId) ==
      if FindRow(rows, bookId).Some? then FindRow(rows, bookId)
      else if x.bookId == bookId then Some(|rows|)
      else None
  {
    var s := rows + [x];
    var f, g := FindRow(rows, bookId), FindRow(s, bookId);
    if f.Some? {
      assert s[f.value] == rows[f.value];
    } else if x.bookId == bookId {
      assert s[|rows|] == x;
    }
  }

  /**
   * The shape of the table after `RecordRows`: a row is created only when the book
   * had none, every row either belongs to the book or is unchanged, and the table
   * still holds at most one row per book.
   */
  lemma RecordRowsShape(rows: seq<AnalyticsRow>, bookId: int, eventType: string)
    requires AtMostOneRowPerBook(rows)
    ensures var r := RecordRows(rows, bookId, eventType);
      && AtMostOneRowPerBook(r)
      && |r| == |rows| + (if FindRow(rows, bookId).None? then 1 else 0)
      && (forall j | 0 <= j < |r| :: r[j].bookId == bookId || (j < |rows| && r[j] == rows[j]))
  {
    var r := RecordRows(rows, bookId, eventType);
    match FindRow(rows, bookId)
    case Some(i) =>
      BumpCounts(rows[i], eventType);
      assert forall j | 0 <= j < |r| :: r[j].bookId == rows[j].bookId;
    case None =>
      BumpCounts(NewAnalyticsRow(bookId), eventType);
      assert r[|rows|].bookId == bookId;
      assert forall j | 0 <= j < |rows| :: r[j] == rows[j];
  }

  /**
   * The recorder's effect on the counters the store shows: the book's counters are
   * its previous counters (zeros if it had no row) bumped once by the event kind,
   * and every other book's counters are unchanged.
   */
  lemma RecordRowsCounters(rows: seq<AnalyticsRow>, bookId: int, eventType: string, other: int)
    requires AtMostOneRowPerBook(rows)
    ensures CountersOf(RecordRows(rows, bookId, eventType), bookId) == Bump(CountersOf(rows, bookId), eventType)
    ensures other != bookId ==> CountersOf(RecordRows(rows, bookId, eventType), other) == CountersOf(rows, other)
  {
    var r := RecordRows(rows, bookId, eventType);
    match FindRow(rows, bookId)
    case Some(i) =>
      BumpCounts(rows[i], eventType);
      assert forall j | 0 <= j < |r| :: r[j].bookId == rows[j].bookId;
      FindRowSameIds(r, rows, bookId);
      FindRowSameIds(r, rows, other);
    case None =>
      BumpCounts(NewAnalyticsRow(bookId), eventType);
      FindRowAppend(rows, Bump(NewAnalyticsRow(bookId), eventType), bookId);
      FindRowAppend(rows, Bump(NewAnalyticsRow(bookId), eventType), other);
      var f := FindRow(rows, other);
      if f.Some? {
        assert r[f.value] == rows[f.value];
      }
  }

  /**
   * The recorder as utils.py:46-58 is written: a row it creates for a book without one
   * has no counter values until the INSERT applies the column defaults, so bumping a
   * counter of it adds one to nothing and raises, and the call is rolled back (None).
   * An unknown kind touches no counter, and the new row is inserted with zeros.
   */
  function RecordRowsAsWritten(rows: seq<AnalyticsRow>, bookId: int, eventType: string): Option<seq<AnalyticsRow>>
  {
    match FindRow(rows, bookId)
    case Some(i) => Some(rows[i := Bump(rows[i], eventType)])
    case None => if CounterFor(eventType).Some? then None else Some(rows + [NewAnalyticsRow(bookId)])
  }

  /**
   * The recorder as written fails exactly for a counted kind on a book without a row;
   * whenever it succeeds, it leaves the table the intended `RecordRows` describes.
   */
  lemma AsWrittenAgreesWithIntended(rows: seq<AnalyticsRow>, bookId: int, eventType: string)
    ensures RecordRowsAsWritten(rows, bookId, eventType).None? <==>
      FindRow(rows, bookId).None? && CounterFor(eventType).Some?
    ensures RecordRowsAsWritten(rows, bookId, eventType).Some? ==>
      RecordRowsAsWritten(rows, bookId, eventType).value == RecordRows(rows, bookId, eventType)
  {
    if FindRow(rows, bookId).None? && CounterFor(eventType).None? {
      assert Bump(NewAnalyticsRow(bookId), eventType) == NewAnalyticsRow(bookId);
    }
  }

  /**
   * The inputs that show the difference: the first `download` of a book without a row
   * is lost by the recorder as written, where the intended table gains the row
   * views 0, downloads 1, shares 0.
   */
  lemma FirstDownloadFailsAsWritten(rows: seq<AnalyticsRow>, bookId: int)
    requires FindRow(rows, bookId).None?
    ensures RecordRowsAsWritten(rows, bookId, "download").None?
    ensures RecordRows(rows, bookId, "download") == rows + [AnalyticsRow(bookId, 0, 1, 0)]
  {
  }

  /** A first `download` of a book without a row, as intended: views 0, downloads 1, shares 0. */
  lemma FirstDownload(rows: seq<AnalyticsRow>, bookId: int)
    requires AtMostOneRowPerBook(rows)
    requires FindRow(rows, bookId).None?
    ensures var r := RecordRows(rows, bookId, "download");
      |r| == |rows| + 1 && CountersOf(r, bookId) == AnalyticsRow(bookId, 0, 1, 0)
  {
    RecordRowsShape(rows, bookId, "download");
    RecordRowsCounters(rows, bookId, "download", bookId);
  }

  /** The log of one book, in the order its events were appended. */
  function EventsOf(events: seq<ClickEvent>, bookId: int): (r: seq<ClickEvent>)
    ensures forall e :: e in r <==> e in events && e.bookId == bookId
  {
    if events == [] then []
    else (if events[0].bookId == bookId then [events[0]] else []) + EventsOf(events[1..], bookId)
  }

  /** Appending an event extends the log of its own book by that event and no other log. */
  lemma {:induction false} EventsOfAppend(events: seq<ClickEvent>, e: ClickEvent, bookId: int)
    ensures EventsOf(events + [e], bookId) == EventsOf(events, bookId) + (if e.bookId == bookId then [e] else [])
  {
    if events == [] {
      assert [] + [e] == [e];
    } else {
      assert (events + [e])[0] == events[0];
      assert (events + [e])[1..] == events[1..] + [e];
      EventsOfAppend(events[1..], e, bookId);
    }
  }

  /** Recording an event for an existing book keeps the tables consistent. */
  lemma RecordedConsistent(books: map<int, Book>, nextBookId: int, analytics: seq<AnalyticsRow>,
                           events: seq<ClickEvent>, users: seq<User>, e: ClickEvent)
    requires Consistent(books, nextBookId, analytics, events, users) && e.bookId in books
    ensures Consistent(books, nextBookId, RecordRows(analytics, e.bookId, e.eventType), events + [e], users)
  {
    RecordRowsShape(analytics, e.bookId, e.eventType);
  }

  /**
   * `increment_analytics` (utils.py:41-76). The session's pending state is built step
   * by step: get or create the book's row, bump the counter that matches the event
   * kind, append the click event. A row created here has no counter values until it
   * is inserted, so bumping one of them raises. The commit then either makes all of
   * it visible or, when something raised or the store refuses (`storeOk` false, or a
   * book id that violates the foreign key), rolls all of it back and answers false.
   */
  method IncrementAnalytics(db: Database, bookId: int, eventType: string, meta: RequestMeta, storeOk: bool)
    returns (ok: bool)
    requires db.Valid()
    modifies db
    ensures db.Valid()
    ensures ok <==> storeOk && bookId in old(db.books) && RecordRowsAsWritten(old(db.analytics), bookId, eventType).Some?
    ensures ok ==> Some(db.analytics) == RecordRowsAsWritten(old(db.analytics), bookId, eventType)
    ensures ok ==> db.analytics == RecordRows(old(db.analytics), bookId, eventType)
    ensures ok ==> db.events == old(db.events) + [ClickEvent(bookId, eventType, meta)]
    ensures !ok ==> db.analytics == old(db.analytics) && db.events == old(db.events)
    ensures db.books == old(db.books) && db.users == old(db.users) && db.nextBookId == old(db.nextBookId)
  {
    var rows := db.analytics;
    var i: nat;
    var created := false;
    match FindRow(rows, bookId) {
      case Some(k) =>
        i := k;
      case None =>
        rows := rows + [NewAnalyticsRow(bookId)];
        i := |rows| - 1;
        created := true;
    }
    var raised := false;
    var row := rows[i];
    if eventType == "view" {
      if created { raised := true; } else { row := row.(viewCount := row.viewCount + 1); }
    } else if eventType == "download" {
      if created { raised := true; } else { row := row.(downloadCount := row.downloadCount + 1); }
    } else if eventType == "share" {
      if created { raised := true; } else { row := row.(shareCount := row.shareCount + 1); }
    }
    rows := rows[i := row];
    var log := db.events + [ClickEvent(bookId, eventType, meta)];

    AsWrittenAgreesWithIntended(db.analytics, bookId, eventType);
    ok := !raised && storeOk && bookId in db.books;
    if ok {
      assert rows == RecordRows(db.analytics, bookId, eventType);
      RecordedConsistent(db.books, db.nextBookId, db.analytics, db.events, db.users, ClickEvent(bookId, eventType, meta));
      db.analytics, db.events := rows, log;
    }
  }
}
