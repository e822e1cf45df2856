# Digital library: a Dafny model of its analytics, request handling, forms and configuration

The library is a small Flask/SQLAlchemy web application. It keeps a catalog of books, which may have a cover image, a downloadable file or an external URL. It has an admin area for managing the catalog and per-book usage analytics. This project models the logic behind the ORM over an abstract in-memory store and proves properties of that model. The store is:

- a book table (`map<int, Book>`) with its id sequence;
- an analytics table (`seq<AnalyticsRow>`) with three counters per row;
- an append-only click-event log (`seq<ClickEvent>`);
- a users table (`seq<User>`);
- the upload folder, as the set of file paths that exist.

Modules, one per source file:

- `Wrappers` (wrappers.dfy): `Option` and Python truthiness of an optional string.
- `Models` (models.dfy): the rows of models.py and the `Database` and `Disk` classes. `Database.Valid()` is the table invariant `Consistent`:
  - at most one analytics row per book;
  - the foreign keys of analytics rows and click events point at existing books;
  - book ids come from the sequence;
  - usernames and emails are unique.
- `Config` (config.dfy): the secret-key fallback chain and the `postgres://` to `postgresql://` rewrite of app.py.
- `Forms` (forms.dfy): the validator lists of forms.py as data, plus an interpreter that runs a list the way the form library does. Lemmas read off the plain rule each field enforces.
- `Utils` (utils.dfy): `save_file`, `delete_file` and the analytics recorder `increment_analytics` of utils.py. The recorder is an imperative method that follows the code as written. It is proved against the function `RecordRowsAsWritten`. Whenever the recorder succeeds, that table equals the intended table `RecordRows`, whose properties are proved as lemmas (see Findings for where the two differ).
- `Routes` (routes.dfy): the request handlers of routes.py: the access gate, the login decision, `track_event`, and the public book routes. It also holds the admin add/edit/delete handlers, as methods over `Database` and `Disk`.
- `Provisioning` (provisioning.dfy): `create_admin_user` of setup_railway_admin.py, a get-or-create keyed by username.

Some outcomes depend on the outside world. Each of these is a parameter:

- whether a commit succeeds, or whether a file removal raises (`storeOk`, `commitOk`, `removeOk`);
- the name sanitiser (`secureFilename`);
- the random upload token;
- the password hash and password check;
- request metadata (user agent, IP address, referrer).

On top of a failed-commit flag, the store enforces two sets of constraints declared in models.py: the foreign keys to `book.id` (models.py:40, 49) and the unique username and email (models.py:8-9). A commit that violates one of them fails the way any other failed commit does.

Behaviours of the code worth knowing, which the model keeps:

- `increment_analytics` does not check that the book exists. Here the foreign key makes the commit fail instead.
- `delete_book` deletes the stored files before its commit, and a failed delete is ignored. So a file can be gone while the book row stays (commit failed), or stay while the row is gone (removal failed).

## Model

| member | source | states |
|---|---|---|
| Models.FindUser | setup_railway_admin.py:9-10 | the lookup by username gives the first user with that name, and none exactly when no user has it |
| Config.NormalizeDatabaseUrl | app.py:29-31 | an unset URL stays unset, and a set one stays set; the result never starts with `postgres://` |
| Config.PostgresUrlRewritten | app.py:30-31 | a URL starting with `postgres://` becomes `postgresql://` followed by the unchanged rest of the URL (only the first occurrence is replaced) |
| Config.OtherUrlsUnchanged | app.py:30 | an absent URL, or one that does not start with `postgres://`, is returned unchanged |
| Config.PostgresqlUrlUnchanged | app.py:30 | a URL already using `postgresql://` is returned unchanged |
| Config.NormalizeIdempotent | app.py:29-31 | rewriting twice gives the same result as rewriting once |
| Config.NormalizeReversible | app.py:31 | the rewritten URL starts with `postgresql://`, and putting `postgres://` back in front of its rest recovers the original |
| Config.SecretKey | app.py:26 | the secret key is never empty, and it is one of SECRET_KEY, SESSION_SECRET or the built-in default |
| Config.SecretKeyPrecedence | app.py:26 | SECRET_KEY if set and non-empty, else SESSION_SECRET if set and non-empty, else `change_me_in_production` |
| Forms.LoginFormRule | forms.py:6-8 | the login form is valid exactly when username and password are both non-empty |
| Forms.RequiredTextRule | forms.py:12-13 | a required text field limited to 255 characters accepts exactly the non-empty texts of at most 255 characters (title, author) |
| Forms.OptionalTextRule | forms.py:23-26 | an optional text field with a length limit accepts exactly the texts within the limit, the empty text included (book URL 500, publisher 255, ISBN 20) |
| Forms.OptionalUploadRule | forms.py:15-22 | an optional upload is valid exactly when no file was sent or its name ends in `.` plus an allowed extension |
| Forms.YearRule | forms.py:25 | the year is valid exactly when it is blank or lies in 1000..3000 inclusive |
| Forms.CategoryRule | forms.py:27-37 | the category is valid exactly when it is one of the nine listed values |
| Forms.BookFormValidIff | forms.py:11-38 | running the declared validator lists accepts a book form exactly when the plainly written rules `BookFormRules` hold |
| Utils.SavedPathLocatesFile | utils.py:19-27 | the path `save_file` returns, joined under `static` as `delete_file` does, is the file it wrote |
| Utils.SavedPathsDistinct | utils.py:14-27 | for tokens of one length (uuid hex), two saved paths in one subfolder are equal only when the tokens and the sanitised names are equal, so distinct tokens never collide |
| Utils.SaveFile | utils.py:9-27 | returns `uploads/<subfolder>/<token>_<sanitised name>` and adds exactly the written file to the upload folder |
| Utils.DeleteFile | utils.py:29-39 | answers true exactly when the path is non-empty, the file exists under `static` and its removal succeeds, and the file is then gone; otherwise answers false and removes nothing |
| Utils.BumpCounts | utils.py:53-58 | for `view`, `download` or `share`, exactly the matching counter rises by one; any other kind changes no counter; the row's book is kept |
| Utils.FindRow | utils.py:47 | the analytics lookup gives the first row of the book, and none exactly when the book has no row |
| Utils.RecordRowsShape | utils.py:46-58 | for the intended table, which is what the recorder commits whenever it succeeds: a row is created only when the book had none (length grows by one, else stays the same); every row belongs to the book or is unchanged; at most one row per book is preserved |
| Utils.RecordRowsCounters | utils.py:46-58 | for the intended table, which is what the recorder commits whenever it succeeds: after recording, the book's counters are its previous counters (zeros if it had no row) bumped once by the event kind, and every other book's counters are unchanged |
| Utils.FirstDownload | utils.py:47-58 | in the intended table, a first `download` for a book without a row adds one row with view 0, download 1 and share 0 (the code as written loses this event; see Findings) |
| Utils.AsWrittenAgreesWithIntended | utils.py:46-58 | the recorder as written fails exactly when the book has no row and the kind is `view`, `download` or `share`; whenever it succeeds, its table is the intended `RecordRows` table |
| Utils.FirstDownloadFailsAsWritten | utils.py:49-56 | on any table without the book's row, the recorder as written fails on `download`, where the intended table gains exactly the row view 0, download 1, share 0 at its end |
| Utils.EventsOfAppend | utils.py:61-68 | appending an event extends its own book's log by exactly that event and leaves every other book's log as it was |
| Utils.RecordedConsistent | utils.py:46-71 | recording an event for an existing book keeps the tables consistent |
| Utils.IncrementAnalytics | utils.py:41-76 | succeeds exactly when the store accepts the commit, the book exists and the counter update does not raise; it raises when the book has no row yet and the kind names a counter. On success the table is `RecordRows` of the old one and exactly one event with the given book, kind and metadata is appended after the earlier events. On failure the table and the log are as before and the answer is false. Books and users never change |
| Routes.AdminGateRule | routes.py:86-89 | only a signed-in admin passes the gate of the admin routes (the same check is at routes.py:109-110, 119-120, 164-165, 214-215, 241-242); a signed-in non-admin always gets 403 |
| Routes.LoginAcceptance | routes.py:64-72 | a valid submission logs in exactly when some user has that name, the password checks and the user is an admin; every other case gets the same generic error |
| Routes.TrackEvent | routes.py:259-279 | a missing or falsy book id (0 included) or event kind gives 400 before anything else; an unknown book gives 404; otherwise 200 if the recorder succeeds and 500 if it fails (including the first counted event of a book without an analytics row); only a 200 changes the analytics table and the log |
| Routes.DownloadPrecedence | routes.py:34-46 | if the file path is set, the file under `static` is served when it exists, and 404 is given when it does not, never the URL; else the external URL is followed if set; else the book is reported not available |
| Routes.DownloadBook | routes.py:27-46 | an unknown book gives 404 and nothing is recorded. Otherwise the reply is the dispatch of `DownloadTarget` against the files that exist, so a missing stored file gives 404. A `download` event is recorded first, exactly when the store accepts it and the recorder as written does not fail; a failure to record is ignored and changes nothing |
| Routes.ViewBook | routes.py:19-24 | an unknown book gives 404; otherwise the page is shown, and a `view` event is recorded exactly when the store accepts it and the recorder as written does not fail |
| Routes.ShareBook | routes.py:49-56 | an unknown book gives 404; otherwise a `share` event is recorded exactly when the store accepts it and the recorder as written does not fail, and the reply is success even when recording failed |
| Routes.SaveUpload | routes.py:136-144 | an upload that was sent is saved, and the book gets its stored path; with no upload, no file is written and the path stays unset |
| Routes.AddBook | routes.py:116-158 | a non-admin gets 403 (anonymous: login) and an invalid form is shown again, both with no change. Otherwise the uploads are written and the book is committed under the next unused id. A second commit adds exactly one zero-counter analytics row for it. A failed commit rolls back its own writes and gives 500 |
| Routes.BookAddedConsistent | routes.py:146-153 | the id drawn for a new book is unused and has no analytics row, and both commits of `add_book` keep the tables consistent |
| Routes.NewRowForNewBook | routes.py:150-153 | the row `add_book` creates is the book's only row and has zero counters; other books' counters are unchanged |
| Routes.EditReplacesOnlyUploaded | routes.py:171-197 | an edit takes every other column from the form (the row is `BookFromForm` of the form and the two paths); the cover or file path is replaced by the new upload's path only when one is sent, otherwise the old path is kept |
| Routes.ReplaceStoredFile | routes.py:181-197 | when a new file is sent, the old stored file is deleted (if set) and the new one written; without an upload no file changes |
| Routes.EditBook | routes.py:161-208 | a non-admin gets 403, an unknown book 404, and an invalid form is shown again, all with no change. Otherwise the files are replaced per upload, and the commit stores `EditedBook` or fails with 500, leaving the row. Analytics, events and users never change |
| Routes.RowsWithout | routes.py:227 | the analytics rows left are exactly those of other books |
| Routes.EventsWithout | routes.py:228 | the click events left are exactly those of other books |
| Routes.RowsWithoutUnique | routes.py:227 | deleting one book's rows keeps at most one row per book |
| Routes.DeleteCascadeCounters | routes.py:226-227 | after the cascade the deleted book has no analytics row, and every other book shows the counters it had |
| Routes.DeleteCascadeEvents | routes.py:228 | after the cascade the deleted book's log is empty, and every other book's log is unchanged, order included |
| Routes.BookDeletedConsistent | routes.py:226-232 | the delete cascade leaves no row or event pointing at the deleted book, and the tables stay consistent |
| Routes.DeleteBook | routes.py:211-235 | a non-admin gets 403 and an unknown book 404, with no change. Otherwise the stored cover and file are deleted (failures ignored). Then one commit removes the book, its analytics rows and its click events, touching nothing of other books; or it fails with 500 and keeps them |
| Provisioning.AppendUserKeepsUnique | models.py:8-9 | a user with a fresh username and a fresh email can be added without breaking the unique constraints |
| Provisioning.CreateAdminUser | setup_railway_admin.py:5-30 | an existing username answers true and leaves the users table unchanged. Otherwise exactly one admin user with the given name, email and the hash of the password is appended, and no other user changes. A refused commit, including an email already in use, answers false and persists no user |
| Provisioning.ProvisionedAdminCanLogIn | setup_railway_admin.py:15-23 | the admin account `create_admin_user` adds passes the login check with its password, when the password check accepts a password against its own hash |

## Findings

| source | as written | input that shows it | evidently intended | confidence | as-written member | corrected member |
|---|---|---|---|---|---|---|
| utils.py:48-58 | The recorder creates `BookAnalytics(book_id=...)` without counter values. The column defaults of models.py:41-43 apply only when the row is inserted. So the `+= 1` on the new row adds one to nothing, raises, is rolled back, and the call answers False. | An existing book without an analytics row, for example after the second commit of `add_book` failed, followed by `track_event` with that id and `download`. The reply is 500 and the download is not counted. | The row starts at zero and the event is counted: views 0, downloads 1, shares 0. | likely, from the documented ORM default semantics; not executed | Utils.FirstDownloadFailsAsWritten | Utils.FirstDownload |

The request handlers keep the code as written. `Utils.AsWrittenAgreesWithIntended` shows the two definitions differ only on this input class. Whenever the recorder succeeds, what it commits is the corrected `RecordRows` table.

## Left out

- Page rendering, flash messages, `jsonify` bodies and redirect targets are reduced to `Response` values. The `next` parameter of the login redirect is not modelled.
- The dashboard, manage-books and analytics pages are only read; just their admin gate is modelled. That covers the dashboard totals, the list orderings and the 30-day window of the analytics page. Timestamps (`created_at`, `updated_at`, the event timestamp) depend on the clock and are left out.
- SQLAlchemy sessions and queries are replaced by the in-memory tables. A commit is all-or-nothing, and its outcome is a parameter. Column length limits (e.g. `String(64)`) are not enforced, because whether they are depends on the database engine.
- `secure_filename`, `uuid4`, `generate_password_hash` and `check_password_hash` are foreign calls. They are parameters of the model.
- File I/O beyond which paths exist is left out: directory creation, file contents, and `file.save` raising (which ends the request with 500). `os.path.join` is modelled for relative second components only.
- The race between two concurrent first events for the same book is out of scope: the model is sequential.
- Login-session handling (`login_user`, `logout`, `load_user`) is left out. The current user is an input.
- Some form-library behaviour is left out: the CSRF token, whitespace-only input counting as blank, case-insensitive extension matching, fields missing from the request, and non-numeric year input.
- `track_event` bodies that are not JSON, and book ids that are not integers (strings, floats, booleans), are left out.
- The one-shot scripts create_admin.py, create_sample_book.py and railway_setup.py are left out. The logging setup and the 16 MiB upload limit, which Flask enforces, are left out too.
- Provisioning.CreateAdminUser: states that the stored hash is `hashPassword(password)`, not that it differs from the plaintext, because the hash function is a parameter.
