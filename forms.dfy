/**
 * The two forms of the application (forms.py) as data: each field carries the list
 * of validators it declares, and a small interpreter runs a list the way the form
 * library does. Lemmas then read off the plain rule each field enforces.
 */
module Forms {
  import opened Wrappers

  /** What a field received: text, an integer (None when left blank), or an upload's file name. */
  datatype Input = Text(s: string) | Number(n: Option<int>) | Upload(filename: Option<string>)

  /** The validators the forms use. */
  datatype Validator =
    | DataRequired
    | Optional
    | Length(limit: nat)
    | NumberRange(min: int, max: int)
    | FileAllowed(extensions: seq<string>)

  /** No data at all: `Optional` stops the chain and clears the field's errors. */
  predicate Blank(v: Input)
  {
    match v
    case Text(s) => s == ""
    case Number(n) => n.None?
    case Upload(f) => f.None?
  }

  /** Python falsiness of the field's data, which `DataRequired` rejects. */
  predicate Falsy(v: Input)
  {
    match v
    case Text(s) => s == ""
    case Number(n) => n.None? || n == Some(0)
    case Upload(f) => !Truthy(f)
  }

  /** The length `Length` measures: that of the text, 0 for no data. */
  function LengthOf(v: Input): nat
  {
    if v.Text? then |v.s| else 0
  }

  predicate EndsWith(s: string, suffix: string)
  {
    |suffix| <= |s| && s[|s| - |suffix|..] == suffix
  }

  /** `FileAllowed`: the file name ends with "." followed by one of the extensions. */
  predicate HasExtension(name: string, extensions: seq<string>)
  {
    exists e | e in extensions :: EndsWith(name, "." + e)
  }

  /**
   * Runs a validator chain on one field. `clean` says whether the field has no error
   * so far. `DataRequired` and a rejected upload stop the chain with an error;
   * `Optional` on blank input stops it and discards earlier errors; `Length` and
   * `NumberRange` record an error and let the chain go on.
   */
  function RunChain(chain: seq<Validator>, v: Input, clean: bool): bool
  {
    if chain == [] then clean
    else
      match chain[0]
      case DataRequired =>
        if Falsy(v) then false else RunChain(chain[1..], v, clean)
      case Optional =>
        if Blank(v) then true else RunChain(chain[1..], v, clean)
      case Length(max) =>
        RunChain(chain[1..], v, clean && LengthOf(v) <= max)
      case NumberRange(lo, hi) =>
        RunChain(chain[1..], v, clean && v.Number? && v.n.Some? && lo <= v.n.value <= hi)
      case FileAllowed(exts) =>
        if v.Upload? && Truthy(v.filename) && !HasExtension(v.filename.value, exts) then false
        else RunChain(chain[1..], v, clean)
  }

  /** A field with no error before its validators run. */
  predicate FieldValid(chain: seq<Validator>, v: Input)
  {
    RunChain(chain, v, true)
  }

  // ---------------------------------------------------------------- the login form

  /** The submitted login form (forms.py:6-9). */
  datatype LoginForm = LoginForm(username: string, password: string)

  const UsernameValidators: seq<Validator> := [DataRequired]
  const PasswordValidators: seq<Validator> := [DataRequired]

  predicate LoginFormValid(f: LoginForm)
  {
    FieldValid(UsernameValidators, Text(f.username)) && FieldValid(PasswordValidators, Text(f.password))
  }

  /** Both credentials are required, and nothing else is checked. */
  lemma LoginFormRule(f: LoginForm)
    ensures LoginFormValid(f) <==> f.username != "" && f.password != ""
  {
    assert UsernameValidators[1..] == [] && PasswordValidators[1..] == [];
    assert f.username != "" ==> RunChain(UsernameValidators, Text(f.username), true) == RunChain([], Text(f.username), true);
    assert f.password != "" ==> RunChain(PasswordValidators, Text(f.password), true) == RunChain([], Text(f.password), true);
  }

  // ---------------------------------------------------------------- the book form

  /**
   * The submitted book form (forms.py:11-38). Uploads are the client's file names
   * (None: no file sent); `year` is None when left blank.
   */
  datatype BookForm = BookForm(
    title: string,
    author: string,
    description: string,
    cover: Option<string>,
    bookFile: Option<string>,
    bookUrl: string,
    publisher: string,
    year: Option<int>,
    isbn: string,
    category: string)

  const ImageExtensions: seq<string> := ["jpg", "jpeg", "png", "gif"]
  const BookExtensions: seq<string> := ["pdf", "epub", "mobi"]
  const Categories: seq<string> :=
    ["fiction", "non-fiction", "science", "technology", "business", "self-help", "biography", "history", "other"]

  const TitleValidators: seq<Validator> := [DataRequired, Length(255)]
  const AuthorValidators: seq<Validator> := [DataRequired, Length(255)]
  const DescriptionValidators: seq<Validator> := [Optional]
  const CoverValidators: seq<Validator> := [Optional, FileAllowed(ImageExtensions)]
  const BookFileValidators: seq<Validator> := [Optional, FileAllowed(BookExtensions)]
  const BookUrlValidators: seq<Validator> := [Optional, Length(500)]
  const PublisherValidators: seq<Validator> := [Optional, Length(255)]
  const YearValidators: seq<Validator> := [Optional, NumberRange(1000, 3000)]
  const IsbnValidators: seq<Validator> := [Optional, Length(20)]
  const CategoryValidators: seq<Validator> := [DataRequired]

  /** Every field passes its chain; the select field also checks its value is one of its choices. */
  predicate BookFormValid(f: BookForm)
  {
    && FieldValid(TitleValidators, Text(f.title))
    && FieldValid(AuthorValidators, Text(f.author))
    && FieldValid(DescriptionValidators, Text(f.description))
    && FieldValid(CoverValidators, Upload(f.cover))
    && FieldValid(BookFileValidators, Upload(f.bookFile))
    && FieldValid(BookUrlValidators, Text(f.bookUrl))
    && FieldValid(PublisherValidators, Text(f.publisher))
    && FieldValid(YearValidators, Number(f.year))
    && FieldValid(IsbnValidators, Text(f.isbn))
    && RunChain(CategoryValidators, Text(f.category), f.category in Categories)
  }

  /** The book form's rules written out plainly, independently of the validator lists. */
  predicate BookFormRules(f: BookForm)
  {
    && 0 < |f.title| <= 255
    && 0 < |f.author| <= 255
    && (Truthy(f.cover) ==> HasExtension(f.cover.value, ImageExtensions))
    && (Truthy(f.bookFile) ==> HasExtension(f.bookFile.value, BookExtensions))
    && |f.bookUrl| <= 500
    && |f.publisher| <= 255
    && (f.year.Some? ==> 1000 <= f.year.value <= 3000)
    && |f.isbn| <= 20
    && f.category in Categories
  }

  /** A required text field with a length limit: non-empty and at most `max` long. */
  lemma RequiredTextRule(max: nat, s: string)
    ensures FieldValid([DataRequired, Length(max)], Text(s)) <==> 0 < |s| <= max
  {
    var chain := [DataRequired, Length(max)];
    if s != "" {
      assert chain[1..] == [Length(max)];
      assert [Length(max)][1..] == [];
      assert RunChain(chain, Text(s), true) == RunChain([Length(max)], Text(s), true);
      assert RunChain([Length(max)], Text(s), true) == RunChain([], Text(s), |s| <= max);
    }
  }

  /** An optional text field with a length limit: at most `max` long (blank is fine). */
  lemma OptionalTextRule(max: nat, s: string)
    ensures FieldValid([Optional, Length(max)], Text(s)) <==> |s| <= max
  {
    var chain := [Optional, Length(max)];
    if s != "" {
      assert chain[1..] == [Length(max)];
      assert [Length(max)][1..] == [];
      assert RunChain(chain, Text(s), true) == RunChain([Length(max)], Text(s), true);
      assert RunChain([Length(max)], Text(s), true) == RunChain([], Text(s), |s| <= max);
    }
  }

  /** An optional upload: either no file, or one whose name has an allowed extension. */
  lemma OptionalUploadRule(exts: seq<string>, f: Option<string>)
    ensures FieldValid([Optional, FileAllowed(exts)], Upload(f)) <==> (Truthy(f) ==> HasExtension(f.value, exts))
  {
    var chain := [Optional, FileAllowed(exts)];
    if f.Some? {
      assert chain[1..] == [FileAllowed(exts)];
      assert [FileAllowed(exts)][1..] == [];
      assert RunChain(chain, Upload(f), true) == RunChain([FileAllowed(exts)], Upload(f), true);
    }
  }

  /** The year: blank, or between 1000 and 3000 inclusive. */
  lemma YearRule(year: Option<int>)
    ensures FieldValid(YearValidators, Number(year)) <==> (year.Some? ==> 1000 <= year.value <= 3000)
  {
    if year.Some? {
      var v := Number(year);
      assert YearValidators[1..] == [NumberRange(1000, 3000)];
      assert [NumberRange(1000, 3000)][1..] == [];
      assert RunChain(YearValidators, v, true) == RunChain([NumberRange(1000, 3000)], v, true);
      assert RunChain([NumberRange(1000, 3000)], v, true) == RunChain([], v, 1000 <= year.value <= 3000);
    }
  }

  /** The category: required, and one of the nine listed values. */
  lemma CategoryRule(c: string)
    ensures RunChain(CategoryValidators, Text(c), c in Categories) <==> c in Categories
  {
    assert CategoryValidators[1..] == [];
    assert "" != Categories[0] && "" != Categories[1] && "" != Categories[2];
  }

  /** The validator lists of forms.py enforce exactly the plainly written rules. */
  lemma BookFormValidIff(f: BookForm)
    ensures BookFormValid(f) <==> BookFormRules(f)
  {
    RequiredTextRule(255, f.title);
    RequiredTextRule(255, f.author);
    OptionalUploadRule(ImageExtensions, f.cover);
    OptionalUploadRule(BookExtensions, f.bookFile);
    OptionalTextRule(500, f.bookUrl);
    OptionalTextRule(255, f.publisher);
    OptionalTextRule(20, f.isbn);
    YearRule(f.year);
    CategoryRule(f.category);
    assert FieldValid(DescriptionValidators, Text(f.description));
  }
}
