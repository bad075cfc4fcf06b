/** The create/edit form: its draft, the validation rule, and the class
    Component holding the draft and the errors shown under the fields. */
module BookModal {
  import opened Books
  import opened JsString

  /** The published-year field as validation sees it: empty (falsy), not a
      number (`isNaN`), or a whole number. */
  datatype YearInput = Blank | NotANumber | Number(value: int)

  /** The form's draft. */
  datatype Draft = Draft(
    title: string,
    author: string,
    genre: string,
    publishedYear: YearInput,
    status: string)

  /** The form's fields, as named by the inputs. */
  datatype Field = Title | Author | Genre | PublishedYear | Status

  /** The validation messages of the message table. */
  datatype Message = TitleRequired | AuthorRequired | GenreRequired | YearRequired | YearInvalid

  /** The earliest year accepted. */
  const MinYear := 1800

  /** The draft of a new book: every text empty, the year empty, and the
      status "available". */
  const BlankDraft := Draft("", "", "", Blank, "available")

  /** The draft loaded when the form opens: the book's fields, where a year
      of 0 reads as empty (`book.publishedYear || ''`) and an empty status as
      "available"; or the blank draft when no book is selected. */
  function DraftOf(book: Option<Book>): (d: Draft)
    ensures book.None? ==> d == BlankDraft
    ensures book.Some? ==> d.title == book.value.title && d.author == book.value.author && d.genre == book.value.genre
    ensures book.Some? ==> (d.publishedYear.Blank? <==> book.value.publishedYear == 0)
    ensures book.Some? && book.value.publishedYear != 0 ==> d.publishedYear == Number(book.value.publishedYear)
    ensures book.Some? ==> d.status != ""
    ensures book.Some? && book.value.status == "" ==> d.status == "available"
    ensures book.Some? && book.value.status != "" ==> d.status == book.value.status
  {
    match book
    case None => BlankDraft
    case Some(b) =>
      Draft(b.title, b.author, b.genre,
            if b.publishedYear == 0 then Blank else Number(b.publishedYear),
            if b.status == "" then "available" else b.status)
  }

  // ---------------------------------------------------------------------
  // Validation

  /** The message a field earns, if any. The three text fields are required
      once trimmed; the year is required, and when present must be a number
      from MinYear to the current year; the status is not checked. */
  function FieldError(d: Draft, f: Field, currentYear: int): (r: Option<Message>)
    ensures r.Some? ==> FieldOf(r.value) == f
    ensures f == Status ==> r.None?
    ensures f == PublishedYear ==> (r == Some(YearRequired) <==> d.publishedYear.Blank?)
  {
    match f
    case Title => if Trim(d.title) == "" then Some(TitleRequired) else None
    case Author => if Trim(d.author) == "" then Some(AuthorRequired) else None
    case Genre => if Trim(d.genre) == "" then Some(GenreRequired) else None
    case PublishedYear =>
      (match d.publishedYear
       case Blank => Some(YearRequired)
       case NotANumber => Some(YearInvalid)
       case Number(y) => if y < MinYear || y > currentYear then Some(YearInvalid) else None)
    case Status => None
  }

  /** The field a message is shown under. */
  function FieldOf(m: Message): Field {
    match m
    case TitleRequired => Title
    case AuthorRequired => Author
    case GenreRequired => Genre
    case YearRequired => PublishedYear
    case YearInvalid => PublishedYear
  }

  const AllFields: set<Field> := {Title, Author, Genre, PublishedYear, Status}

  /** The error map of a draft: every field that earns a message, mapped to
      it. Every message sits under its own field, and the status, which is
      never validated, carries none. */
  function Errors(d: Draft, currentYear: int): (r: map<Field, Message>)
    ensures forall f :: f in r ==> FieldOf(r[f]) == f
    ensures Status !in r
    ensures r.Keys <= {Title, Author, Genre, PublishedYear}
  {
    map f | f in AllFields && FieldError(d, f, currentYear).Some? :: FieldError(d, f, currentYear).value
  }

  /** A field is in the error map exactly when it earns a message, and then
      maps to that message. */
  lemma ErrorsAt(d: Draft, f: Field, currentYear: int)
    ensures f in Errors(d, currentYear) <==> FieldError(d, f, currentYear).Some?
    ensures f in Errors(d, currentYear) ==> Errors(d, currentYear)[f] == FieldError(d, f, currentYear).value
  {
  }

  /** A map that agrees with FieldError on every field is the error map. */
  lemma ErrorsCharacterized(m: map<Field, Message>, d: Draft, currentYear: int)
    requires forall f :: f in m <==> FieldError(d, f, currentYear).Some?
    requires forall f :: f in m ==> m[f] == FieldError(d, f, currentYear).value
    ensures m == Errors(d, currentYear)
  {
  }

  /** Each text field is in error exactly when it trims to nothing, whatever
      the other fields hold, and then carries its own "required" message. */
  lemma TextFieldsRequired(d: Draft, currentYear: int)
    ensures var e := Errors(d, currentYear);
      && (Title in e <==> forall i :: 0 <= i < |d.title| ==> IsWhiteSpace(d.title[i]))
      && (Author in e <==> forall i :: 0 <= i < |d.author| ==> IsWhiteSpace(d.author[i]))
      && (Genre in e <==> forall i :: 0 <= i < |d.genre| ==> IsWhiteSpace(d.genre[i]))
      && (Title in e ==> e[Title] == TitleRequired)
      && (Author in e ==> e[Author] == AuthorRequired)
      && (Genre in e ==> e[Genre] == GenreRequired)
  {
    TrimEmptyIff(d.title);
    TrimEmptyIff(d.author);
    TrimEmptyIff(d.genre);
    ErrorsAt(d, Title, currentYear);
    ErrorsAt(d, Author, currentYear);
    ErrorsAt(d, Genre, currentYear);
  }

  /** An empty year is "required" and never "invalid"; a present year is
      "invalid" exactly when it is not a number or lies outside MinYear to
      the current year. Either way the year carries at most one message. */
  lemma YearRule(d: Draft, currentYear: int)
    ensures var e := Errors(d, currentYear);
      && (d.publishedYear.Blank? ==> PublishedYear in e && e[PublishedYear] == YearRequired)
      && (!d.publishedYear.Blank? ==>
            (PublishedYear in e <==>
               d.publishedYear.NotANumber? || d.publishedYear.value < MinYear || d.publishedYear.value > currentYear))
      && (!d.publishedYear.Blank? && PublishedYear in e ==> e[PublishedYear] == YearInvalid)
  {
  }

  /** The blank draft fails on every field but the status. */
  lemma BlankDraftErrors(currentYear: int)
    ensures Errors(BlankDraft, currentYear) ==
      map[Title := TitleRequired, Author := AuthorRequired, Genre := GenreRequired, PublishedYear := YearRequired]
  {
    var m := map[Title := TitleRequired, Author := AuthorRequired, Genre := GenreRequired, PublishedYear := YearRequired];
    assert Trim("") == "";
    ErrorsCharacterized(m, BlankDraft, currentYear);
  }

  /** A draft passes validation exactly when its three text fields hold
      more than white space and its year is a number from MinYear to the
      current year. */
  lemma NoErrorsIff(d: Draft, currentYear: int)
    ensures Errors(d, currentYear) == map[] <==>
      && Trim(d.title) != "" && Trim(d.author) != "" && Trim(d.genre) != ""
      && d.publishedYear.Number? && MinYear <= d.publishedYear.value <= currentYear
  {
    if Errors(d, currentYear) == map[] {
      ErrorsAt(d, Title, currentYear);
      ErrorsAt(d, Author, currentYear);
      ErrorsAt(d, Genre, currentYear);
      ErrorsAt(d, PublishedYear, currentYear);
    } else {
      var none: map<Field, Message> := map[];
      if Trim(d.title) != "" && Trim(d.author) != "" && Trim(d.genre) != ""
         && d.publishedYear.Number? && MinYear <= d.publishedYear.value <= currentYear
      {
        ErrorsCharacterized(none, d, currentYear);
      }
    }
  }

  /** The book's fields pass validation. */
  predicate BookIsValid(b: Book, currentYear: int) {
    && Trim(b.title) != "" && Trim(b.author) != "" && Trim(b.genre) != ""
    && MinYear <= b.publishedYear <= currentYear
  }

  /** Opening the form on a book gives a draft without errors exactly when
      the book's own fields are valid. */
  lemma ReopenedBookValidIff(b: Book, currentYear: int)
    ensures Errors(DraftOf(Some(b)), currentYear) == map[] <==> BookIsValid(b, currentYear)
  {
    NoErrorsIff(DraftOf(Some(b)), currentYear);
  }

  /** Every field valid but a title that trims to nothing: exactly one
      error, on the title. */
  lemma OnlyTitleMissing(d: Draft, currentYear: int)
    requires Trim(d.title) == "" && Trim(d.author) != "" && Trim(d.genre) != ""
    requires d.publishedYear.Number? && MinYear <= d.publishedYear.value <= currentYear
    ensures Errors(d, currentYear) == map[Title := TitleRequired]
  {
  }

  /** A number before MinYear as the year, all three texts present: exactly
      one error, on the year. */
  lemma YearTooEarly(d: Draft, currentYear: int)
    requires Trim(d.title) != "" && Trim(d.author) != "" && Trim(d.genre) != ""
    requires d.publishedYear.Number? && d.publishedYear.value < MinYear
    ensures Errors(d, currentYear) == map[PublishedYear := YearInvalid]
  {
  }

  // ---------------------------------------------------------------------
  // Editing

  function DigitValue(c: char): int {
    c as int - '0' as int
  }

  /** The value of a string of decimal digits. */
  function DecimalValue(s: string): (n: nat)
    requires forall i :: 0 <= i < |s| ==> '0' <= s[i] <= '9'
  {
    if s == [] then 0 else DecimalValue(s[..|s| - 1]) * 10 + DigitValue(s[|s| - 1])
  }

  /** The year typed into the year input: empty, a string of decimal digits
      (a number), or anything else (not a number). */
  function ParseYear(text: string): (y: YearInput)
    ensures y == Blank <==> text == ""
  {
    if text == "" then Blank
    else if forall i :: 0 <= i < |text| ==> '0' <= text[i] <= '9' then Number(DecimalValue(text))
    else NotANumber
  }

  /** The draft with the named field set from an input's value (the year
      parsed); every other field keeps its value. */
  function WithField(d: Draft, name: Field, value: string): (r: Draft)
    ensures forall f :: f != name ==> Get(r, f) == Get(d, f)
    ensures Get(r, name) == if name == PublishedYear then Year(ParseYear(value)) else Text(value)
  {
    match name
    case Title => d.(title := value)
    case Author => d.(author := value)
    case Genre => d.(genre := value)
    case PublishedYear => d.(publishedYear := ParseYear(value))
    case Status => d.(status := value)
  }

  /** A field's value in a draft. */
  datatype FieldValue = Text(text: string) | Year(year: YearInput)

  function Get(d: Draft, f: Field): FieldValue {
    match f
    case Title => Text(d.title)
    case Author => Text(d.author)
    case Genre => Text(d.genre)
    case PublishedYear => Year(d.publishedYear)
    case Status => Text(d.status)
  }

  // ---------------------------------------------------------------------
  // The component's state

  /** The form component: the draft and the errors shown. */
  class Component {
    var formData: Draft
    var errors: map<Field, Message>

    constructor ()
      ensures formData == BlankDraft && errors == map[]
    {
      formData := BlankDraft;
      errors := map[];
    }

    /** The effect run when the form is shown, hidden or given another book:
        the draft is reloaded and the errors cleared. */
    method Reset(book: Option<Book>)
      modifies this
      ensures formData == DraftOf(book) && errors == map[]
    {
      formData := DraftOf(book);
      errors := map[];
    }

    /** Validates the draft field by field into a fresh error map, shows it,
        and reports whether it is empty. */
    method ValidateForm(currentYear: int) returns (valid: bool)
      modifies this`errors
      ensures errors == Errors(formData, currentYear)
      ensures valid <==> errors == map[]
    {
      var newErrors: map<Field, Message> := map[];
      if Trim(formData.title) == "" {
        newErrors := newErrors[Title := TitleRequired];
      }
      if Trim(formData.author) == "" {
        newErrors := newErrors[Author := AuthorRequired];
      }
      if Trim(formData.genre) == "" {
        newErrors := newErrors[Genre := GenreRequired];
      }
      if formData.publishedYear.Blank? {
        newErrors := newErrors[PublishedYear := YearRequired];
      }
      if !formData.publishedYear.Blank?
         && (formData.publishedYear.NotANumber?
             || formData.publishedYear.value < MinYear
             || formData.publishedYear.value > currentYear)
      {
        newErrors := newErrors[PublishedYear := YearInvalid];
      }
      ErrorsCharacterized(newErrors, formData, currentYear);
      errors := newErrors;
      valid := |newErrors| == 0;
    }

    /** Submitting hands the draft on only when it validates. */
    method HandleSubmit(currentYear: int) returns (submitted: Option<Draft>)
      modifies this`errors
      ensures errors == Errors(formData, currentYear)
      ensures submitted == if errors == map[] then Some(formData) else None
    {
      var valid := ValidateForm(currentYear);
      submitted := if valid then Some(formData) else None;
    }

    /** An input's change event sets its field. */
    method HandleChange(name: Field, value: string)
      modifies this`formData
      ensures formData == WithField(old(formData), name, value)
    {
      formData := WithField(formData, name, value);
    }
  }
}
