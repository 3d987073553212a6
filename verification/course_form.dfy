/**
 The manager's course form (src/pages/ManagerDashboard.tsx): comma-separated
 list fields, the `max_students` fallback, the create and update payloads
 built from the form, and the form pre-filled from an existing course.
 */
module CourseForm {

  import opened Common
  import opened Strings
  import opened Schema

  // ---------------------------------------------------------------------------
  // List fields: `text.split(',').map(t => t.trim()).filter(Boolean)`
  // ---------------------------------------------------------------------------

  /** A list element that survives parsing and can be joined without ambiguity. */
  predicate IsCleanItem(x: string) {
    x != "" && IsTrimmed(x) && ',' !in x
  }

  predicate IsCleanList(xs: seq<string>) {
    forall i :: 0 <= i < |xs| ==> IsCleanItem(xs[i])
  }

  /** Trims every piece and drops the empty ones, keeping the order. */
  function CleanPieces(pieces: seq<string>): (r: seq<string>)
    requires forall i :: 0 <= i < |pieces| ==> ',' !in pieces[i]
    ensures IsCleanList(r)
    ensures |r| <= |pieces|
  {
    if |pieces| == 0 then []
    else
      var t := Trim(pieces[0]);
      TrimKeepsAbsence(pieces[0], ',');
      (if t == "" then [] else [t]) + CleanPieces(pieces[1..])
  }

  /** The list a comma-separated form field stands for. */
  function ParseList(text: string): (r: seq<string>)
    ensures IsCleanList(r)
    ensures |r| <= |Split(text, ',')|
  {
    CleanPieces(Split(text, ','))
  }

  /** `list.join(', ')`, the text shown in the edit form. */
  function JoinList(xs: seq<string>): (r: string)
    ensures |xs| == 0 ==> r == ""
    ensures |xs| == 1 ==> r == xs[0]
  {
    Join(xs, ", ")
  }

  /** The trimmed pieces, in the order they appear in the text. */
  function TrimAll(pieces: seq<string>): (r: seq<string>)
    ensures |r| == |pieces|
    ensures forall i :: 0 <= i < |r| ==> r[i] == Trim(pieces[i])
  {
    if |pieces| == 0 then [] else [Trim(pieces[0])] + TrimAll(pieces[1..])
  }

  function NonEmpty(x: string): bool { x != "" }

  /** Parsing keeps exactly the non-empty trimmed pieces, in input order. */
  lemma {:induction false} ParseListIsFilter(text: string)
    ensures ParseList(text) == Filter(TrimAll(Split(text, ',')), NonEmpty)
    ensures IsSubseq(ParseList(text), TrimAll(Split(text, ',')))
  {
    CleanPiecesIsFilter(Split(text, ','));
    FilterIsSubseq(TrimAll(Split(text, ',')), NonEmpty);
  }

  lemma {:induction false} CleanPiecesIsFilter(pieces: seq<string>)
    requires forall i :: 0 <= i < |pieces| ==> ',' !in pieces[i]
    ensures CleanPieces(pieces) == Filter(TrimAll(pieces), NonEmpty)
  {
    if |pieces| > 0 {
      CleanPiecesIsFilter(pieces[1..]);
      assert TrimAll(pieces)[1..] == TrimAll(pieces[1..]);
    }
  }

  /** `", "`-joined pieces split on `','`: the head as is, every later piece behind one space. */
  lemma {:induction false} SplitJoinedList(xs: seq<string>)
    requires |xs| >= 2 && IsCleanList(xs)
    ensures Split(JoinList(xs), ',') == [xs[0]] + Split(" " + JoinList(xs[1..]), ',')
  {
    assert JoinList(xs) == xs[0] + [','] + (" " + JoinList(xs[1..]));
    SplitCons(xs[0], ',', " " + JoinList(xs[1..]));
  }

  /** A comma-free piece that trims to a clean item yields just that item. */
  lemma CleanSinglePiece(first: string, x: string)
    requires ',' !in first && Trim(first) == x && x != ""
    ensures CleanPieces(Split(first, ',')) == [x]
  {
    assert Split(first, ',') == [first];
    assert CleanPieces([first]) == [x] + CleanPieces([]);
  }

  /** The first comma-free piece of a text is cleaned on its own, ahead of the rest. */
  lemma CleanLeadingPiece(first: string, rest: string, x: string)
    requires ',' !in first && Trim(first) == x && x != ""
    ensures CleanPieces(Split(first + [','] + rest, ',')) == [x] + CleanPieces(Split(rest, ','))
  {
    SplitCons(first, ',', rest);
    var pieces := [first] + Split(rest, ',');
    assert pieces[1..] == Split(rest, ',');
  }

  /** A clean item behind an optional single space trims back to itself. */
  lemma TrimPrefixed(x: string, spaced: bool)
    requires IsCleanItem(x)
    ensures Trim((if spaced then " " else "") + x) == x
    ensures ',' !in (if spaced then " " else "") + x
  {
    if spaced {
      TrimLeadingSpace(x);
    } else {
      assert "" + x == x;
      TrimOfTrimmed(x);
    }
  }

  /** `JoinList` of two or more items: the head, a comma, then a space and the rest. */
  lemma JoinListCons(xs: seq<string>, p: string)
    requires |xs| >= 2
    ensures p + JoinList(xs) == (p + xs[0]) + [','] + (" " + JoinList(xs[1..]))
  {
    assert JoinList(xs) == xs[0] + ", " + JoinList(xs[1..]);
  }

  /** Cleaning the pieces of a `", "`-joined clean list, optionally behind one space, recovers it. */
  lemma {:induction false} CleanJoined(xs: seq<string>, spaced: bool)
    requires |xs| >= 1 && IsCleanList(xs)
    ensures CleanPieces(Split((if spaced then " " else "") + JoinList(xs), ',')) == xs
  {
    var p := if spaced then " " else "";
    TrimPrefixed(xs[0], spaced);
    if |xs| == 1 {
      assert p + JoinList(xs) == p + xs[0];
      CleanSinglePiece(p + xs[0], xs[0]);
    } else {
      CleanJoined(xs[1..], true);
      CleanJoinedCons(xs, p);
    }
  }

  /** One step of `CleanJoined`: the head piece, then the already recovered tail. */
  lemma CleanJoinedCons(xs: seq<string>, p: string)
    requires |xs| >= 2 && IsCleanList(xs)
    requires ',' !in p + xs[0] && Trim(p + xs[0]) == xs[0]
    requires CleanPieces(Split(" " + JoinList(xs[1..]), ',')) == xs[1..]
    ensures CleanPieces(Split(p + JoinList(xs), ',')) == xs
  {
    var first := p + xs[0];
    var rest := " " + JoinList(xs[1..]);
    JoinListCons(xs, p);
    CleanLeadingPiece(first, rest, xs[0]);
    assert [xs[0]] + xs[1..] == xs;
  }

  /** Joining a clean list for the edit form and parsing it back gives the same list. */
  lemma ParseJoinRoundTrip(xs: seq<string>)
    requires IsCleanList(xs)
    ensures ParseList(JoinList(xs)) == xs
  {
    if |xs| == 0 {
      assert Split("", ',') == [""];
      assert CleanPieces([""]) == [] + CleanPieces([]);
    } else {
      CleanJoined(xs, false);
      assert "" + JoinList(xs) == JoinList(xs);
    }
  }

  /** A list field that went through the form once is stable under another edit. */
  lemma ParseListIdempotent(text: string)
    ensures ParseList(JoinList(ParseList(text))) == ParseList(text)
  {
    ParseJoinRoundTrip(ParseList(text));
  }

  /**
   The text the edit form shows for a list column: an array joined with
   `", "`, a serialized string as it is, and nothing for a missing value.
   */
  function EditText(f: ListField): string {
    match f
    case Items(xs) => JoinList(xs)
    case Text(s) => s
    case Absent => ""
  }

  /** Saving the edit text of a list column parses back to the column's items. */
  lemma EditTextParsesBack(f: ListField)
    requires f.Items? ==> IsCleanList(f.items)
    ensures f.Items? ==> ParseList(EditText(f)) == f.items
    ensures f.Absent? ==> ParseList(EditText(f)) == []
    ensures f.Text? ==> ParseList(EditText(f)) == ParseList(f.text)
  {
    match f
    case Items(xs) => ParseJoinRoundTrip(xs);
    case Text(_) =>
    case Absent => EmptyListField();
  }

  // ---------------------------------------------------------------------------
  // max_students: `parseInt(text) || 50`
  // ---------------------------------------------------------------------------

  const DefaultMaxStudents: int := 50

  /** `parseInt(text) || 50`: `NaN` and `0` (both falsy) fall back to 50. */
  function MaxStudents(text: string): (r: int)
    ensures r != 0
    ensures ParseInt(text).None? ==> r == DefaultMaxStudents
    ensures ParseInt(text) == Some(0) ==> r == DefaultMaxStudents
    ensures ParseInt(text).Some? && ParseInt(text).value != 0 ==> r == ParseInt(text).value
  {
    match ParseInt(text)
    case None => DefaultMaxStudents
    case Some(n) => if n == 0 then DefaultMaxStudents else n
  }

  /**
   The edit form shows `max_students.toString()`; saving it again gives the
   same capacity for every non-zero value, and 0 becomes 50.
   */
  lemma MaxStudentsRoundTrip(n: int)
    ensures n != 0 ==> MaxStudents(IntToString(n)) == n
    ensures n == 0 ==> MaxStudents(IntToString(n)) == DefaultMaxStudents
  {
    ParseIntToString(n);
  }

  /** The capacity as the edit form shows it, `max_students.toString()`. */
  function CapacityText(n: int): (t: string)
    ensures n != 0 ==> MaxStudents(t) == n
    ensures n == 0 ==> MaxStudents(t) == DefaultMaxStudents
  {
    MaxStudentsRoundTrip(n);
    IntToString(n)
  }

  /** A blank capacity field means 50. */
  lemma MaxStudentsBlank()
    ensures MaxStudents("") == DefaultMaxStudents
  {
    assert ParseUnsigned("") == None;
  }

  // ---------------------------------------------------------------------------
  // The form, and the payloads built from it
  // ---------------------------------------------------------------------------

  /** The course form: every field is the raw text of an input. */
  datatype Form = Form(
    title: string,
    description: string,
    shortDescription: string,
    category: string,
    level: string,
    duration: string,
    price: string,
    maxStudents: string,
    status: string,
    requirements: string,
    learningOutcomes: string,
    tags: string
  )

  /** The form as it is first shown and after every reset. */
  const EmptyForm := Form("", "", "", "", "beginner", "", "", "50", "draft", "", "", "")

  /**
   The row sent to the store. `level` and `status` are the form's text, cast
   without a check in the source; `price` is carried as typed (its
   floating-point parsing is not modelled); `instructorId` is set by create only.
   */
  datatype Payload = Payload(
    title: string,
    description: string,
    shortDescription: string,
    category: string,
    level: string,
    duration: string,
    price: string,
    maxStudents: int,
    status: string,
    instructorId: Option<string>,
    requirements: seq<string>,
    learningOutcomes: seq<string>,
    tags: seq<string>
  )

  /**
   The row fields as `handleCreateCourse` and `handleUpdateCourse` build them
   from the form: the text fields copied, the capacity through `parseInt(...) || 50`,
   and each list column split, trimmed and filtered from its own field.
   */
  predicate BuiltFrom(p: Payload, f: Form) {
    && p.title == f.title && p.description == f.description
    && p.shortDescription == f.shortDescription && p.category == f.category
    && p.level == f.level && p.duration == f.duration && p.price == f.price && p.status == f.status
    && p.maxStudents == MaxStudents(f.maxStudents)
    && p.requirements == ParseList(f.requirements)
    && p.learningOutcomes == ParseList(f.learningOutcomes)
    && p.tags == ParseList(f.tags)
  }

  /** The transformation shared by create and update. */
  function FormFields(f: Form): (p: Payload)
    ensures BuiltFrom(p, f)
    ensures p.instructorId.None?
    ensures p.maxStudents != 0
    ensures IsCleanList(p.requirements) && IsCleanList(p.learningOutcomes) && IsCleanList(p.tags)
  {
    Payload(f.title, f.description, f.shortDescription, f.category, f.level, f.duration, f.price,
            MaxStudents(f.maxStudents), f.status, None,
            ParseList(f.requirements), ParseList(f.learningOutcomes), ParseList(f.tags))
  }

  /** `handleCreateCourse`: the new row, owned by the acting manager. */
  function CreatePayload(f: Form, managerId: string): (p: Payload)
    ensures p.instructorId == Some(managerId)
    ensures BuiltFrom(p, f)
    ensures p.title == f.title && p.description == f.description
    ensures p.maxStudents != 0
    ensures IsCleanList(p.requirements) && IsCleanList(p.learningOutcomes) && IsCleanList(p.tags)
  {
    FormFields(f).(instructorId := Some(managerId))
  }

  /** `handleUpdateCourse`: the patch for the course being edited, which leaves the owner alone. */
  function UpdatePayload(f: Form): (p: Payload)
    ensures p.instructorId.None?
    ensures BuiltFrom(p, f)
    ensures p.title == f.title && p.description == f.description
    ensures p.maxStudents != 0
    ensures IsCleanList(p.requirements) && IsCleanList(p.learningOutcomes) && IsCleanList(p.tags)
  {
    FormFields(f)
  }

  /** Create and update transform the form identically; only create names the instructor. */
  lemma CreateIsUpdatePlusInstructor(f: Form, managerId: string)
    ensures CreatePayload(f, managerId) == UpdatePayload(f).(instructorId := Some(managerId))
    ensures UpdatePayload(f) == CreatePayload(f, managerId).(instructorId := None)
  {
  }

  /** The update request: nothing is sent unless a course is being edited. */
  function UpdateRequest(editing: Option<Course>, f: Form): (r: Option<(string, Payload)>)
    ensures r.Some? <==> editing.Some?
    ensures r.Some? ==> r.value.0 == editing.value.id && r.value.1 == UpdatePayload(f)
  {
    match editing
    case None => None
    case Some(c) => Some((c.id, UpdatePayload(f)))
  }

  /** The reset form creates a draft beginner course for 50 students with no list entries. */
  lemma EmptyFormPayload(managerId: string)
    ensures var p := CreatePayload(EmptyForm, managerId);
      p.maxStudents == 50 && p.status == "draft" && p.level == "beginner" &&
      p.requirements == [] && p.learningOutcomes == [] && p.tags == []
  {
    EmptyListField();
    MaxStudentsFifty();
  }

  /** The capacity field's initial text `"50"` means 50. */
  lemma MaxStudentsFifty()
    ensures MaxStudents("50") == 50
  {
    var d := "50";
    assert DigitsValue(d, 10) == 50 by {
      assert d[..1] == "5" && d[..1][..0] == "";
    }
    ParseIntNumeral(d);
  }

  lemma EmptyListField()
    ensures ParseList("") == []
  {
    assert Split("", ',') == [""];
    assert CleanPieces([""]) == [] + CleanPieces([]);
  }

  /**
   `openEditModal`: the form pre-filled from a course. `priceText` is the
   course's price as text (`course.price?.toString() || '0'`), which this
   model takes as given.
   */
  function EditForm(c: Course, priceText: string): (f: Form)
    ensures f.title == c.title && f.description == c.description
    ensures f.shortDescription == c.shortDescription.GetOr("") && f.duration == c.duration.GetOr("")
    ensures c.category.Some? ==> f.category == c.category.value
    ensures f.category == c.category.GetOr("")
    ensures c.level.None? ==> f.level == "beginner"
    ensures c.level.Some? ==> f.level == LevelName(c.level.value)
    ensures f.requirements == EditText(c.requirements)
    ensures f.learningOutcomes == EditText(c.learningOutcomes)
    ensures f.tags == EditText(c.tags)
    ensures c.maxStudents != 0 ==> MaxStudents(f.maxStudents) == c.maxStudents
    ensures c.maxStudents == 0 ==> MaxStudents(f.maxStudents) == DefaultMaxStudents
    ensures f.price == priceText
    ensures f.status == CourseStatusName(c.status)
    ensures c.tags.Items? ==> f.tags == JoinList(c.tags.items)
    ensures c.requirements.Absent? ==> f.requirements == ""
  {
    Form(
      c.title,
      c.description,
      c.shortDescription.GetOr(""),
      c.category.GetOr(""),
      match c.level case Some(l) => LevelName(l) case None => "beginner",
      c.duration.GetOr(""),
      priceText,
      CapacityText(c.maxStudents),
      CourseStatusName(c.status),
      EditText(c.requirements),
      EditText(c.learningOutcomes),
      EditText(c.tags)
    )
  }

  /** A list column that the form reproduces exactly. */
  predicate FormStable(f: ListField) {
    (f.Items? && IsCleanList(f.items)) || f.Absent?
  }

  function ItemsOf(f: ListField): seq<string> {
    match f
    case Items(xs) => xs
    case Text(_) => []
    case Absent => []
  }

  /**
   Opening a course for editing and saving without changes writes back what
   the course held: the same text fields (a missing one as empty text), the
   price text shown, status and level, the same
   non-zero capacity, and the same clean list columns.
   */
  lemma EditSaveRoundTrip(c: Course, priceText: string)
    requires c.maxStudents != 0
    requires FormStable(c.requirements) && FormStable(c.learningOutcomes) && FormStable(c.tags)
    ensures var p := UpdatePayload(EditForm(c, priceText));
      && p.title == c.title
      && p.description == c.description
      && p.shortDescription == c.shortDescription.GetOr("")
      && p.duration == c.duration.GetOr("")
      && p.price == priceText
      && p.category == c.category.GetOr("")
      && p.status == CourseStatusName(c.status)
      && p.level == (if c.level.Some? then LevelName(c.level.value) else "beginner")
      && p.maxStudents == c.maxStudents
      && p.requirements == ItemsOf(c.requirements)
      && p.learningOutcomes == ItemsOf(c.learningOutcomes)
      && p.tags == ItemsOf(c.tags)
      && p.instructorId.None?
  {
    var f := EditForm(c, priceText);
    var p := UpdatePayload(f);
    assert p.maxStudents == MaxStudents(CapacityText(c.maxStudents));
    MaxStudentsRoundTrip(c.maxStudents);
    assert p.requirements == ParseList(EditText(c.requirements));
    EditTextParsesBack(c.requirements);
    assert p.learningOutcomes == ParseList(EditText(c.learningOutcomes));
    EditTextParsesBack(c.learningOutcomes);
    assert p.tags == ParseList(EditText(c.tags));
    EditTextParsesBack(c.tags);
  }

}
