/**
 * The record validator `validate_book` of ingest.py: a record (a dict from
 * field name to JSON value) is checked for the required fields, then each
 * present field is type-checked; the issues come back as an ordered list and
 * an empty list means the record is valid. The record is never changed.
 */
module Schema {
  import opened Wrappers
  import opened JsonValues
  import opened TextClean

  /** A book record as parsed from the seed file. */
  type Record = map<string, Json>

  /** The eight fields every record must carry. */
  datatype Field = Id | Title | Authors | Description | Genres | Tropes | SpiceLevel | SourceUrl
  {
    /** The field's key in the record. */
    function Name(): string {
      match this
      case Id => "id"
      case Title => "title"
      case Authors => "authors"
      case Description => "description"
      case Genres => "genres"
      case Tropes => "tropes"
      case SpiceLevel => "spice_level"
      case SourceUrl => "source_url"
    }

    /** The field's position in REQUIRED_FIELDS. */
    function Index(): nat {
      match this
      case Id => 0
      case Title => 1
      case Authors => 2
      case Description => 3
      case Genres => 4
      case Tropes => 5
      case SpiceLevel => 6
      case SourceUrl => 7
    }
  }

  /** REQUIRED_FIELDS, in the order the validator reports them. */
  const RequiredFields: seq<Field> := [Id, Title, Authors, Description, Genres, Tropes, SpiceLevel, SourceUrl]

  /** REQUIRED_FIELDS lists every field once, each at its own index. */
  lemma RequiredFieldsIndexed()
    ensures |RequiredFields| == 8
    ensures forall k :: 0 <= k < |RequiredFields| ==> RequiredFields[k].Index() == k
    ensures forall f: Field :: f in RequiredFields
  {
    forall f: Field ensures f in RequiredFields {
      assert RequiredFields[f.Index()] == f;
    }
  }

  /** The four values spice_level may take. */
  const SpiceLevels: set<string> := {"low", "medium", "high", "unknown"}

  /** The minimum stripped length of a description. */
  const MinDescriptionLength: nat := 40

  /** One problem the validator can report. */
  datatype Issue =
    | MissingField(field: Field)
    | TitleNotString
    | AuthorsNotStringList
    | DescriptionTooShort
    | GenresNotStringList
    | TropesNotStringList
    | SpiceLevelInvalid
    | SourceUrlNotString
  {
    /** The text the validator appends for this issue. */
    function Message(): string {
      match this
      case MissingField(f) => "missing field: " + f.Name()
      case TitleNotString => "title must be a string"
      case AuthorsNotStringList => "authors must be a list[str]"
      case DescriptionTooShort => "description must be a string with at least 40 chars"
      case GenresNotStringList => "genres must be a list[str]"
      case TropesNotStringList => "tropes must be a list[str]"
      case SpiceLevelInvalid => "spice_level must be one of: low|medium|high|unknown"
      case SourceUrlNotString => "source_url must be a string (URL)"
    }

    /** The field the issue is about. */
    function Subject(): string {
      match this
      case MissingField(f) => f.Name()
      case TitleNotString => Title.Name()
      case AuthorsNotStringList => Authors.Name()
      case DescriptionTooShort => Description.Name()
      case GenresNotStringList => Genres.Name()
      case TropesNotStringList => Tropes.Name()
      case SpiceLevelInvalid => SpiceLevel.Name()
      case SourceUrlNotString => SourceUrl.Name()
    }
  }

  /** Python's `v or ""`: a falsy value is replaced by the empty string. */
  function OrEmpty(v: Json): (r: Json)
    ensures Falsy(v) ==> r == Str("")
    ensures !Falsy(v) ==> r == v
  {
    if Falsy(v) then Str("") else v
  }

  /** The description check: `x["description"] or ""` must be a string whose
      stripped length is at least 40. */
  predicate DescriptionLongEnough(v: Json) {
    var d := OrEmpty(v);
    d.Str? && |Strip(d.s)| >= MinDescriptionLength
  }

  /** Python's `v in {"low", "medium", "high", "unknown"}` on a hashable
      value: only a string can equal one of the four. */
  predicate InSpiceLevels(v: Json) {
    v.Str? && v.s in SpiceLevels
  }

  /** True when the validator's check for `issue` fires on x. Each type
      check runs only when its field is present. */
  predicate Detects(x: Record, issue: Issue): (b: bool)
    ensures issue.MissingField? ==> (b <==> issue.Subject() !in x)
    ensures b && !issue.MissingField? ==> issue.Subject() in x
  {
    match issue
    case MissingField(f) => f.Name() !in x
    case TitleNotString => "title" in x && !x["title"].Str?
    case AuthorsNotStringList => "authors" in x && !IsStringList(x["authors"])
    case DescriptionTooShort => "description" in x && !DescriptionLongEnough(x["description"])
    case GenresNotStringList => "genres" in x && !IsStringList(x["genres"])
    case TropesNotStringList => "tropes" in x && !IsStringList(x["tropes"])
    case SpiceLevelInvalid => "spice_level" in x && !InSpiceLevels(x["spice_level"])
    case SourceUrlNotString => "source_url" in x && !x["source_url"].Str?
  }

  /** A type check only fires on a field that is present. */
  lemma DetectsNeedsField(x: Record)
    ensures forall c :: Detects(x, c) && !c.MissingField? ==> c.Subject() in x
  {
    forall c | Detects(x, c) && !c.MissingField? ensures c.Subject() in x {
      match c
      case TitleNotString =>
      case AuthorsNotStringList =>
      case DescriptionTooShort =>
      case GenresNotStringList =>
      case TropesNotStringList =>
      case SpiceLevelInvalid =>
      case SourceUrlNotString =>
    }
  }

  /** The issue of check c on x, if it fires. */
  function Fired(x: Record, c: Issue): (r: seq<Issue>)
    ensures r == [] || r == [c]
    ensures r != [] <==> Detects(x, c)
  {
    if Detects(x, c) then [c] else []
  }

  /** The number of checks validate_book runs: one per required field, then
      seven type checks. */
  const CheckCount: nat := 15

  /** Where an issue's check stands in the validator's run: the presence
      checks in REQUIRED_FIELDS order, then title, authors, description,
      genres, tropes, spice_level and source_url. */
  function Rank(c: Issue): nat {
    var n := |RequiredFields|;
    match c
    case MissingField(f) => f.Index()
    case TitleNotString => n
    case AuthorsNotStringList => n + 1
    case DescriptionTooShort => n + 2
    case GenresNotStringList => n + 3
    case TropesNotStringList => n + 4
    case SpiceLevelInvalid => n + 5
    case SourceUrlNotString => n + 6
  }

  /** The check validate_book runs k-th; its rank is k. */
  function CheckAt(k: nat): (c: Issue)
    requires k < CheckCount
    ensures Rank(c) == k
    ensures c.MissingField? <==> k < |RequiredFields|
  {
    RequiredFieldsIndexed();
    if k < |RequiredFields| then MissingField(RequiredFields[k])
    else if k == 8 then TitleNotString
    else if k == 9 then AuthorsNotStringList
    else if k == 10 then DescriptionTooShort
    else if k == 11 then GenresNotStringList
    else if k == 12 then TropesNotStringList
    else if k == 13 then SpiceLevelInvalid
    else SourceUrlNotString
  }

  /** Every issue is the check of its rank, and ranks are below CheckCount. */
  lemma CheckAtRank(c: Issue)
    ensures Rank(c) < CheckCount && CheckAt(Rank(c)) == c
  {
    RequiredFieldsIndexed();
    if c.MissingField? {
      assert RequiredFields[c.field.Index()] == c.field;
    }
  }

  /** The issues among the first k checks that fire on x, in check order. */
  function Found(x: Record, k: nat): (r: seq<Issue>)
    requires k <= CheckCount
    ensures |r| <= k
  {
    if k == 0 then [] else Found(x, k - 1) + Fired(x, CheckAt(k - 1))
  }

  /** The k-th check adds exactly its own issue, when it fires. */
  lemma FoundLast(x: Record, k: nat, c: Issue)
    requires 0 < k <= CheckCount
    ensures c in Found(x, k) <==> c in Found(x, k - 1) || (Rank(c) == k - 1 && Detects(x, c))
  {
    if Rank(c) == k - 1 {
      CheckAtRank(c);
    }
  }

  /** An issue is found among the first k checks exactly when its rank is
      below k and it fires. */
  lemma {:induction false} FoundMembers(x: Record, k: nat)
    requires k <= CheckCount
    ensures forall c :: c in Found(x, k) <==> Rank(c) < k && Detects(x, c)
  {
    if k > 0 {
      FoundMembers(x, k - 1);
      forall c ensures c in Found(x, k) <==> Rank(c) < k && Detects(x, c) {
        FoundLast(x, k, c);
      }
    }
  }

  /** When no check fires, nothing is found. */
  lemma {:induction false} FoundNone(x: Record, k: nat)
    requires k <= CheckCount
    requires forall c :: !Detects(x, c)
    ensures Found(x, k) == []
  {
    if k > 0 {
      FoundNone(x, k - 1);
    }
  }

  /** Issues listed in strictly increasing rank. */
  predicate Increasing(r: seq<Issue>) {
    forall i, j :: 0 <= i < j < |r| ==> Rank(r[i]) < Rank(r[j])
  }

  /** Every issue found among the first k checks has rank below k. */
  lemma {:induction false} FoundBelow(x: Record, k: nat)
    requires k <= CheckCount
    ensures forall i :: 0 <= i < |Found(x, k)| ==> Rank(Found(x, k)[i]) < k
  {
    if k > 0 {
      FoundBelow(x, k - 1);
    }
  }

  /** The checks run in increasing rank, so the issues come out in
      increasing rank. */
  lemma {:induction false} FoundIncreasing(x: Record, k: nat)
    requires k <= CheckCount
    ensures Increasing(Found(x, k))
  {
    if k > 0 {
      FoundIncreasing(x, k - 1);
      FoundBelow(x, k - 1);
    }
  }

  /** validate_book(x): the issues of x, in the order the validator reports
      them; at most one per check. */
  function Issues(x: Record): (r: seq<Issue>)
    ensures |r| <= CheckCount
  {
    Found(x, CheckCount)
  }

  /** An issue is reported exactly when its check fires. */
  lemma IssuesMembers(x: Record)
    ensures forall c :: c in Issues(x) <==> Detects(x, c)
  {
    FoundMembers(x, CheckCount);
    forall c ensures Rank(c) < CheckCount {
      CheckAtRank(c);
    }
  }

  /** validate_book reports every issue at most once and in a fixed order:
      the missing fields in REQUIRED_FIELDS order, then title, authors,
      description, genres, tropes, spice_level, source_url. */
  lemma IssuesOrdered(x: Record)
    ensures Increasing(Issues(x))
    ensures forall i, j :: 0 <= i < j < |Issues(x)| ==> Issues(x)[i] != Issues(x)[j]
    ensures forall i, j :: 0 <= i < j < |Issues(x)| && Issues(x)[j].MissingField? ==> Issues(x)[i].MissingField?
  {
    FoundIncreasing(x, CheckCount);
    forall c: Issue ensures c.MissingField? <==> Rank(c) < |RequiredFields| {
      CheckAtRank(c);
    }
  }

  // ---------------------------------------------------------------------
  // Validity
  // ---------------------------------------------------------------------

  /** All eight required fields are present. */
  predicate HasRequiredFields(x: Record) {
    "id" in x && "title" in x && "authors" in x && "description" in x
    && "genres" in x && "tropes" in x && "spice_level" in x && "source_url" in x
  }

  /** The eight keys are exactly the names of the fields. */
  lemma HasRequiredFieldsIff(x: Record)
    ensures HasRequiredFields(x) <==> forall f: Field :: f.Name() in x
  {
    assert Id.Name() == "id" && Title.Name() == "title" && Authors.Name() == "authors";
    assert Description.Name() == "description" && Genres.Name() == "genres";
    assert Tropes.Name() == "tropes" && SpiceLevel.Name() == "spice_level";
    assert SourceUrl.Name() == "source_url";
  }

  /** A record validate_book accepts, stated field by field: every required
      field present, title and source_url strings, authors, genres and tropes
      lists of strings, a string description of at least 40 characters once
      stripped, and one of the four spice levels. */
  predicate WellFormed(x: Record) {
    HasRequiredFields(x)
    && x["title"].Str?
    && IsStringList(x["authors"])
    && x["description"].Str? && |Strip(x["description"].s)| >= MinDescriptionLength
    && IsStringList(x["genres"])
    && IsStringList(x["tropes"])
    && InSpiceLevels(x["spice_level"])
    && x["source_url"].Str?
  }

  /** The falsy-to-"" substitution never rescues a description: a falsy value
      becomes "", which is too short. */
  lemma DescriptionLongEnoughIff(v: Json)
    ensures DescriptionLongEnough(v) <==> v.Str? && |Strip(v.s)| >= MinDescriptionLength
  {
    if Falsy(v) && v.Str? {
      assert v.s == [];
    }
  }

  /** No issue means no check fires. */
  lemma NoneFires(x: Record)
    requires Issues(x) == []
    ensures forall c :: !Detects(x, c)
  {
    IssuesMembers(x);
  }

  /** When no presence check fires, every required field is present. */
  lemma NoFireFields(x: Record)
    requires forall c :: !Detects(x, c)
    ensures HasRequiredFields(x)
  {
    forall f: Field ensures f.Name() in x {
      assert !Detects(x, MissingField(f));
    }
    HasRequiredFieldsIff(x);
  }

  /** When no type check fires on a record with every field, every field
      has its type. */
  lemma NoFireTypes(x: Record)
    requires HasRequiredFields(x) && forall c :: !Detects(x, c)
    ensures x["title"].Str? && x["source_url"].Str?
    ensures IsStringList(x["authors"]) && IsStringList(x["genres"]) && IsStringList(x["tropes"])
    ensures DescriptionLongEnough(x["description"])
    ensures InSpiceLevels(x["spice_level"])
  {
    assert !Detects(x, TitleNotString) && !Detects(x, AuthorsNotStringList);
    assert !Detects(x, DescriptionTooShort) && !Detects(x, GenresNotStringList);
    assert !Detects(x, TropesNotStringList) && !Detects(x, SpiceLevelInvalid);
    assert !Detects(x, SourceUrlNotString);
  }

  /** A record is well formed exactly when none of the validator's checks
      fires on it. */
  lemma WellFormedIff(x: Record)
    ensures WellFormed(x) <==> forall c :: !Detects(x, c)
  {
    if forall c :: !Detects(x, c) {
      NoFireFields(x);
      NoFireTypes(x);
      DescriptionLongEnoughIff(x["description"]);
    }
    if WellFormed(x) {
      DescriptionLongEnoughIff(x["description"]);
      HasRequiredFieldsIff(x);
    }
  }

  /** No check fires on a well-formed record. */
  lemma WellFormedNoIssues(x: Record)
    requires WellFormed(x)
    ensures Issues(x) == []
  {
    WellFormedIff(x);
    FoundNone(x, CheckCount);
  }

  /** validate_book returns no issue exactly when the record is well formed. */
  lemma IssuesEmptyIff(x: Record)
    ensures Issues(x) == [] <==> WellFormed(x)
  {
    if Issues(x) == [] {
      NoneFires(x);
      WellFormedIff(x);
    } else if WellFormed(x) {
      WellFormedNoIssues(x);
    }
  }

  /** "missing field: f" is reported exactly for the required fields x lacks,
      and a field that x lacks is never type-checked. */
  lemma MissingFieldIff(x: Record, f: Field)
    ensures MissingField(f) in Issues(x) <==> f.Name() !in x
    ensures forall c :: c in Issues(x) && !c.MissingField? ==> c.Subject() in x
  {
    IssuesMembers(x);
    assert Detects(x, MissingField(f)) <==> f.Name() !in x;
  }

  /** Each type check of validate_book, on a field that is present. */
  lemma TypeChecksIff(x: Record)
    ensures "title" in x ==> (TitleNotString in Issues(x) <==> !x["title"].Str?)
    ensures "authors" in x ==> (AuthorsNotStringList in Issues(x) <==> !IsStringList(x["authors"]))
    ensures "description" in x ==>
      (DescriptionTooShort in Issues(x) <==>
        !(x["description"].Str? && |Strip(x["description"].s)| >= MinDescriptionLength))
    ensures "genres" in x ==> (GenresNotStringList in Issues(x) <==> !IsStringList(x["genres"]))
    ensures "tropes" in x ==> (TropesNotStringList in Issues(x) <==> !IsStringList(x["tropes"]))
    ensures "spice_level" in x ==> (SpiceLevelInvalid in Issues(x) <==> !InSpiceLevels(x["spice_level"]))
    ensures "source_url" in x ==> (SourceUrlNotString in Issues(x) <==> !x["source_url"].Str?)
  {
    IssuesMembers(x);
    if "description" in x {
      DescriptionLongEnoughIff(x["description"]);
    }
  }

  // ---------------------------------------------------------------------
  // The validator as written: loops appending messages
  // ---------------------------------------------------------------------

  /** The messages of a list of issues, in the same order. */
  function Report(r: seq<Issue>): (m: seq<string>)
    ensures |m| == |r|
    ensures forall i :: 0 <= i < |r| ==> m[i] == r[i].Message()
  {
    if r == [] then [] else [r[0].Message()] + Report(r[1..])
  }

  /** Running a check extends the report by its message exactly when it fires. */
  lemma ReportFired(r: seq<Issue>, x: Record, c: Issue)
    ensures Report(r + Fired(x, c)) == Report(r) + (if Detects(x, c) then [c.Message()] else [])
  {
    var m, m' := Report(r + Fired(x, c)), Report(r) + (if Detects(x, c) then [c.Message()] else []);
    assert forall i :: 0 <= i < |r| ==> (r + Fired(x, c))[i] == r[i];
    assert forall i :: 0 <= i < |m| ==> m[i] == m'[i];
  }

  /** The first half of validate_book: the for loop over REQUIRED_FIELDS,
      appending the issue "missing field: f" for each absent field, in
      order. */
  method MissingFields(x: Record) returns (issues: seq<Issue>)
    ensures issues == Found(x, |RequiredFields|)
  {
    issues := [];
    for k := 0 to |RequiredFields|
      invariant issues == Found(x, k)
    {
      var f := RequiredFields[k];
      if f.Name() !in x {
        issues := issues + [MissingField(f)];
      }
    }
  }

  /** One type check of validate_book: when the check for c fires on x, c is
      appended. The spice_level check is reached only when spice_level is
      absent or hashable; on a list or dict the membership test raises. */
  method TypeCheck(x: Record, issues: seq<Issue>, c: Issue) returns (r: seq<Issue>)
    requires !c.MissingField?
    requires c == SpiceLevelInvalid ==> !("spice_level" in x && Unhashable(x["spice_level"]))
    ensures r == issues + Fired(x, c)
  {
    r := issues;
    match c {
      case TitleNotString =>
        if "title" in x && !x["title"].Str? {
          r := r + [c];
        }
      case AuthorsNotStringList =>
        if "authors" in x {
          var a := x["authors"];
          if !IsStringList(a) {
            r := r + [c];
          }
        }
      case DescriptionTooShort =>
        if "description" in x {
          var d := OrEmpty(x["description"]);
          if !d.Str? || |Strip(d.s)| < MinDescriptionLength {
            r := r + [c];
          }
        }
      case GenresNotStringList =>
        if "genres" in x {
          var g := x["genres"];
          if !IsStringList(g) {
            r := r + [c];
          }
        }
      case TropesNotStringList =>
        if "tropes" in x {
          var t := x["tropes"];
          if !IsStringList(t) {
            r := r + [c];
          }
        }
      case SpiceLevelInvalid =>
        if "spice_level" in x && !InSpiceLevels(x["spice_level"]) {
          r := r + [c];
        }
      case SourceUrlNotString =>
        if "source_url" in x && !x["source_url"].Str? {
          r := r + [c];
        }
    }
  }

  // ---------------------------------------------------------------------
  // The spice_level check as written
  // ---------------------------------------------------------------------

  /** validate_book as written: `x["spice_level"] not in {...}` hashes the
      value, so a list or dict there raises TypeError instead of producing an
      issue (None); on every other record it returns Issues(x). */
  function ValidateAsWritten(x: Record): (r: Option<seq<Issue>>)
    ensures r.None? <==> "spice_level" in x && Unhashable(x["spice_level"])
    ensures r.Some? ==> r.value == Issues(x)
  {
    if "spice_level" in x && Unhashable(x["spice_level"]) then None else Some(Issues(x))
  }

  /** validate_book(x): the missing-field loop, then the seven type checks
      in their fixed order. The membership test on spice_level raises
      TypeError (None) on a list or dict; otherwise the result is Issues(x),
      whose messages are Report(Issues(x)). */
  method ValidateBook(x: Record) returns (r: Option<seq<Issue>>)
    ensures r == ValidateAsWritten(x)
  {
    var issues := MissingFields(x);
    issues := TypeCheck(x, issues, TitleNotString);
    assert issues == Found(x, 9);
    issues := TypeCheck(x, issues, AuthorsNotStringList);
    assert issues == Found(x, 10);
    issues := TypeCheck(x, issues, DescriptionTooShort);
    assert issues == Found(x, 11);
    issues := TypeCheck(x, issues, GenresNotStringList);
    assert issues == Found(x, 12);
    issues := TypeCheck(x, issues, TropesNotStringList);
    assert issues == Found(x, 13);
    if "spice_level" in x && Unhashable(x["spice_level"]) {
      return None;
    }
    issues := TypeCheck(x, issues, SpiceLevelInvalid);
    assert issues == Found(x, 14);
    issues := TypeCheck(x, issues, SourceUrlNotString);
    assert issues == Found(x, 15);
    r := Some(issues);
  }

  /** A record whose spice_level is a list: the validator as written raises,
      where the evidently intended result reports an invalid spice level. */
  lemma SpiceListRaises()
    ensures var x: Record := map["spice_level" := Arr([Str("low")])];
      ValidateAsWritten(x).None? && SpiceLevelInvalid in Issues(x)
  {
    var x: Record := map["spice_level" := Arr([Str("low")])];
    TypeChecksIff(x);
  }
}
