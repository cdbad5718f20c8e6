/**
 * The body of `main` in ingest.py after loading: the loop that overwrites
 * each record's title with the stripped title and its description with the
 * cleaned description, the loop that counts the records validate_book
 * rejects, and the outcome of the whole run.
 */
module Ingest {
  import opened Wrappers
  import opened JsonValues
  import opened TextClean
  import opened Schema
  import opened Seed

  /** `book.get(key) or ""` as the string the cleaning loop goes on with, or
      None when the value is a truthy non-string, on which `.strip()` and
      `re.sub` raise. */
  function TextOrEmpty(r: Record, key: string): (t: Option<string>)
    ensures t.None? <==> key in r && !Falsy(r[key]) && !r[key].Str?
    ensures t.Some? && key in r && r[key].Str? ==> t.value == r[key].s
    ensures t.Some? && (key !in r || !r[key].Str?) ==> t.value == ""
  {
    var v := OrEmpty(if key in r then r[key] else Null);
    if v.Str? then Some(v.s) else None
  }

  /** The cleaning loop gets through a list element: it is a dict (so it has
      `.get`), and its title and description are strings or falsy. */
  predicate Cleanable(b: Json) {
    b.Obj? && TextOrEmpty(b.fields, "title").Some? && TextOrEmpty(b.fields, "description").Some?
  }

  /** The first assignment of the loop body: the title, stripped. Tags and
      inner whitespace stay. */
  function CleanTitle(r: Record): (c: Record)
    requires TextOrEmpty(r, "title").Some?
    ensures c.Keys == r.Keys + {"title"}
    ensures forall k :: k in r && k != "title" ==> c[k] == r[k]
  {
    r["title" := Str(Strip(TextOrEmpty(r, "title").value))]
  }

  /** Both assignments of the loop body. Every other field is left alone. */
  function CleanRecord(r: Record): (c: Record)
    requires TextOrEmpty(r, "title").Some? && TextOrEmpty(r, "description").Some?
    ensures c.Keys == r.Keys + {"title", "description"}
    ensures forall k :: k in r && k != "title" && k != "description" ==> c[k] == r[k]
  {
    CleanTitle(r)["description" := Str(CleanText(TextOrEmpty(r, "description").value))]
  }

  /** After cleaning, the title is a string with no whitespace at either end
      and the description a normalised string: single spaces, none at the
      ends. */
  lemma CleanRecordText(r: Record)
    requires TextOrEmpty(r, "title").Some? && TextOrEmpty(r, "description").Some?
    ensures var c, t, d := CleanRecord(r), TextOrEmpty(r, "title").value, TextOrEmpty(r, "description").value;
      && c["title"].Str? && Stripped(c["title"].s) && NonSpace(c["title"].s) == NonSpace(t)
      && c["description"].Str? && Normalized(c["description"].s)
      && NonSpace(c["description"].s) == NonSpace(StripTags(d))
  {
    NonSpaceStrip(TextOrEmpty(r, "title").value);
    CleanTextKeepsText(TextOrEmpty(r, "description").value);
  }

  /** The list element after the loop body has run on it. */
  function CleanEntry(b: Json): (c: Json)
    requires Cleanable(b)
    ensures c.Obj? && c.fields == CleanRecord(b.fields)
  {
    Obj(CleanRecord(b.fields))
  }

  /** The element the loop body raised on, as it is left: a dict whose title
      was readable already has its stripped title, since the exception only
      comes from the description. */
  function LeftOnRaise(b: Json): (c: Json)
    requires !Cleanable(b)
    ensures b.Obj? && TextOrEmpty(b.fields, "title").Some? ==> c == Obj(CleanTitle(b.fields))
    ensures !b.Obj? || TextOrEmpty(b.fields, "title").None? ==> c == b
  {
    if b.Obj? && TextOrEmpty(b.fields, "title").Some? then Obj(CleanTitle(b.fields)) else b
  }

  /** The index of the first element the cleaning loop raises on, or |s|
      when it gets through them all. */
  function FirstUncleanable(s: seq<Json>): (k: nat)
    ensures k <= |s|
    ensures forall i :: 0 <= i < k ==> Cleanable(s[i])
    ensures k < |s| ==> !Cleanable(s[k])
  {
    if s == [] || !Cleanable(s[0]) then 0 else 1 + FirstUncleanable(s[1..])
  }

  // ---------------------------------------------------------------------
  // What cleaning does to validation
  // ---------------------------------------------------------------------

  /** A cleaned record always has a string title and description, so the
      validator never reports either as missing nor the title's type. */
  lemma CleanedNeverMissing(r: Record)
    requires TextOrEmpty(r, "title").Some? && TextOrEmpty(r, "description").Some?
    ensures var c := CleanRecord(r);
      MissingField(Title) !in Issues(c) && MissingField(Description) !in Issues(c)
      && TitleNotString !in Issues(c)
  {
    var c := CleanRecord(r);
    MissingFieldIff(c, Title);
    MissingFieldIff(c, Description);
    TypeChecksIff(c);
  }

  /** A record without a description (or with a falsy one) gets the empty
      description, which the validator reports as too short rather than
      missing. */
  lemma CleanedAbsentDescription(r: Record)
    requires TextOrEmpty(r, "title").Some? && TextOrEmpty(r, "description").Some?
    requires "description" !in r || Falsy(r["description"])
    ensures var c := CleanRecord(r);
      c["description"] == Str("") && DescriptionTooShort in Issues(c)
      && MissingField(Description) !in Issues(c)
  {
    var c := CleanRecord(r);
    assert TextOrEmpty(r, "description").value == [];
    assert c["description"] == Str([]);
    TypeChecksIff(c);
    MissingFieldIff(c, Description);
  }

  /** Cleaning changes no verdict of the validator except those about the
      title and the description. */
  lemma CleanKeepsOtherIssues(r: Record, i: Issue)
    requires TextOrEmpty(r, "title").Some? && TextOrEmpty(r, "description").Some?
    requires i.Subject() != "title" && i.Subject() != "description"
    ensures i in Issues(CleanRecord(r)) <==> i in Issues(r)
  {
    var c := CleanRecord(r);
    IssuesMembers(r);
    IssuesMembers(c);
    assert i.Subject() in c <==> i.Subject() in r;
    match i
    case MissingField(f) =>
    case TitleNotString =>
    case AuthorsNotStringList =>
    case DescriptionTooShort =>
    case GenresNotStringList =>
    case TropesNotStringList =>
    case SpiceLevelInvalid =>
    case SourceUrlNotString =>
  }

  // ---------------------------------------------------------------------
  // The cleaning loop
  // ---------------------------------------------------------------------

  /** The loop body on element k: the title assignment, then the
      description assignment, each overwriting a key of the dict in place.
      `ok` is false when the body raises part-way. */
  method CleanAt(books: array<Json>, k: nat) returns (ok: bool)
    requires k < books.Length
    modifies books
    ensures ok <==> Cleanable(old(books[k]))
    ensures ok ==> books[k] == CleanEntry(old(books[k]))
    ensures !ok ==> books[k] == LeftOnRaise(old(books[k]))
    ensures forall i :: 0 <= i < books.Length && i != k ==> books[i] == old(books[i])
  {
    var book := books[k];
    if !book.Obj? {
      return false;
    }
    var title := TextOrEmpty(book.fields, "title");
    if title.None? {
      return false;
    }
    books[k] := Obj(books[k].fields["title" := Str(Strip(title.value))]);
    var description := TextOrEmpty(books[k].fields, "description");
    if description.None? {
      return false;
    }
    books[k] := Obj(books[k].fields["description" := Str(CleanText(description.value))]);
    ok := true;
  }

  /** `for book in books:` overwriting title and description. It stops
      at the first element it raises on (stop < books.Length), leaving that
      element as LeftOnRaise says and the later ones untouched; otherwise
      every element is cleaned (stop == books.Length). */
  method CleanAll(books: array<Json>) returns (stop: nat)
    modifies books
    ensures stop == FirstUncleanable(old(books[..]))
    ensures forall i :: 0 <= i < stop ==> books[i] == CleanEntry(old(books[i]))
    ensures stop < books.Length ==> books[stop] == LeftOnRaise(old(books[stop]))
    ensures forall i :: stop < i < books.Length ==> books[i] == old(books[i])
  {
    ghost var s := books[..];
    var k := 0;
    while k < books.Length
      invariant k <= FirstUncleanable(s)
      invariant forall i :: 0 <= i < k ==> books[i] == CleanEntry(s[i])
      invariant forall i :: k <= i < books.Length ==> books[i] == s[i]
    {
      var ok := CleanAt(books, k);
      if !ok {
        break;
      }
      k := k + 1;
    }
    stop := k;
  }

  // ---------------------------------------------------------------------
  // The skip-count loop
  // ---------------------------------------------------------------------

  /** The number of records validate_book rejects, counted front to back. */
  function SkipCount(s: seq<Json>): (n: nat)
    requires forall i :: 0 <= i < |s| ==> s[i].Obj?
    ensures n <= |s|
  {
    if s == [] then 0
    else SkipCount(s[..|s| - 1]) + (if Issues(s[|s| - 1].fields) != [] then 1 else 0)
  }

  /** Nothing is skipped exactly when no record has an issue. */
  lemma {:induction false} SkipCountZero(s: seq<Json>)
    requires forall i :: 0 <= i < |s| ==> s[i].Obj?
    ensures SkipCount(s) == 0 <==> forall i :: 0 <= i < |s| ==> Issues(s[i].fields) == []
  {
    if s != [] {
      var t := s[..|s| - 1];
      SkipCountZero(t);
      assert forall i :: 0 <= i < |t| ==> t[i] == s[i];
    }
  }

  /** Every record is skipped exactly when every record has an issue. */
  lemma {:induction false} SkipCountAll(s: seq<Json>)
    requires forall i :: 0 <= i < |s| ==> s[i].Obj?
    ensures SkipCount(s) == |s| <==> forall i :: 0 <= i < |s| ==> Issues(s[i].fields) != []
  {
    if s != [] {
      var t := s[..|s| - 1];
      SkipCountAll(t);
      assert forall i :: 0 <= i < |t| ==> t[i] == s[i];
    }
  }

  /** Nothing is skipped exactly when every record is well formed, and
      everything is skipped exactly when none is. */
  lemma SkipCountIff(s: seq<Json>)
    requires forall i :: 0 <= i < |s| ==> s[i].Obj?
    ensures SkipCount(s) == 0 <==> forall i :: 0 <= i < |s| ==> WellFormed(s[i].fields)
    ensures SkipCount(s) == |s| <==> forall i :: 0 <= i < |s| ==> !WellFormed(s[i].fields)
  {
    SkipCountZero(s);
    SkipCountAll(s);
    forall i | 0 <= i < |s| ensures Issues(s[i].fields) == [] <==> WellFormed(s[i].fields) {
      IssuesEmptyIff(s[i].fields);
    }
  }

  /** The count over a concatenation is the sum of the counts. */
  lemma {:induction false} SkipCountAppend(a: seq<Json>, b: seq<Json>)
    requires forall i :: 0 <= i < |a| ==> a[i].Obj?
    requires forall i :: 0 <= i < |b| ==> b[i].Obj?
    ensures SkipCount(a + b) == SkipCount(a) + SkipCount(b)
    decreases |b|
  {
    if b == [] {
      assert a + b == a;
    } else {
      var b' := b[..|b| - 1];
      SkipCountAppend(a, b');
      assert (a + b)[..|a + b| - 1] == a + b';
      assert (a + b)[|a + b| - 1] == b[|b| - 1];
    }
  }

  /** The count over one record. */
  lemma SkipCountOne(x: Json)
    requires x.Obj?
    ensures SkipCount([x]) == if Issues(x.fields) != [] then 1 else 0
  {
    assert [x][..0] == [];
  }

  /** The count over three records, one by one. */
  lemma SkipCountThree(x: Json, y: Json, z: Json)
    requires x.Obj? && y.Obj? && z.Obj?
    ensures SkipCount([x, y, z]) ==
      (if Issues(x.fields) != [] then 1 else 0) + (if Issues(y.fields) != [] then 1 else 0)
      + (if Issues(z.fields) != [] then 1 else 0)
  {
    var s1, s2, s3 := [x], [x, y], [x, y, z];
    assert s1[..0] == [];
    assert SkipCount(s1) == (if Issues(x.fields) != [] then 1 else 0);
    assert s2[..1] == s1;
    assert SkipCount(s2) == SkipCount(s1) + (if Issues(y.fields) != [] then 1 else 0);
    assert s3[..2] == s2;
    assert SkipCount(s3) == SkipCount(s2) + (if Issues(z.fields) != [] then 1 else 0);
  }

  /** The skip count over three records: the first valid, the second
      without genres, the third with the description "short". */
  lemma ThreeRecordCount(a: Record, b: Record, c: Record)
    requires WellFormed(a)
    requires "genres" !in b
    requires "description" in c && c["description"] == Str("short")
    ensures MissingField(Genres) in Issues(b) && DescriptionTooShort in Issues(c)
    ensures SkipCount([Obj(a), Obj(b), Obj(c)]) == 2
  {
    WellFormedNoIssues(a);
    MissingFieldIff(b, Genres);
    ShortDescription(c);
    assert Issues(b) != [] && Issues(c) != [];
    SkipCountThree(Obj(a), Obj(b), Obj(c));
  }

  /** The description "short" is five characters after stripping. */
  lemma ShortDescription(c: Record)
    requires "description" in c && c["description"] == Str("short")
    ensures DescriptionTooShort in Issues(c)
  {
    TypeChecksIff(c);
    assert Strip("short") == "short";
  }

  /** validate_book raises on this record: its spice_level is a list or a
      dict, which the membership test cannot hash. */
  predicate SpiceRaises(b: Json) {
    b.Obj? && "spice_level" in b.fields && Unhashable(b.fields["spice_level"])
  }

  /** The position of the first record validate_book raises on, or |s| when
      there is none. */
  function FirstRaising(s: seq<Json>): (k: nat)
    ensures k <= |s|
    ensures forall i :: 0 <= i < k ==> !SpiceRaises(s[i])
    ensures k < |s| ==> SpiceRaises(s[k])
  {
    if s == [] || SpiceRaises(s[0]) then 0 else 1 + FirstRaising(s[1..])
  }

  /** The second loop of main: validate_book on each record, adding one to
      `skipped` for each non-empty issue list. The records are dicts here,
      as the cleaning loop leaves them. A raise in validate_book leaves the
      loop at the first record it happens on (Failure of that position);
      otherwise the loop returns the number of skipped records. */
  method CountSkipped(books: array<Json>) returns (r: Result<nat, nat>)
    requires forall i :: 0 <= i < books.Length ==> books[i].Obj?
    ensures r.Failure? <==> FirstRaising(books[..]) < books.Length
    ensures r.Failure? ==> r.error == FirstRaising(books[..])
    ensures r.Success? ==> r.value == SkipCount(books[..])
  {
    ghost var s := books[..];
    var skipped := 0;
    var k := 0;
    while k < books.Length
      invariant k <= books.Length && k <= FirstRaising(s)
      invariant skipped == SkipCount(s[..k])
    {
      var v := ValidateBook(books[k].fields);
      if v.None? {
        return Failure(k);
      }
      if v.value != [] {
        skipped := skipped + 1;
      }
      assert s[..k + 1][..k] == s[..k];
      k := k + 1;
    }
    assert s[..k] == s;
    r := Success(skipped);
  }

  // ---------------------------------------------------------------------
  // The run
  // ---------------------------------------------------------------------

  /** How main ends: the seed is rejected (the SystemExit handler prints
      "Failed to load book data"), the cleaning loop or validate_book in the
      counting loop raises on element `at` (the Exception handler prints it),
      or both loops finish with the cleaned records and the number of
      skipped ones. */
  datatype Outcome =
    | LoadFailed(error: LoadError)
    | CleaningRaised(at: nat)
    | ValidationRaised(at: nat)
    | Finished(books: seq<Json>, skipped: nat)

  /** Every element cleaned, in order. */
  function CleanedAll(s: seq<Json>): (r: seq<Json>)
    requires forall i :: 0 <= i < |s| ==> Cleanable(s[i])
    ensures |r| == |s|
    ensures forall i :: 0 <= i < |s| ==> r[i] == CleanEntry(s[i])
  {
    seq(|s|, i requires 0 <= i < |s| => CleanEntry(s[i]))
  }

  /** main from the parsed seed to the skip count, with the corrected
      spice_level check (Issues), under which validate_book never raises. */
  function Pipeline(data: Json): (o: Outcome)
    ensures o.LoadFailed? <==> LoadSeed(data).Failure?
    ensures o.CleaningRaised? ==> data.Arr? && o.at < |data.items| && !Cleanable(data.items[o.at])
    ensures !o.ValidationRaised?
    ensures o.Finished? ==> data.Arr? && |o.books| == |data.items| > 0 && o.skipped <= |o.books|
  {
    match LoadSeed(data)
    case Failure(e) => LoadFailed(e)
    case Success(items) =>
      var k := FirstUncleanable(items);
      if k < |items| then CleaningRaised(k)
      else
        var books := CleanedAll(items);
        Finished(books, SkipCount(books))
  }

  /** The run gets through both loops exactly when the seed is a non-empty
      array whose elements are all dicts with string-or-falsy titles and
      descriptions (with the corrected spice_level check). */
  lemma PipelineFinishedIff(data: Json)
    ensures Pipeline(data).Finished? <==>
      data.Arr? && |data.items| > 0 && forall i :: 0 <= i < |data.items| ==> Cleanable(data.items[i])
  {
    if data.Arr? && |data.items| > 0 && forall i :: 0 <= i < |data.items| ==> Cleanable(data.items[i]) {
      assert FirstUncleanable(data.items) == |data.items|;
    }
  }

  /** A non-empty seed of cleanable records finishes the corrected run with
      every record cleaned. */
  lemma PipelineAllCleanable(items: seq<Json>)
    requires |items| > 0 && forall i :: 0 <= i < |items| ==> Cleanable(items[i])
    ensures Pipeline(Arr(items)) == Finished(CleanedAll(items), SkipCount(CleanedAll(items)))
  {
    assert FirstUncleanable(items) == |items|;
  }

  /** After a finished run, no record is reported as missing its title or
      description, and nothing was skipped exactly when every cleaned record
      is well formed. */
  lemma PipelineFinished(data: Json)
    requires Pipeline(data).Finished?
    ensures var o := Pipeline(data);
      && (forall i :: 0 <= i < |o.books| ==>
            && MissingField(Title) !in Issues(o.books[i].fields)
            && MissingField(Description) !in Issues(o.books[i].fields)
            && TitleNotString !in Issues(o.books[i].fields))
      && (o.skipped == 0 <==> forall i :: 0 <= i < |o.books| ==> WellFormed(o.books[i].fields))
  {
    var o := Pipeline(data);
    var items := data.items;
    forall i | 0 <= i < |o.books|
      ensures MissingField(Title) !in Issues(o.books[i].fields)
      ensures MissingField(Description) !in Issues(o.books[i].fields)
      ensures TitleNotString !in Issues(o.books[i].fields)
    {
      CleanedNeverMissing(items[i].fields);
    }
    SkipCountIff(o.books);
  }

  /** main as written, from the parsed seed to the skip count: as Pipeline,
      but validate_book raises on a cleaned record whose spice_level is a
      list or dict, and the first such record ends the run. */
  function PipelineAsWritten(data: Json): (o: Outcome)
    ensures o.LoadFailed? <==> LoadSeed(data).Failure?
    ensures o.CleaningRaised? ==> data.Arr? && o.at < |data.items| && !Cleanable(data.items[o.at])
    ensures o.ValidationRaised? ==> data.Arr? && o.at < |data.items| && SpiceRaises(data.items[o.at])
    ensures o.Finished? ==> data.Arr? && |o.books| == |data.items| > 0 && o.skipped <= |o.books|
  {
    match LoadSeed(data)
    case Failure(e) => LoadFailed(e)
    case Success(items) =>
      var k := FirstUncleanable(items);
      if k < |items| then CleaningRaised(k)
      else
        var books := CleanedAll(items);
        var j := FirstRaising(books);
        if j < |books| then
          CleanedSpice(items[j]);
          ValidationRaised(j)
        else Finished(books, SkipCount(books))
  }

  /** Cleaning leaves spice_level alone, so validate_book raises on a cleaned
      record exactly when it would have on the record as loaded. */
  lemma CleanedSpice(b: Json)
    requires Cleanable(b)
    ensures SpiceRaises(CleanEntry(b)) <==> SpiceRaises(b)
  {
  }

  /** validate_book raises on the cleaned records exactly where it raises on
      the loaded ones. */
  lemma CleanedFirstRaising(items: seq<Json>)
    requires forall i :: 0 <= i < |items| ==> Cleanable(items[i])
    ensures FirstRaising(CleanedAll(items)) == FirstRaising(items)
  {
    var books := CleanedAll(items);
    forall i | 0 <= i < |items| ensures SpiceRaises(books[i]) <==> SpiceRaises(items[i]) {
      CleanedSpice(items[i]);
    }
    var k, j := FirstRaising(books), FirstRaising(items);
    if k < |items| { assert SpiceRaises(items[k]); }
    if j < |items| { assert SpiceRaises(books[j]); }
  }

  /** Where main as written and the corrected run part: only a run that the
      corrected check finishes can differ, exactly when some loaded record
      has a list or dict spice_level, and main then raises at the first of
      them. Otherwise the two outcomes are the same. */
  lemma PipelineAsWrittenDiffers(data: Json)
    ensures var o, w := Pipeline(data), PipelineAsWritten(data);
      && (w != o <==> o.Finished? && exists i :: 0 <= i < |data.items| && SpiceRaises(data.items[i]))
      && (w != o ==> w == ValidationRaised(FirstRaising(data.items)))
  {
    var o, w := Pipeline(data), PipelineAsWritten(data);
    if o.Finished? {
      var items := data.items;
      assert FirstUncleanable(items) == |items|;
      CleanedFirstRaising(items);
      var j := FirstRaising(items);
      if exists i :: 0 <= i < |items| && SpiceRaises(items[i]) {
        var i :| 0 <= i < |items| && SpiceRaises(items[i]);
        assert j <= i;
      }
    }
  }

  /** main as written gets through both loops exactly when the seed is a
      non-empty array of dicts with string-or-falsy titles and descriptions,
      none of whose spice levels is a list or dict. */
  lemma PipelineAsWrittenFinishedIff(data: Json)
    ensures PipelineAsWritten(data).Finished? <==>
      && data.Arr? && |data.items| > 0
      && (forall i :: 0 <= i < |data.items| ==> Cleanable(data.items[i]))
      && (forall i :: 0 <= i < |data.items| ==> !SpiceRaises(data.items[i]))
  {
    PipelineFinishedIff(data);
    PipelineAsWrittenDiffers(data);
  }

  /** A seed of one record whose spice_level is a list or dict, such as
      `[{"spice_level": ["low"]}]`: the corrected run finishes with the record
      skipped for its spice level, while main as written raises on it in
      the counting loop. */
  lemma SpiceListRun(x: Record)
    requires Cleanable(Obj(x)) && SpiceRaises(Obj(x))
    ensures var data := Arr([Obj(x)]);
      && Pipeline(data).Finished? && Pipeline(data).skipped == 1
      && PipelineAsWritten(data) == ValidationRaised(0)
  {
    var data := Arr([Obj(x)]);
    var c := CleanEntry(Obj(x));
    assert Pipeline(data) == Finished([c], SkipCount([c])) by {
      PipelineAllCleanable([Obj(x)]);
      assert CleanedAll([Obj(x)]) == [c];
    }
    CleanedSpice(Obj(x));
    SpiceRaisesSkipped(c);
    assert PipelineAsWritten(data) == ValidationRaised(0) by {
      PipelineAsWrittenDiffers(data);
      assert SpiceRaises(data.items[0]);
    }
  }

  /** The record `{"spice_level": ["low"]}` is one of these. */
  lemma SpiceListExample()
    ensures var b := Obj(map["spice_level" := Arr([Str("low")])]);
      Cleanable(b) && SpiceRaises(b)
  {
  }

  /** A record with a list or dict spice_level alone is skipped by the
      corrected check. */
  lemma SpiceRaisesSkipped(x: Json)
    requires SpiceRaises(x)
    ensures SkipCount([x]) == 1
  {
    TypeChecksIff(x.fields);
    SkipCountOne(x);
  }


  /** A seed of three records: the first valid once cleaned, the second
      without genres, the third with a description that cleans to "short".
      The run finishes with two records skipped, and main as written ends the
      same way unless the second or third has a list or dict spice_level. */
  lemma ThreeRecordRun(a: Record, b: Record, c: Record)
    requires Cleanable(Obj(a)) && Cleanable(Obj(b)) && Cleanable(Obj(c))
    requires WellFormed(CleanRecord(a))
    requires "genres" !in b
    requires "description" in c && c["description"].Str? && CleanText(c["description"].s) == "short"
    ensures var data := Arr([Obj(a), Obj(b), Obj(c)]);
      && Pipeline(data).Finished? && Pipeline(data).skipped == 2
      && (!SpiceRaises(Obj(b)) && !SpiceRaises(Obj(c)) ==> PipelineAsWritten(data) == Pipeline(data))
  {
    var a', b', c' := CleanRecord(a), CleanRecord(b), CleanRecord(c);
    PipelineThree(a, b, c);
    assert c'["description"] == Str("short");
    ThreeRecordCount(a', b', c');
    if !SpiceRaises(Obj(b)) && !SpiceRaises(Obj(c)) {
      AsWrittenThree(a, b, c);
    }
  }

  /** The corrected run over three cleanable records. */
  lemma PipelineThree(a: Record, b: Record, c: Record)
    requires Cleanable(Obj(a)) && Cleanable(Obj(b)) && Cleanable(Obj(c))
    ensures var books := [Obj(CleanRecord(a)), Obj(CleanRecord(b)), Obj(CleanRecord(c))];
      Pipeline(Arr([Obj(a), Obj(b), Obj(c)])) == Finished(books, SkipCount(books))
  {
    var items := [Obj(a), Obj(b), Obj(c)];
    var books := CleanedAll(items);
    assert FirstUncleanable(items) == 3 by {
      assert Cleanable(items[0]) && Cleanable(items[1]) && Cleanable(items[2]);
    }
    assert books == [Obj(CleanRecord(a)), Obj(CleanRecord(b)), Obj(CleanRecord(c))] by {
      assert |books| == 3;
      assert books[0] == CleanEntry(items[0]) && books[1] == CleanEntry(items[1]) && books[2] == CleanEntry(items[2]);
    }
  }

  /** Three cleanable records none of which raises in validate_book: main as
      written ends as the corrected run. */
  lemma AsWrittenThree(a: Record, b: Record, c: Record)
    requires Cleanable(Obj(a)) && Cleanable(Obj(b)) && Cleanable(Obj(c))
    requires WellFormed(CleanRecord(a)) && !SpiceRaises(Obj(b)) && !SpiceRaises(Obj(c))
    ensures var data := Arr([Obj(a), Obj(b), Obj(c)]);
      PipelineAsWritten(data) == Pipeline(data)
  {
    var items := [Obj(a), Obj(b), Obj(c)];
    assert !SpiceRaises(Obj(a)) by {
      WellFormedNoRaise(CleanRecord(a));
      CleanedSpice(Obj(a));
    }
    assert forall i :: 0 <= i < |items| ==> !SpiceRaises(items[i]) by {
      assert items[0] == Obj(a) && items[1] == Obj(b) && items[2] == Obj(c);
    }
    PipelineAsWrittenDiffers(Arr(items));
  }

  /** A well-formed record's spice_level is a string, which hashes. */
  lemma WellFormedNoRaise(x: Record)
    requires WellFormed(x)
    ensures !SpiceRaises(Obj(x))
  {
  }

  /** main: load, clean every record in place, count the skipped ones. A
      raise in either loop ends the run at the record it happens on. */
  method Run(data: Json) returns (o: Outcome)
    ensures o == PipelineAsWritten(data)
  {
    var loaded := LoadSeed(data);
    if loaded.Failure? {
      return LoadFailed(loaded.error);
    }
    var items := loaded.value;
    var books := new Json[|items|](i requires 0 <= i < |items| => items[i]);
    assert books[..] == items;
    var stop := CleanAll(books);
    if stop < books.Length {
      return CleaningRaised(stop);
    }
    assert books[..] == CleanedAll(items);
    var counted := CountSkipped(books);
    if counted.Failure? {
      return ValidationRaised(counted.error);
    }
    o := Finished(books[..], counted.value);
  }
}
