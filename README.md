# Book seed ingestion: validation and preparation

This project models the record-preparation core of `ingest.py`, a script that
loads a seed catalogue of book records and prepares it for indexing. The
model covers four parts:

- **Seed shape check** (`load_seed` after parsing). The parsed JSON value must
  be a non-empty array. Anything else is fatal.
- **Text normaliser** (`clean_text`). Every `<.*?>` tag becomes one space,
  runs of whitespace become one space, and the result is stripped.
- **Record validator** (`validate_book`). It reports each missing required
  field in `REQUIRED_FIELDS` order, then the type checks on title, authors,
  description, genres, tropes, spice_level and source_url. An empty list
  means the record is valid.
- **The body of `main`.**
  - The loop that overwrites every record's `title` with the stripped title
    and its `description` with the cleaned description, in place.
  - The loop that counts the records the validator rejects.
  - The way the run ends.

Modules, one per file:

- `Wrappers` (`wrappers.dfy`): `Option` and `Result`.
- `JsonValues` (`json.dfy`): parsed JSON values, Python truthiness, and
  "list of strings".
- `TextClean` (`text.dfy`): `clean_text`, as three explicit scanners:
  - `StripTags` for `re.sub(r"<.*?>", " ", t)`;
  - `CollapseSpaces` for `re.sub(r"\s+", " ", t)`;
  - `Strip` for `str.strip()`.

  `IsSpace` is Python's whitespace set, written out. `\s`, `isspace()` and
  `strip()` share that set on `str`.
- `Schema` (`schema.dfy`): `validate_book`.
  - Issues are a datatype. `Issue.Message()` gives the exact string the
    source appends.
  - `Issues(x)` is the specification: the checks, in the validator's order,
    that fire on x.
  - `Issues(x)` uses the corrected spice_level check (see Findings).
    `ValidateAsWritten(x)` is the code's own outcome: it raises on a list or
    dict spice_level and otherwise returns `Issues(x)`.
  - The method `ValidateBook` follows the source's loop and `if` chain,
    including the raise, and is proved to return `ValidateAsWritten(x)`.
  - The list of strings the source returns is `Report(Issues(x))`.
- `Seed` (`seed.dfy`): the shape check.
- `Ingest` (`ingest.dfy`): the cleaning loop, the skip-count loop and the
  outcome of `main`.
  - The records sit in an `array` that the cleaning loop updates in place.
  - `PipelineAsWritten` is the functional specification of a run of
    `main` as written. `Pipeline` is the run with the corrected spice_level
    check, and `PipelineAsWrittenDiffers` says exactly where the two part.
  - `Run` is the method, proved equal to `PipelineAsWritten`.

Facts about the code that a reader may not expect:

- **Idempotence.** `clean_text` is not idempotent. The tag pattern's `.`
  does not match a newline, so `"<\n>"` survives the tag step and becomes
  `"< >"`. A second pass then removes `"< >"` as a tag
  (`TextClean.CleanTextNotIdempotent`). Idempotence holds for input without a
  newline (`TextClean.CleanTextIdempotent`).
- **Non-object elements.** `load_seed` checks only that the seed is a
  non-empty array. An element that is not a dict makes the cleaning loop
  raise, and the run ends as `CleaningRaised`.
- **Required fields.** `REQUIRED_FIELDS` is a fixed list of eight fields.
- **Unhashable spice levels.** `validate_book` tests `spice_level` for
  membership in a set. A list or dict there raises `TypeError`, which ends
  the counting loop and the run (`ValidationRaised`).

## Model

| member | source | states |
|---|---|---|
| `Seed.LoadSeed` | ingest.py:20-23 | Succeeds exactly when the parsed value is a non-empty array, and then yields that array's elements unchanged. Every other value is the fatal error. |
| `JsonValues.Falsy` | ingest.py:26 | Python truthiness: a string, list or dict is falsy exactly when its length is 0 (None, False and 0 are falsy too). It decides `if not t`, `v or ""` and `book.get(k) or ""`. |
| `TextClean.CloseFrom` | ingest.py:28 | Finds the `>` that closes a tag: the first `>` after the `<` with neither `>` nor newline before it. There is none exactly when every later `>` has a newline before it. |
| `TextClean.StripTags` | ingest.py:28 | Tag replacement introduces no character except the space: every other output character occurs in the input. |
| `TextClean.CloseFromAt` | ingest.py:28 | The tag ends at the first `>` when no newline and no other `>` come before it. |
| `TextClean.StripTagsHead` | ingest.py:28 | A first character other than `<` is copied. |
| `TextClean.StripTagsPrefix` | ingest.py:28 | Text before the first `<` is copied unchanged, and replacement goes on with the rest. |
| `TextClean.StripTagsTag` | ingest.py:28 | A tag `<m>` whose body has no `>` and no newline becomes exactly one space, and replacement goes on after it. |
| `TextClean.StripTagsUnclosed` | ingest.py:28 | A `<` that no `>` closes on its line is kept, and replacement goes on after it. |
| `TextClean.StripTagsTagFree` | ingest.py:28 | On input without a newline, tag replacement leaves no `<` that has a `>` after it. |
| `TextClean.StripTagsFixed` | ingest.py:28 | A string without a newline and without a `<` followed later by `>` is left unchanged by tag replacement. |
| `TextClean.StripTagsNoTag` | ingest.py:28 | A string without `<` is left unchanged by tag replacement. |
| `TextClean.StripTagsBrokenTag` | ingest.py:28 | A tag broken by a newline, `"<\n>"`, is not replaced. |
| `TextClean.CollapseSpaces` | ingest.py:29 | `re.sub(r"\s+", " ", t)`: the result is empty exactly when the input is, and starts with a space when the input starts with whitespace and with the input's first character otherwise. What it computes in full is stated by `TextClean.CollapseWords`. |
| `TextClean.CollapseSpacesCollapsed` | ingest.py:29 | After collapsing, the only whitespace is single spaces, never two adjacent. |
| `TextClean.CollapseSpacesKeeps` | ingest.py:29 | Collapsing introduces no character except the space. |
| `TextClean.CollapseSpacesTagFree` | ingest.py:29 | Collapsing keeps a tag-free string tag-free. |
| `TextClean.CollapseSpacesFixed` | ingest.py:29 | A string whose whitespace is already single spaces is left unchanged. |
| `TextClean.NonSpaceCollapse` | ingest.py:29 | Collapsing keeps every non-whitespace character, in order. |
| `TextClean.CollapseBrokenTag` | ingest.py:29 | `"<\n>"` collapses to `"< >"`. |
| `TextClean.TrimStart` | ingest.py:30 | lstrip, the first half of `strip()`: the result is no longer than the input and does not start with whitespace. `TrimStartSpec` says what it keeps. |
| `TextClean.TrimEnd` | ingest.py:30 | rstrip, the second half of `strip()`: the result is no longer than the input and does not end with whitespace. `TrimEndSpec` says what it keeps. |
| `TextClean.TrimStartSpec` | ingest.py:30 | lstrip keeps a suffix of its argument, and everything it drops is whitespace. |
| `TextClean.TrimEndSpec` | ingest.py:30 | rstrip keeps a prefix of its argument, and everything it drops is whitespace. |
| `TextClean.Strip` | ingest.py:30 | The stripped string neither starts nor ends with whitespace. |
| `TextClean.StripCut` | ingest.py:30 | The stripped string is a contiguous slice of the input, and everything cut off on either side is whitespace. |
| `TextClean.NonSpaceStrip` | ingest.py:30 | Stripping keeps every non-whitespace character, in order. |
| `TextClean.CleanText` | ingest.py:25-30 | Empty input gives `""`. Every output has no whitespace at either end, only single spaces inside, and no newline. |
| `TextClean.CleanTextTagFree` | ingest.py:28-30 | On input without a newline, the output has no `<` that is followed later by `>`. |
| `TextClean.CleanTextFixed` | ingest.py:25-30 | A normalised, tag-free string is its own cleaned form. |
| `TextClean.CleanTextIdempotent` | ingest.py:25-30 | On input without a newline, cleaning twice gives the same as cleaning once. |
| `TextClean.CleanTextKeepsText` | ingest.py:25-30 | Cleaning keeps the non-whitespace characters that tag replacement keeps, in order. On input without `<`, it keeps all of them. |
| `TextClean.CleanTextBrokenTag` | ingest.py:28-30 | `"<\n>"` cleans to `"< >"`. |
| `TextClean.CleanTextOneLineTag` | ingest.py:28-30 | `"< >"` cleans to `""`. |
| `TextClean.CleanTextNotIdempotent` | ingest.py:25-30 | Counterexample to idempotence: cleaning `"<\n>"` twice differs from cleaning it once. |
| `TextClean.WordLen` | ingest.py:29 | The length of the leading run of non-whitespace is at most the length of the string, and positive when the string starts with non-whitespace. |
| `TextClean.WordLenSpec` | ingest.py:29 | Everything before that length is non-whitespace, and the character at it is whitespace. |
| `TextClean.WordsAreWords` | ingest.py:29-30 | `str.split()` yields non-empty words without whitespace. |
| `TextClean.WordsStep` | ingest.py:29-30 | On a string that starts with a word, `split()` yields that word and then the words of the rest. |
| `TextClean.WordsTrimStart` | ingest.py:29-30 | `split()` ignores leading whitespace. |
| `TextClean.JoinBySpaceEnds` | ingest.py:29-30 | Words joined by single spaces are empty only for no words, and otherwise start and end with non-whitespace. |
| `TextClean.CollapseWord` | ingest.py:29 | A run without whitespace passes through collapsing unchanged. |
| `TextClean.CollapseGap` | ingest.py:29 | A leading run of whitespace becomes one space before the collapsed rest. |
| `TextClean.CollapseWordThenGap` | ingest.py:29 | A word followed by whitespace collapses to the word, one space, and the collapsed text after the whitespace. |
| `TextClean.CollapseWords` | ingest.py:29 | On a string that does not start with whitespace, collapsing gives the words joined by single spaces, plus one space when the string ends with whitespace. |
| `TextClean.TrimStartSpaces` | ingest.py:30 | lstrip goes through any leading whitespace. |
| `TextClean.TrimEndSpaces` | ingest.py:30 | rstrip goes through any trailing whitespace. |
| `TextClean.StripPadded` | ingest.py:30 | Stripping whitespace from around a string without whitespace at its ends gives that string. |
| `TextClean.StripCollapseWords` | ingest.py:29-30 | Collapsing and stripping is `" ".join(s.split())`. |
| `TextClean.CleanTextWords` | ingest.py:25-30 | `clean_text(t)` is `" ".join(u.split())`, where u is t with its tags replaced, for every t. |
| `TextClean.CleanTextTagBetween` | ingest.py:25-30 | A one-line tag between two letters becomes one space, as in `"a<b>c"` to `"a c"`. |
| `TextClean.CleanTextGapBetween` | ingest.py:25-30 | Whitespace between two letters becomes one space, as in `"a  b"` to `"a b"`. |
| `Schema.RequiredFieldsIndexed` | ingest.py:5-8 | `REQUIRED_FIELDS` has eight entries and lists every field exactly once, each at its own position. |
| `Schema.OrEmpty` | ingest.py:48 | `v or ""`: a falsy value becomes `""`, any other value is kept. |
| `Schema.DescriptionLongEnoughIff` | ingest.py:48-49 | The description passes exactly when it is a string whose stripped length is at least 40. Replacing a falsy value by `""` never lets one pass. |
| `Schema.Detects` | ingest.py:36-67 | When each check of `validate_book` fires: a presence check exactly when its field is absent, and a type check only when its field is present. |
| `Schema.DetectsNeedsField` | ingest.py:39-67 | A type check fires only on a field that is present. |
| `Schema.CheckAt` | ingest.py:35-67 | The validator runs 15 checks. The k-th has rank k, and exactly the first eight are presence checks. |
| `Schema.CheckAtRank` | ingest.py:35-67 | Every issue the validator can report is produced by exactly one of its 15 checks. |
| `Schema.FoundMembers` | ingest.py:33-67 | After the first k checks, an issue is in the list exactly when its check is among them and fires. |
| `Schema.FoundIncreasing` | ingest.py:33-67 | After the first k checks, the issues are in strictly increasing check order. |
| `Schema.Issues` | ingest.py:32-69 | The validator reports at most `len(REQUIRED_FIELDS) + 7` issues. |
| `Schema.IssuesMembers` | ingest.py:32-69 | An issue is reported exactly when its check fires on the record. |
| `Schema.IssuesOrdered` | ingest.py:33-69 | Issues come in the fixed order (missing fields in `REQUIRED_FIELDS` order, then title, authors, description, genres, tropes, spice_level, source_url), never twice, and every missing-field issue precedes every type issue. |
| `Schema.HasRequiredFieldsIff` | ingest.py:35-37 | Every required key is present exactly when every field's name is a key. |
| `Schema.WellFormedIff` | ingest.py:32-69 | A record satisfies the field-by-field validity conditions exactly when none of the validator's checks fires on it. |
| `Schema.IssuesEmptyIff` | ingest.py:32-69 | The issue list is empty exactly when all of these hold: all eight fields are present; title and source_url are strings; authors, genres and tropes are lists of strings; description is a string of stripped length at least 40; spice_level is one of low, medium, high, unknown. |
| `Schema.MissingFieldIff` | ingest.py:35-37 | "missing field: f" is reported exactly when f is absent, and no type issue is reported about an absent field. |
| `Schema.TypeChecksIff` | ingest.py:39-67 | For each present field, its type issue is reported exactly when the source's type condition fails. |
| `Schema.Report` | ingest.py:37-67 | The returned strings are the issues' messages, one for one and in the same order. |
| `Schema.ReportFired` | ingest.py:39-67 | A check extends the message list by its message exactly when it fires, and leaves it unchanged otherwise. |
| `Schema.MissingFields` | ingest.py:33-37 | The loop over `REQUIRED_FIELDS` yields exactly the issues of the eight presence checks, in order. |
| `Schema.TypeCheck` | ingest.py:39-67 | Each type check appends its issue exactly when it fires, and appends nothing otherwise. The spice_level check is called only where its membership test does not raise. |
| `Schema.ValidateBook` | ingest.py:32-69 | The validator as written: it raises (`None`) exactly when spice_level is a list or dict, and otherwise returns `Issues(x)`. |
| `Schema.ValidateAsWritten` | ingest.py:62-64 | The membership test in the spice_level check raises exactly when spice_level is a list or a dict. Otherwise the result is `Issues(x)`. |
| `Schema.SpiceListRaises` | ingest.py:62-64 | For the record `{"spice_level": ["low"]}`, the validator as written raises, while `Issues` reports the invalid spice level. |
| `Ingest.TextOrEmpty` | ingest.py:80-81 | `book.get(key) or ""`: a missing or falsy value gives `""`, a string gives itself, and a truthy non-string makes the loop raise. |
| `Ingest.CleanTitle` | ingest.py:80 | The title assignment adds or overwrites `title` and leaves every other key unchanged. |
| `Ingest.CleanRecord` | ingest.py:80-81 | The loop body's two assignments add or overwrite exactly `title` and `description`, and change no other field. |
| `Ingest.CleanRecordText` | ingest.py:80-81 | After cleaning, the title is a string with no whitespace at either end and the same non-whitespace text. The description is a normalised string with the non-whitespace text the tag step keeps. |
| `Ingest.LeftOnRaise` | ingest.py:79-81 | When the loop raises on a dict whose title was readable, the title has already been overwritten. Any other element it raises on is unchanged. |
| `Ingest.FirstUncleanable` | ingest.py:79-81 | The loop stops at the first element it raises on, and every element before that one is cleanable. |
| `Ingest.CleanedNeverMissing` | ingest.py:79-81 | After cleaning, the validator never reports a missing title, a missing description, or a non-string title. |
| `Ingest.CleanedAbsentDescription` | ingest.py:81 | A missing or falsy description becomes `""`, which is reported as too short rather than missing. |
| `Ingest.CleanKeepsOtherIssues` | ingest.py:79-81 | Cleaning changes no validation verdict except those about title and description. |
| `Ingest.CleanAt` | ingest.py:80-81 | The loop body, in place on element k. It fails exactly on an uncleanable element, and leaves it as `LeftOnRaise` says. On success the element becomes its cleaned form. No other element changes. |
| `Ingest.CleanAll` | ingest.py:79-81 | The cleaning loop stops at the first element it raises on, or at the end. Every earlier element is cleaned, the one it stopped on is left as `LeftOnRaise` says, and later ones are untouched. |
| `Ingest.SkipCount` | ingest.py:85-90 | The number of skipped records is at most the number of records. |
| `Ingest.SkipCountZero` | ingest.py:85-90 | Nothing is skipped exactly when every record's issue list is empty. |
| `Ingest.SkipCountAll` | ingest.py:85-90 | Every record is skipped exactly when every record's issue list is non-empty. |
| `Ingest.SkipCountIff` | ingest.py:85-90 | Nothing is skipped exactly when every record is well formed. Everything is skipped exactly when none is. |
| `Ingest.SkipCountAppend` | ingest.py:85-90 | The count over two lists of records concatenated is the sum of their counts. |
| `Ingest.SkipCountThree` | ingest.py:85-90 | Over three records, the count adds one for each record with issues. |
| `Ingest.ShortDescription` | ingest.py:47-50 | The description "short" is reported as too short. |
| `Ingest.SkipCountOne` | ingest.py:85-90 | One record is skipped exactly when its issue list is non-empty. |
| `Ingest.ThreeRecordCount` | ingest.py:85-90 | Over three records, one valid, one without genres and one with description "short", two are skipped; the second is reported for its genres and the third for its description. |
| `Ingest.FirstRaising` | ingest.py:87-88 | The counting loop stops at the first record whose spice_level is a list or dict, or at the end; no record before it has one. |
| `Ingest.CountSkipped` | ingest.py:85-90 | The counting loop raises at the first record whose spice_level is a list or dict, if there is one. Otherwise it returns exactly the number of records with a non-empty issue list. |
| `Ingest.Pipeline` | ingest.py:71-108 | The run with the corrected spice_level check. It fails to load exactly when the shape check fails. It raises only on an element the cleaning loop raises on, and never in the counting loop. When it finishes, it has one cleaned record per seed element and skips at most that many. |
| `Ingest.PipelineFinishedIff` | ingest.py:71-108 | With the corrected spice_level check, a run gets through both loops exactly when the seed is a non-empty array of dicts whose titles and descriptions are strings or falsy. |
| `Ingest.PipelineAllCleanable` | ingest.py:79-90 | A non-empty seed of cleanable records finishes the corrected run with every record cleaned. |
| `Ingest.PipelineFinished` | ingest.py:79-95 | After a finished run, no record is reported as missing its title or description, and the skip count is zero exactly when every cleaned record is well formed. |
| `Ingest.PipelineAsWritten` | ingest.py:71-108 | `main` as written. It fails to load exactly when the shape check fails. It raises in the cleaning loop only on an element that loop raises on, and in the counting loop only on an element whose spice_level is a list or dict. When it finishes, it has one cleaned record per seed element and skips at most that many. |
| `Ingest.CleanedSpice` | ingest.py:62-81 | Cleaning leaves spice_level alone, so `validate_book` raises on a cleaned record exactly when it would on the loaded one. |
| `Ingest.CleanedFirstRaising` | ingest.py:79-88 | The counting loop raises at the same position whether the records are cleaned first or not. |
| `Ingest.PipelineAsWrittenDiffers` | ingest.py:62-108 | `main` as written and the corrected run differ exactly when the corrected run finishes and some seed record has a list or dict spice_level. `main` as written then raises at the first of them. |
| `Ingest.PipelineAsWrittenFinishedIff` | ingest.py:71-108 | `main` as written gets through both loops exactly when the seed is a non-empty array of dicts whose titles and descriptions are strings or falsy and none of whose spice levels is a list or dict. |
| `Ingest.SpiceRaisesSkipped` | ingest.py:62-64 | Under the corrected check, a record with a list or dict spice_level is skipped. |
| `Ingest.SpiceListExample` | ingest.py:62-63 | The record `{"spice_level": ["low"]}` gets through the cleaning loop, and its spice_level makes the membership test raise; so the seed `[{"spice_level": ["low"]}]` meets `SpiceListRun`'s requires. |
| `Ingest.SpiceListRun` | ingest.py:62-108 | On a seed of one such record, for example `[{"spice_level": ["low"]}]`, the corrected run finishes with one record skipped, while `main` as written raises at record 0 in the counting loop. |
| `Ingest.PipelineThree` | ingest.py:79-90 | A seed of three cleanable records finishes the corrected run with each record cleaned in place. |
| `Ingest.WellFormedNoRaise` | ingest.py:62-63 | A well-formed record's spice_level is a string, so the membership test does not raise. |
| `Ingest.AsWrittenThree` | ingest.py:62-108 | Three cleanable records, the first well formed once cleaned and the others without a list or dict spice_level: `main` as written ends like the corrected run. |
| `Ingest.ThreeRecordRun` | ingest.py:71-95 | A seed of three records: the first valid once cleaned, the second without genres, the third with a description that cleans to "short". The run finishes with two skipped, and `main` as written ends the same way unless the second or third record has a list or dict spice_level. |
| `Ingest.Run` | ingest.py:71-108 | `main` as written (load, clean in place, count, each loop possibly raising) ends exactly as `PipelineAsWritten` says. |

## Left out

- File opening, `json.load`, and the handlers for a missing file and invalid JSON (ingest.py:10-19) are I/O. The model starts from the parsed value.
- All console output is left out: the load message, the per-record skip report, the final count and the sample-book printout (ingest.py:76, 91-95, 98-103).
- The sample printout reads `rating`, which is not a required field, so a finished run can still end in the `except Exception` handler. The `Finished` outcome stops at the skip count.
- `Ingest.PipelineAsWritten`: `sys.exit` and the two broad handlers (ingest.py:21-22, 105-108) become the `LoadFailed`, `CleaningRaised` and `ValidationRaised` outcomes. The printed text is not modelled.
- `Ingest.Pipeline` describes the run with the corrected spice_level check, not `main` as written. It never ends in `ValidationRaised`. `main` as written is `Ingest.PipelineAsWritten`, and `Ingest.PipelineAsWrittenDiffers` says exactly where the two differ.
- `Ingest.PipelineFinishedIff` is about that corrected run. For `main` as written, see `Ingest.PipelineAsWrittenFinishedIff`, which also requires no list or dict spice_level.
- Python's regex engine and Unicode tables are replaced by explicit scanners and a written-out whitespace set (`TextClean.IsSpace`).
  - Only `str` input is modelled. Byte strings do not occur.
- `JsonValues.Json.Num` is a real number. Python's int/float distinction, NaN and infinities are not modelled, and none of them changes a check here.
- `Ingest.CleanAll`: the list holds references to dicts that the loop mutates. The model holds the dict values in an array cell that it overwrites. The two agree because `json.load` never shares a dict between two elements; aliasing is not modelled.
- `Ingest.CountSkipped` requires every element to be a dict. That holds whenever the counting loop is reached, because the cleaning loop raises on anything else.
- `Schema.Issues` and the properties built on it (`SkipCount`, `Pipeline`) use the corrected spice_level check (see Findings). The raising behaviour of the code as written is `Schema.ValidateAsWritten`, which the methods `Schema.ValidateBook`, `Ingest.CountSkipped` and `Ingest.Run` follow.
- Embedding-text construction, batching and the vector-store client are not part of this model. The script contains no code for them.

## Findings

| source | as written | input that shows it | evidently intended | confidence | as-written member | corrected member |
|---|---|---|---|---|---|---|
| ingest.py:62-64 | `x["spice_level"] not in {"low", "medium", "high", "unknown"}` hashes the value. A list or dict raises `TypeError`, which escapes `validate_book` and the counting loop and ends the whole run in the `except Exception` handler. | a record with `"spice_level": ["low"]` (`Schema.SpiceListRaises`); the seed `[{"spice_level": ["low"]}]` (`Ingest.SpiceListExample`, `Ingest.SpiceListRun`) | the record is skipped with the invalid-spice-level message, like any other invalid value | high; not executed | `Schema.ValidateAsWritten` | `Schema.Issues` |
