/**
 * The text normaliser `clean_text` of ingest.py: tags (`<.*?>`) become one
 * space, runs of whitespace (`\s+`) become one space, and the result is
 * stripped. Python's regex engine is replaced by explicit scanners.
 */
module TextClean {
  import opened Wrappers

  /** The characters Python's `str.isspace()`, the `\s` class of a str
      pattern and `str.strip()` all treat as whitespace. The proofs only use
      that ' ' and '\n' are whitespace and '<' and '>' are not. */
  predicate IsSpace(c: char) {
    || ('\t' <= c <= '\r')
    || ('\U{1C}' <= c <= '\U{1F}')
    || c == ' '
    || c == '\U{85}'
    || c == '\U{A0}'
    || c == '\U{1680}'
    || ('\U{2000}' <= c <= '\U{200A}')
    || c == '\U{2028}'
    || c == '\U{2029}'
    || c == '\U{202F}'
    || c == '\U{205F}'
    || c == '\U{3000}'
  }

  // ---------------------------------------------------------------------
  // Step 1: re.sub(r"<.*?>", " ", t)
  // ---------------------------------------------------------------------

  /** Scans s from position j for the `>` that ends a tag opened before j.
      `.` matches every character but '\n', and `*?` is lazy, so the tag
      ends at the first `>`, provided no '\n' comes first. */
  function CloseFrom(s: string, j: nat): (r: Option<nat>)
    requires j <= |s|
    decreases |s| - j
    ensures r.Some? ==> j <= r.value < |s| && s[r.value] == '>'
    ensures r.Some? ==> forall k :: j <= k < r.value ==> s[k] != '>' && s[k] != '\n'
    ensures r.None? ==> forall k :: j <= k < |s| && s[k] == '>' ==> '\n' in s[j..k]
  {
    if j == |s| then None
    else if s[j] == '>' then Some(j)
    else if s[j] == '\n' then None
    else
      var r := CloseFrom(s, j + 1);
      assert forall k :: j < k <= |s| ==> s[j..k] == [s[j]] + s[j + 1..k];
      r
  }

  /** Leftmost-first replacement of every `<.*?>` match by a single space.
      A `<` whose tag cannot be closed is kept and scanning resumes after it. */
  function StripTags(s: string): (r: string)
    decreases |s|
    ensures forall i :: 0 <= i < |r| && r[i] != ' ' ==> r[i] in s
  {
    if s == [] then []
    else
      var close := if s[0] == '<' then CloseFrom(s, 1) else None;
      if close.Some? then
        var rest := StripTags(s[close.value + 1..]);
        assert forall c :: c in s[close.value + 1..] ==> c in s;
        [' '] + rest
      else
        var rest := StripTags(s[1..]);
        assert forall c :: c in s[1..] ==> c in s;
        [s[0]] + rest
  }

  // ---------------------------------------------------------------------
  // Step 2: re.sub(r"\s+", " ", t)
  // ---------------------------------------------------------------------

  /** No two whitespace characters are adjacent. */
  predicate NoDoubleSpace(s: string) {
    forall i, j :: 0 <= i < |s| && 0 <= j < |s| && j == i + 1 ==> !(IsSpace(s[i]) && IsSpace(s[j]))
  }

  /** Every whitespace character is a plain space and no two are adjacent. */
  predicate Collapsed(s: string) {
    && (forall i :: 0 <= i < |s| && IsSpace(s[i]) ==> s[i] == ' ')
    && NoDoubleSpace(s)
  }

  /** `str.lstrip()`: drops the leading whitespace and nothing else. */
  function TrimStart(s: string): (r: string)
    ensures |r| <= |s|
    ensures r == [] || !IsSpace(r[0])
  {
    if s != [] && IsSpace(s[0]) then TrimStart(s[1..]) else s
  }

  /** lstrip() keeps the characters after its cut, all of which precede
      only whitespace. */
  lemma {:induction false} TrimStartSpec(s: string)
    ensures var r := TrimStart(s);
      && (forall i :: 0 <= i < |r| ==> r[i] == s[|s| - |r| + i])
      && (forall i :: 0 <= i < |s| - |r| ==> IsSpace(s[i]))
  {
    var r := TrimStart(s);
    if s != [] && IsSpace(s[0]) {
      var t := s[1..];
      TrimStartSpec(t);
      assert r == TrimStart(t);
      assert forall i :: 0 <= i < |t| ==> t[i] == s[i + 1];
    }
  }

  /** `str.rstrip()`: drops the trailing whitespace and nothing else. */
  function TrimEnd(s: string): (r: string)
    ensures |r| <= |s|
    ensures r == [] || !IsSpace(r[|r| - 1])
  {
    if s != [] && IsSpace(s[|s| - 1]) then TrimEnd(s[..|s| - 1]) else s
  }

  /** rstrip() keeps the characters before its cut, and only whitespace
      follows the cut. */
  lemma {:induction false} TrimEndSpec(s: string)
    ensures var r := TrimEnd(s);
      && (forall i :: 0 <= i < |r| ==> r[i] == s[i])
      && (forall i :: |r| <= i < |s| ==> IsSpace(s[i]))
  {
    if s != [] && IsSpace(s[|s| - 1]) {
      var t := s[..|s| - 1];
      TrimEndSpec(t);
      assert TrimEnd(s) == TrimEnd(t);
      assert forall i :: 0 <= i < |t| ==> t[i] == s[i];
    }
  }

  /** lstrip() keeps a suffix of its argument. */
  lemma TrimStartSuffix(s: string)
    ensures TrimStart(s) == s[|s| - |TrimStart(s)|..]
  {
    TrimStartSpec(s);
  }

  /** rstrip() keeps a prefix of its argument. */
  lemma TrimEndPrefix(s: string)
    ensures TrimEnd(s) == s[..|TrimEnd(s)|]
  {
    TrimEndSpec(s);
  }

  /** Each maximal run of whitespace becomes one ' '; all else is copied. */
  function CollapseSpaces(s: string): (r: string)
    decreases |s|
    ensures s == [] <==> r == []
    ensures s != [] && IsSpace(s[0]) ==> r[0] == ' '
    ensures s != [] && !IsSpace(s[0]) ==> r[0] == s[0]
  {
    if s == [] then []
    else if IsSpace(s[0]) then [' '] + CollapseSpaces(TrimStart(s[1..]))
    else [s[0]] + CollapseSpaces(s[1..])
  }

  /** Prepending to a collapsed string keeps it collapsed unless that makes
      two whitespace characters adjacent or adds one that is not ' '. */
  lemma ConsCollapsed(c: char, rest: string)
    requires Collapsed(rest)
    requires IsSpace(c) ==> c == ' ' && (rest == [] || !IsSpace(rest[0]))
    ensures Collapsed([c] + rest)
  {
    var s := [c] + rest;
    forall i | 0 <= i < |s| && IsSpace(s[i]) ensures s[i] == ' ' {
      if i > 0 { assert s[i] == rest[i - 1]; }
    }
    forall i, j | 0 <= i < j < |s| && j == i + 1 ensures !(IsSpace(s[i]) && IsSpace(s[j])) {
      if i > 0 { assert s[i] == rest[i - 1]; }
      assert s[j] == rest[j - 1];
    }
  }

  /** Whatever string CollapseSpaces is given, no two whitespace characters
      of its result are adjacent and each of them is a plain space. */
  lemma {:induction false} CollapseSpacesCollapsed(s: string)
    decreases |s|
    ensures Collapsed(CollapseSpaces(s))
  {
    if s == [] {
    } else if IsSpace(s[0]) {
      var t := TrimStart(s[1..]);
      CollapseSpacesCollapsed(t);
      ConsCollapsed(' ', CollapseSpaces(t));
    } else {
      CollapseSpacesCollapsed(s[1..]);
      ConsCollapsed(s[0], CollapseSpaces(s[1..]));
    }
  }

  /** A slice of a collapsed string is collapsed. */
  lemma CollapsedSlice(s: string, a: nat, b: nat)
    requires a <= b <= |s| && Collapsed(s)
    ensures Collapsed(s[a..b])
  {
    var t := s[a..b];
    forall i, j | 0 <= i < j < |t| && j == i + 1 ensures !(IsSpace(t[i]) && IsSpace(t[j])) {
      assert t[i] == s[a + i] && t[j] == s[a + j];
    }
  }

  /** A collapsed string holds no newline: every whitespace is ' '. */
  lemma CollapsedNoNewline(s: string)
    requires Collapsed(s)
    ensures '\n' !in s
  {
    if '\n' in s {
      var i :| 0 <= i < |s| && s[i] == '\n';
      assert IsSpace(s[i]);
    }
  }

  // ---------------------------------------------------------------------
  // Step 3: t.strip(), and the whole of clean_text
  // ---------------------------------------------------------------------

  /** No whitespace at either end: what `str.strip()` leaves. */
  predicate Stripped(s: string) {
    s == [] || (!IsSpace(s[0]) && !IsSpace(s[|s| - 1]))
  }

  /** `str.strip()`: the longest slice of s that neither starts nor ends
      with whitespace, everything cut off being whitespace. */
  function Strip(s: string): (r: string)
    ensures Stripped(r)
  {
    TrimEndSpec(TrimStart(s));
    TrimEnd(TrimStart(s))
  }

  /** What strip() cuts off: the leading and the trailing characters of s
      around Strip(s), all of them whitespace. */
  lemma StripCut(s: string)
    ensures var a, r := |s| - |TrimStart(s)|, Strip(s);
      && a + |r| <= |s|
      && r == s[a..a + |r|]
      && (forall i :: 0 <= i < a ==> IsSpace(s[i]))
      && (forall i :: a + |r| <= i < |s| ==> IsSpace(s[i]))
  {
    var t := TrimStart(s);
    var r := TrimEnd(t);
    var a := |s| - |t|;
    TrimStartSpec(s);
    TrimEndSpec(t);
    TrimStartSuffix(s);
    TrimEndPrefix(t);
    forall i | a + |r| <= i < |s| ensures IsSpace(s[i]) {
      assert s[i] == t[i - a];
    }
  }

  /** Stripping a collapsed string leaves it normalized. */
  lemma StripNormalizes(s: string)
    requires Collapsed(s)
    ensures Normalized(Strip(s)) && '\n' !in Strip(s)
  {
    var t := TrimStart(s);
    TrimStartSuffix(s);
    CollapsedSlice(s, |s| - |t|, |s|);
    var r := TrimEnd(t);
    TrimEndPrefix(t);
    CollapsedSlice(t, 0, |r|);
    CollapsedNoNewline(r);
  }

  /** The shape clean_text promises: no leading or trailing whitespace, no
      whitespace other than single spaces. */
  predicate Normalized(s: string) {
    && Collapsed(s)
    && Stripped(s)
  }

  /** clean_text(t) on a string t: empty stays empty, otherwise tags are
      replaced, whitespace runs collapsed and the ends stripped. */
  function CleanText(t: string): (r: string)
    ensures t == [] ==> r == []
    ensures Normalized(r)
    ensures '\n' !in r
  {
    if t == [] then []
    else
      var c := CollapseSpaces(StripTags(t));
      CollapseSpacesCollapsed(StripTags(t));
      StripNormalizes(c);
      Strip(c)
  }

  // ---------------------------------------------------------------------
  // Properties of clean_text
  // ---------------------------------------------------------------------

  /** No `<` is followed, anywhere later, by a `>`: nothing tag-shaped is left. */
  predicate TagFree(s: string) {
    forall i, j :: 0 <= i < j < |s| && s[i] == '<' ==> s[j] != '>'
  }

  lemma ConsTagFree(c: char, rest: string)
    requires TagFree(rest)
    requires c == '<' ==> '>' !in rest
    ensures TagFree([c] + rest)
  {
    var s := [c] + rest;
    forall i, j | 0 <= i < j < |s| && s[i] == '<'
      ensures s[j] != '>'
    {
      assert s[j] == rest[j - 1];
      if i > 0 { assert s[i] == rest[i - 1]; }
    }
  }

  lemma TagFreeSlice(s: string, a: nat, b: nat)
    requires a <= b <= |s| && TagFree(s)
    ensures TagFree(s[a..b])
  {
    var t := s[a..b];
    forall i, j | 0 <= i < j < |t| && t[i] == '<'
      ensures t[j] != '>'
    {
      assert t[i] == s[a + i] && t[j] == s[a + j];
    }
  }

  /** CollapseSpaces introduces no character but ' '. */
  lemma {:induction false} CollapseSpacesKeeps(s: string)
    decreases |s|
    ensures forall c :: c in CollapseSpaces(s) && c != ' ' ==> c in s
  {
    if s == [] {
    } else if IsSpace(s[0]) {
      var t := TrimStart(s[1..]);
      TrimStartSuffix(s[1..]);
      CollapseSpacesKeeps(t);
      assert forall c :: c in t ==> c in s;
    } else {
      CollapseSpacesKeeps(s[1..]);
      assert forall c :: c in s[1..] ==> c in s;
    }
  }

  /** On a line without a newline, every tag is removed: no `<` of the
      result is followed by a `>`. */
  lemma {:induction false} StripTagsTagFree(s: string)
    requires '\n' !in s
    decreases |s|
    ensures TagFree(StripTags(s))
  {
    if s != [] {
      var close := if s[0] == '<' then CloseFrom(s, 1) else None;
      if close.Some? {
        var rest := s[close.value + 1..];
        assert forall c :: c in rest ==> c in s;
        StripTagsTagFree(rest);
        ConsTagFree(' ', StripTags(rest));
      } else {
        assert forall c :: c in s[1..] ==> c in s;
        StripTagsTagFree(s[1..]);
        if s[0] == '<' {
          assert '>' !in s[1..];
        }
        ConsTagFree(s[0], StripTags(s[1..]));
      }
    }
  }

  /** Collapsing whitespace cannot create a tag. */
  lemma {:induction false} CollapseSpacesTagFree(s: string)
    requires TagFree(s)
    decreases |s|
    ensures TagFree(CollapseSpaces(s))
  {
    if s == [] {
    } else if IsSpace(s[0]) {
      var t := TrimStart(s[1..]);
      TrimStartSuffix(s[1..]);
      TagFreeSlice(s, |s| - |t|, |s|);
      CollapseSpacesTagFree(t);
      ConsTagFree(' ', CollapseSpaces(t));
    } else {
      TagFreeSlice(s, 1, |s|);
      CollapseSpacesTagFree(s[1..]);
      CollapseSpacesKeeps(s[1..]);
      if s[0] == '<' {
        assert forall k :: 1 <= k < |s| ==> s[k] != '>';
        assert '>' !in s[1..];
      }
      ConsTagFree(s[0], CollapseSpaces(s[1..]));
    }
  }

  /** For input without a newline, clean_text leaves no `<` followed later
      by a `>`. */
  lemma CleanTextTagFree(t: string)
    requires '\n' !in t
    ensures TagFree(CleanText(t))
  {
    if t != [] {
      var c := CollapseSpaces(StripTags(t));
      StripTagsTagFree(t);
      CollapseSpacesTagFree(StripTags(t));
      StripCut(c);
      TagFreeSlice(c, |c| - |TrimStart(c)|, |c| - |TrimStart(c)| + |Strip(c)|);
    }
  }

  /** Tag removal leaves tag-free text without newlines as it is. */
  lemma {:induction false} StripTagsFixed(s: string)
    requires TagFree(s) && '\n' !in s
    decreases |s|
    ensures StripTags(s) == s
  {
    if s != [] {
      TagFreeSlice(s, 1, |s|);
      assert '\n' !in s[1..] by { assert s == [s[0]] + s[1..]; }
      StripTagsFixed(s[1..]);
      if s[0] == '<' {
        TagFreeNoClose(s);
      }
      assert s == [s[0]] + s[1..];
    }
  }

  /** A `<` at the front of tag-free text cannot be closed. */
  lemma TagFreeNoClose(s: string)
    requires s != [] && s[0] == '<' && TagFree(s)
    ensures CloseFrom(s, 1).None?
  {
  }

  /** Collapsing leaves already collapsed text as it is. */
  lemma {:induction false} CollapseSpacesFixed(s: string)
    requires Collapsed(s)
    decreases |s|
    ensures CollapseSpaces(s) == s
  {
    if s != [] {
      CollapsedSlice(s, 1, |s|);
      CollapseSpacesFixed(s[1..]);
      if IsSpace(s[0]) {
        assert TrimStart(s[1..]) == s[1..];
      }
      assert s == [s[0]] + s[1..];
    }
  }

  /** clean_text leaves its own tag-free output unchanged. */
  lemma CleanTextFixed(s: string)
    requires Normalized(s) && TagFree(s)
    ensures CleanText(s) == s
  {
    if s != [] {
      CollapsedNoNewline(s);
      StripTagsFixed(s);
      CollapseSpacesFixed(s);
      assert TrimStart(s) == s;
      assert TrimEnd(s) == s;
    }
  }

  /** clean_text is idempotent on every input that holds no newline. */
  lemma CleanTextIdempotent(t: string)
    requires '\n' !in t
    ensures CleanText(CleanText(t)) == CleanText(t)
  {
    CleanTextTagFree(t);
    CleanTextFixed(CleanText(t));
  }

  /** The characters of s that are not whitespace, in order. */
  function NonSpace(s: string): (r: string)
    ensures |r| <= |s|
  {
    if s == [] then [] else (if IsSpace(s[0]) then [] else [s[0]]) + NonSpace(s[1..])
  }

  lemma {:induction false} NonSpaceAppend(a: string, b: string)
    decreases |a|
    ensures NonSpace(a + b) == NonSpace(a) + NonSpace(b)
  {
    if a == [] {
      assert a + b == b;
    } else {
      assert (a + b)[1..] == a[1..] + b;
      NonSpaceAppend(a[1..], b);
    }
  }

  lemma {:induction false} NonSpaceOfSpaces(s: string)
    requires forall i :: 0 <= i < |s| ==> IsSpace(s[i])
    decreases |s|
    ensures NonSpace(s) == []
  {
    if s != [] { NonSpaceOfSpaces(s[1..]); }
  }

  lemma NonSpaceTrimStart(s: string)
    ensures NonSpace(TrimStart(s)) == NonSpace(s)
  {
    var r := TrimStart(s);
    var a := |s| - |r|;
    TrimStartSpec(s);
    TrimStartSuffix(s);
    assert s == s[..a] + r;
    NonSpaceAppend(s[..a], r);
    NonSpaceOfSpaces(s[..a]);
  }

  lemma {:induction false} NonSpaceCollapse(s: string)
    decreases |s|
    ensures NonSpace(CollapseSpaces(s)) == NonSpace(s)
  {
    if s != [] {
      if IsSpace(s[0]) {
        var t := TrimStart(s[1..]);
        NonSpaceCollapse(t);
        NonSpaceTrimStart(s[1..]);
        assert NonSpace([' '] + CollapseSpaces(t)) == NonSpace(CollapseSpaces(t));
      } else {
        NonSpaceCollapse(s[1..]);
        assert ([s[0]] + CollapseSpaces(s[1..]))[1..] == CollapseSpaces(s[1..]);
      }
    }
  }

  lemma NonSpaceTrimEnd(s: string)
    ensures NonSpace(TrimEnd(s)) == NonSpace(s)
  {
    var r := TrimEnd(s);
    var b := s[|r|..];
    TrimEndSpec(s);
    TrimEndPrefix(s);
    assert s == r + b;
    NonSpaceAppend(r, b);
    NonSpaceOfSpaces(b);
  }

  lemma NonSpaceStrip(s: string)
    ensures NonSpace(Strip(s)) == NonSpace(s)
  {
    NonSpaceTrimStart(s);
    NonSpaceTrimEnd(TrimStart(s));
  }

  /** Text without a `<` has no tag to remove. */
  lemma {:induction false} StripTagsNoTag(s: string)
    requires '<' !in s
    decreases |s|
    ensures StripTags(s) == s
  {
    if s != [] {
      assert forall c :: c in s[1..] ==> c in s;
      StripTagsNoTag(s[1..]);
      assert s == [s[0]] + s[1..];
    }
  }

  /** clean_text changes nothing but tags and whitespace: the
      non-whitespace characters of its result are those left once the tags
      are replaced, and, for text without `<`, those of the input. */
  lemma CleanTextKeepsText(t: string)
    ensures NonSpace(CleanText(t)) == NonSpace(StripTags(t))
    ensures '<' !in t ==> NonSpace(CleanText(t)) == NonSpace(t)
  {
    if t != [] {
      NonSpaceStrip(CollapseSpaces(StripTags(t)));
      NonSpaceCollapse(StripTags(t));
    }
    if '<' !in t { StripTagsNoTag(t); }
  }

  /** First pass over "<\n>": the `<` cannot be closed before the newline,
      so it is kept, and the newline becomes a space. */
  lemma CleanTextBrokenTag()
    ensures CleanText(['<', '\n', '>']) == ['<', ' ', '>']
  {
    StripTagsBrokenTag();
    CollapseBrokenTag();
    assert TrimStart(['<', ' ', '>']) == ['<', ' ', '>'];
    assert TrimEnd(['<', ' ', '>']) == ['<', ' ', '>'];
  }

  lemma StripTagsBrokenTag()
    ensures StripTags(['<', '\n', '>']) == ['<', '\n', '>']
  {
    assert CloseFrom(['<', '\n', '>'], 1) == None;
    assert StripTags(['>']) == ['>'];
    assert StripTags(['\n', '>']) == ['\n', '>'];
  }

  lemma CollapseBrokenTag()
    ensures CollapseSpaces(['<', '\n', '>']) == ['<', ' ', '>']
  {
    assert !IsSpace('<') && IsSpace('\n') && !IsSpace('>');
    CollapseHead('>', []);
    assert CollapseSpaces(['>']) == ['>'];
    assert TrimStart(['>']) == ['>'];
    CollapseHead('\n', ['>']);
    assert CollapseSpaces(['\n', '>']) == [' ', '>'];
    CollapseHead('<', ['\n', '>']);
  }

  /** One step of CollapseSpaces on a string given as head and tail. */
  lemma CollapseHead(c: char, rest: string)
    ensures CollapseSpaces([c] + rest)
         == if IsSpace(c) then [' '] + CollapseSpaces(TrimStart(rest)) else [c] + CollapseSpaces(rest)
  {
    assert ([c] + rest)[1..] == rest;
  }

  /** Second pass over "< >": now a one-line tag, replaced by a space that
      strip() removes. */
  lemma CleanTextOneLineTag()
    ensures CleanText(['<', ' ', '>']) == []
  {
    var u := ['<', ' ', '>'];
    assert CloseFrom(u, 2) == Some(2);
    assert CloseFrom(u, 1) == Some(2);
    assert StripTags(u) == [' '];
    assert CollapseSpaces([' ']) == [' '];
    assert TrimStart([' ']) == [];
  }

  /** A tag broken by a newline survives the first pass (`.` does not match
      '\n') but becomes a one-line tag once the newline is collapsed, so
      the second pass removes it: clean_text is not idempotent in general. */
  lemma CleanTextNotIdempotent()
    ensures CleanText(CleanText(['<', '\n', '>'])) != CleanText(['<', '\n', '>'])
  {
    CleanTextBrokenTag();
    CleanTextOneLineTag();
  }

  // ---------------------------------------------------------------------
  // What tag replacement does, piece by piece
  // ---------------------------------------------------------------------

  /** Scanning for the end of a tag stops at the first `>`, when no newline
      and no other `>` come before it. */
  lemma {:induction false} CloseFromAt(s: string, j: nat, c: nat)
    requires j <= c < |s| && s[c] == '>'
    requires forall k :: j <= k < c ==> s[k] != '>' && s[k] != '\n'
    decreases c - j
    ensures CloseFrom(s, j) == Some(c)
  {
    if j < c {
      CloseFromAt(s, j + 1, c);
    }
  }

  /** Text before the first `<` is copied unchanged. */
  lemma {:induction false} StripTagsPrefix(p: string, q: string)
    requires '<' !in p
    decreases |p|
    ensures StripTags(p + q) == p + StripTags(q)
  {
    if p == [] {
      assert p + q == q;
    } else {
      assert p + q == [p[0]] + (p[1..] + q);
      StripTagsHead(p[0], p[1..] + q);
      assert forall c :: c in p[1..] ==> c in p;
      StripTagsPrefix(p[1..], q);
      assert p + StripTags(q) == [p[0]] + (p[1..] + StripTags(q));
    }
  }

  /** One step of StripTags on a string that does not start with `<`. */
  lemma StripTagsHead(c: char, rest: string)
    requires c != '<'
    ensures StripTags([c] + rest) == [c] + StripTags(rest)
  {
    assert ([c] + rest)[1..] == rest;
  }

  /** A tag `<m>` whose body holds no `>` and no newline becomes one space,
      and replacement goes on after it. */
  lemma StripTagsTag(m: string, q: string)
    requires '>' !in m && '\n' !in m
    ensures StripTags(['<'] + m + ['>'] + q) == [' '] + StripTags(q)
  {
    var s := ['<'] + m + ['>'] + q;
    var c := |m| + 1;
    forall k | 1 <= k < c ensures s[k] != '>' && s[k] != '\n' {
      assert s[k] == m[k - 1];
    }
    CloseFromAt(s, 1, c);
    assert s[c + 1..] == q;
  }

  /** A `<` that no `>` closes on its line is kept as it is. */
  lemma StripTagsUnclosed(q: string)
    requires forall k :: 0 <= k < |q| && q[k] == '>' ==> '\n' in q[..k]
    ensures StripTags(['<'] + q) == ['<'] + StripTags(q)
  {
    var s := ['<'] + q;
    assert s[1..] == q;
    if CloseFrom(s, 1).Some? {
      assert false;
    }
  }

  /** A one-line tag between two letters becomes the one space between
      them, as in `"a<b>c"` to `"a c"`. */
  lemma CleanTextTagBetween(a: string, m: string, c: string)
    requires |a| == 1 && |c| == 1 && !IsSpace(a[0]) && !IsSpace(c[0])
    requires a[0] != '<' && c[0] != '<' && '>' !in m && '\n' !in m
    ensures CleanText(a + (['<'] + m + ['>'] + c)) == a + (" " + c)
  {
    var t := a + (['<'] + m + ['>'] + c);
    assert '<' !in a && '<' !in c;
    StripTagsPrefix(a, ['<'] + m + ['>'] + c);
    StripTagsTag(m, c);
    StripTagsNoTag(c);
    assert StripTags(t) == a + (" " + c);
    CleanTextWords(t);
    WordsExample(a, " ", c);
  }

  /** Whitespace between two letters becomes one space, as in `"a  b"` to
      `"a b"`. */
  lemma CleanTextGapBetween(a: string, gap: string, c: string)
    requires |a| == 1 && |c| == 1 && !IsSpace(a[0]) && !IsSpace(c[0])
    requires a[0] != '<' && c[0] != '<'
    requires gap != [] && forall k :: 0 <= k < |gap| ==> IsSpace(gap[k])
    ensures CleanText(a + (gap + c)) == a + (" " + c)
  {
    var t := a + (gap + c);
    assert '<' !in gap by {
      forall k | 0 <= k < |gap| ensures gap[k] != '<' { assert IsSpace(gap[k]); }
    }
    assert '<' !in t;
    StripTagsNoTag(t);
    CleanTextWords(t);
    WordsExample(a, gap, c);
  }

  /** Two one-letter words with whitespace between them. */
  lemma WordsExample(a: string, gap: string, c: string)
    requires |a| == 1 && |c| == 1 && !IsSpace(a[0]) && !IsSpace(c[0])
    requires gap != [] && forall k :: 0 <= k < |gap| ==> IsSpace(gap[k])
    ensures Words(a + (gap + c)) == [a, c]
    ensures JoinBySpace([a, c]) == a + (" " + c)
  {
    var r := gap + c;
    var s := a + r;
    assert s[1..] == r && s[..1] == a;
    WordLenOne(s);
    WordsStep(s);
    TrimStartSpaces(gap, c);
    TrimStartNone(c);
    WordsTrimStart(r);
    WordsOne(c);
    assert Words(s) == [a] + [c];
    assert ([a, c])[1..] == [c];
  }

  /** A word of one character before whitespace. */
  lemma WordLenOne(s: string)
    requires |s| >= 2 && !IsSpace(s[0]) && IsSpace(s[1])
    ensures WordLen(s) == 1
  {
    assert s[1..][0] == s[1];
  }

  /** A single non-whitespace character is one word. */
  lemma WordsOne(c: string)
    requires |c| == 1 && !IsSpace(c[0])
    ensures Words(c) == [c]
  {
    WordsStep(c);
    assert c[1..] == [];
    assert c[..1] == c;
  }


  // ---------------------------------------------------------------------
  // clean_text as " ".join(s.split()) after tag replacement
  // ---------------------------------------------------------------------

  /** The length of the leading run of non-whitespace characters. */
  function WordLen(s: string): (n: nat)
    ensures n <= |s|
    ensures s != [] && !IsSpace(s[0]) ==> n > 0
  {
    if s == [] || IsSpace(s[0]) then 0 else 1 + WordLen(s[1..])
  }

  /** WordLen marks a word: non-whitespace up to it, whitespace or the end
      at it. */
  lemma {:induction false} WordLenSpec(s: string)
    ensures var n := WordLen(s);
      && (forall i :: 0 <= i < n ==> !IsSpace(s[i]))
      && (n < |s| ==> IsSpace(s[n]))
  {
    if s != [] && !IsSpace(s[0]) {
      WordLenSpec(s[1..]);
      assert forall i :: 1 <= i < WordLen(s) ==> s[i] == s[1..][i - 1];
    }
  }

  /** `str.split()` with no argument: the maximal runs of non-whitespace
      characters, in order. */
  function Words(s: string): (ws: seq<string>)
    decreases |s|
  {
    var t := TrimStart(s);
    if t == [] then [] else
      var n := WordLen(t);
      [t[..n]] + Words(t[n..])
  }

  /** Every word is non-empty and holds no whitespace. */
  predicate WordList(ws: seq<string>) {
    forall i :: 0 <= i < |ws| ==> |ws[i]| > 0 && forall k :: 0 <= k < |ws[i]| ==> !IsSpace(ws[i][k])
  }

  lemma {:induction false} WordsAreWords(s: string)
    decreases |s|
    ensures WordList(Words(s))
  {
    var t := TrimStart(s);
    if t != [] {
      var n := WordLen(t);
      WordLenSpec(t);
      WordsAreWords(t[n..]);
      var ws := Words(s);
      assert ws == [t[..n]] + Words(t[n..]);
      forall i | 0 <= i < |ws| ensures |ws[i]| > 0 && forall k :: 0 <= k < |ws[i]| ==> !IsSpace(ws[i][k]) {
        if i > 0 { assert ws[i] == Words(t[n..])[i - 1]; }
      }
    }
  }

  /** `" ".join(ws)`. */
  function JoinBySpace(ws: seq<string>): (r: string)
  {
    if ws == [] then [] else if |ws| == 1 then ws[0] else ws[0] + " " + JoinBySpace(ws[1..])
  }

  /** Words joined by single spaces neither start nor end with whitespace. */
  lemma {:induction false} JoinBySpaceEnds(ws: seq<string>)
    requires WordList(ws)
    ensures var r := JoinBySpace(ws);
      && (r == [] <==> ws == [])
      && Stripped(r)
  {
    if |ws| > 1 {
      assert WordList(ws[1..]) by {
        assert forall i :: 0 <= i < |ws| - 1 ==> ws[1..][i] == ws[i + 1];
      }
      JoinBySpaceEnds(ws[1..]);
      assert |ws[0]| > 0 && !IsSpace(ws[0][0]);
    } else if |ws| == 1 {
      assert |ws[0]| > 0 && !IsSpace(ws[0][0]) && !IsSpace(ws[0][|ws[0]| - 1]);
    }
  }

  /** A run without whitespace passes through CollapseSpaces unchanged. */
  lemma {:induction false} CollapseWord(w: string, x: string)
    requires forall k :: 0 <= k < |w| ==> !IsSpace(w[k])
    decreases |w|
    ensures CollapseSpaces(w + x) == w + CollapseSpaces(x)
  {
    if w == [] {
      assert w + x == x;
    } else {
      assert w + x == [w[0]] + (w[1..] + x);
      CollapseHead(w[0], w[1..] + x);
      assert forall k :: 0 <= k < |w| - 1 ==> w[1..][k] == w[k + 1];
      CollapseWord(w[1..], x);
      assert w + CollapseSpaces(x) == [w[0]] + (w[1..] + CollapseSpaces(x));
    }
  }

  /** split() on a string that starts with a word: that word, then the
      words of the rest. */
  lemma WordsStep(s: string)
    requires s != [] && !IsSpace(s[0])
    ensures Words(s) == [s[..WordLen(s)]] + Words(s[WordLen(s)..])
  {
    assert TrimStart(s) == s;
  }

  /** lstrip() leaves a string that starts with no whitespace alone. */
  lemma TrimStartNone(s: string)
    requires s == [] || !IsSpace(s[0])
    ensures TrimStart(s) == s
  {
  }

  /** split() ignores leading whitespace. */
  lemma WordsTrimStart(s: string)
    ensures Words(s) == Words(TrimStart(s))
  {
    var t := TrimStart(s);
    assert TrimStart(t) == t;
  }

  /** A run of whitespace at the front collapses to one space before the
      collapsed remainder. */
  lemma CollapseGap(r: string)
    requires r != [] && IsSpace(r[0])
    ensures CollapseSpaces(r) == [' '] + CollapseSpaces(TrimStart(r))
  {
    assert TrimStart(r) == TrimStart(r[1..]);
  }

  /** On a string that does not start with whitespace, CollapseSpaces yields
      the words joined by single spaces, and one more space when the string
      ends with whitespace. */
  lemma {:induction false} CollapseWords(s: string)
    requires s == [] || !IsSpace(s[0])
    decreases |s|
    ensures CollapseSpaces(s) ==
      JoinBySpace(Words(s)) + (if s != [] && IsSpace(s[|s| - 1]) then " " else "")
  {
    if s != [] {
      var n := WordLen(s);
      if n == |s| {
        CollapseLastWord(s);
      } else {
        var r' := TrimStart(s[n..]);
        CollapseWords(r');
        if r' == [] {
          CollapseTrailingGap(s);
        } else {
          CollapseInnerGap(s, r');
        }
      }
    }
  }

  /** A string that is one word collapses to itself, its only word. */
  lemma CollapseLastWord(s: string)
    requires s != [] && !IsSpace(s[0]) && WordLen(s) == |s|
    ensures CollapseSpaces(s) == JoinBySpace(Words(s)) && !IsSpace(s[|s| - 1])
  {
    var n := WordLen(s);
    WordLenSpec(s);
    WordsStep(s);
    assert s[..n] == s && s[n..] == [];
    assert Words(s[n..]) == [];
    CollapseWord(s, []);
    assert s + [] == s;
  }

  /** A word followed by whitespace only collapses to the word and a space. */
  lemma CollapseTrailingGap(s: string)
    requires s != [] && !IsSpace(s[0]) && WordLen(s) < |s|
    requires TrimStart(s[WordLen(s)..]) == []
    ensures CollapseSpaces(s) == JoinBySpace(Words(s)) + " " && IsSpace(s[|s| - 1])
  {
    var n := WordLen(s);
    var w, r := s[..n], s[n..];
    assert CollapseSpaces(s) == w + " " by {
      CollapseWordThenGap(s);
    }
    assert Words(s) == [w] by {
      WordsStep(s);
      WordsTrimStart(r);
    }
    assert JoinBySpace([w]) == w;
    assert IsSpace(s[|s| - 1]) by {
      SpaceTail(s, n);
    }
  }

  /** A string whose part from n on is all whitespace ends with whitespace. */
  lemma SpaceTail(s: string, n: nat)
    requires n < |s| && TrimStart(s[n..]) == []
    ensures IsSpace(s[|s| - 1])
  {
    TrimStartSpec(s[n..]);
    assert s[n..][|s| - n - 1] == s[|s| - 1];
  }

  /** A word, whitespace, and then more words: the first word, one space,
      and the collapsed remainder. */
  lemma CollapseInnerGap(s: string, r': string)
    requires s != [] && !IsSpace(s[0]) && WordLen(s) < |s|
    requires r' == TrimStart(s[WordLen(s)..]) && r' != []
    requires CollapseSpaces(r') == JoinBySpace(Words(r')) + (if IsSpace(r'[|r'| - 1]) then " " else "")
    ensures CollapseSpaces(s) == JoinBySpace(Words(s)) + (if IsSpace(s[|s| - 1]) then " " else "")
  {
    var n := WordLen(s);
    var w, ws := s[..n], Words(r');
    InnerGapCollapse(s, r');
    InnerGapWords(s, r');
    JoinCons(w, ws);
  }

  /** The collapsing half of CollapseInnerGap. */
  lemma InnerGapCollapse(s: string, r': string)
    requires s != [] && !IsSpace(s[0]) && WordLen(s) < |s|
    requires r' == TrimStart(s[WordLen(s)..]) && r' != []
    requires CollapseSpaces(r') == JoinBySpace(Words(r')) + (if IsSpace(r'[|r'| - 1]) then " " else "")
    ensures CollapseSpaces(s) == s[..WordLen(s)] + " " + JoinBySpace(Words(r')) + (if IsSpace(s[|s| - 1]) then " " else "")
  {
    var n := WordLen(s);
    var w, r := s[..n], s[n..];
    var j := JoinBySpace(Words(r'));
    var tail := if IsSpace(s[|s| - 1]) then " " else "";
    CollapseWordThenGap(s);
    assert CollapseSpaces(r') == j + tail by {
      SameLast(s, n, r');
    }
    Regroup(w, j, tail);
  }

  /** A word followed by whitespace collapses to the word, one space, and
      the collapsed text after the whitespace. */
  lemma CollapseWordThenGap(s: string)
    requires s != [] && !IsSpace(s[0]) && WordLen(s) < |s|
    ensures CollapseSpaces(s) == s[..WordLen(s)] + ([' '] + CollapseSpaces(TrimStart(s[WordLen(s)..])))
  {
    var n := WordLen(s);
    var w, r := s[..n], s[n..];
    WordLenSpec(s);
    assert s == w + r;
    CollapseWord(w, r);
    assert r[0] == s[n];
    CollapseGap(r);
  }

  /** The splitting half of CollapseInnerGap. */
  lemma InnerGapWords(s: string, r': string)
    requires s != [] && !IsSpace(s[0]) && WordLen(s) < |s|
    requires r' == TrimStart(s[WordLen(s)..]) && r' != []
    ensures Words(s) == [s[..WordLen(s)]] + Words(r') && Words(r') != []
  {
    WordsStep(s);
    WordsTrimStart(s[WordLen(s)..]);
    WordsEmpty(r');
  }

  /** What follows a cut and an lstrip() ends where the whole string does. */
  lemma SameLast(s: string, n: nat, r': string)
    requires n <= |s| && r' == TrimStart(s[n..]) && r' != []
    ensures r'[|r'| - 1] == s[|s| - 1]
  {
    TrimStartSpec(s[n..]);
  }

  /** Regrouping a word, a space, the joined rest and a tail. Kept as a
      lemma: proved inside InnerGapCollapse the same step exhausts the
      solver there. */
  lemma Regroup(w: string, j: string, t: string)
    ensures w + ([' '] + (j + t)) == w + " " + j + t
  {
  }

  /** split() finds no word exactly when the string is all whitespace. */
  lemma WordsEmpty(s: string)
    ensures Words(s) == [] <==> TrimStart(s) == []
  {
  }

  /** Joining one more word in front adds it and a space. */
  lemma JoinCons(w: string, ws: seq<string>)
    requires ws != []
    ensures JoinBySpace([w] + ws) == w + " " + JoinBySpace(ws)
  {
    assert ([w] + ws)[1..] == ws;
  }

  /** lstrip() goes through leading whitespace. */
  lemma {:induction false} TrimStartSpaces(a: string, x: string)
    requires forall k :: 0 <= k < |a| ==> IsSpace(a[k])
    decreases |a|
    ensures TrimStart(a + x) == TrimStart(x)
  {
    if a == [] {
      assert a + x == x;
    } else {
      assert (a + x)[0] == a[0] && (a + x)[1..] == a[1..] + x;
      TrimStartSpaces(a[1..], x);
    }
  }

  /** rstrip() goes through trailing whitespace. */
  lemma {:induction false} TrimEndSpaces(x: string, b: string)
    requires forall k :: 0 <= k < |b| ==> IsSpace(b[k])
    decreases |b|
    ensures TrimEnd(x + b) == TrimEnd(x)
  {
    if b == [] {
      assert x + b == x;
    } else {
      var b' := b[..|b| - 1];
      assert (x + b)[|x + b| - 1] == b[|b| - 1];
      assert (x + b)[..|x + b| - 1] == x + b';
      TrimEndSpaces(x, b');
    }
  }

  /** Stripping whitespace padded around a string that does not start or end
      with whitespace gives that string back. */
  lemma StripPadded(a: string, j: string, b: string)
    requires forall k :: 0 <= k < |a| ==> IsSpace(a[k])
    requires forall k :: 0 <= k < |b| ==> IsSpace(b[k])
    requires Stripped(j)
    ensures Strip(a + j + b) == j
  {
    assert a + j + b == a + (j + b);
    TrimStartSpaces(a, j + b);
    if j == [] {
      assert j + b == b + [];
      TrimStartSpaces(b, []);
    } else {
      assert (j + b)[0] == j[0];
      assert TrimStart(j + b) == j + b;
      TrimEndSpaces(j, b);
    }
  }

  /** Collapsing whitespace and stripping is `" ".join(s.split())`. */
  lemma StripCollapseWords(s: string)
    ensures Strip(CollapseSpaces(s)) == JoinBySpace(Words(s))
  {
    var u := TrimStart(s);
    var j := JoinBySpace(Words(s));
    var b := if u != [] && IsSpace(u[|u| - 1]) then " " else "";
    assert Stripped(j) by {
      WordsAreWords(s);
      JoinBySpaceEnds(Words(s));
    }
    assert CollapseSpaces(u) == j + b by {
      WordsTrimStart(s);
      CollapseWords(u);
    }
    if s != [] && IsSpace(s[0]) {
      CollapseGap(s);
      StripAfterGap(j, b);
    } else {
      TrimStartNone(s);
      StripPadded([], j, b);
      assert [] + j == j;
    }
  }

  /** StripPadded for a single leading space. */
  lemma StripAfterGap(j: string, b: string)
    requires forall k :: 0 <= k < |b| ==> IsSpace(b[k])
    requires Stripped(j)
    ensures Strip([' '] + (j + b)) == j
  {
    assert [' '] + (j + b) == [' '] + j + b;
    StripPadded([' '], j, b);
  }

  /** clean_text is `" ".join(s.split())` applied to the text with its tags
      replaced: whitespace between two words becomes exactly one space, and
      the words themselves are kept whole and in order. */
  lemma CleanTextWords(t: string)
    ensures CleanText(t) == JoinBySpace(Words(StripTags(t)))
  {
    if t != [] {
      StripCollapseWords(StripTags(t));
    }
  }

}
