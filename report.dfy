/** Report step titles (web_test/assist/selene/report.py): every waited
    Selene command is logged as `"<entity>: <command>"`, rewritten by an
    ordered list of literal `(old, new)` substitutions, each applied with
    Python's `str.replace`. */
module Report {
  import opened Strings

  /** One `(old, new)` pair. */
  datatype Translation = Translation(pattern: string, replacement: string)

  /** Python's `s.replace(pattern, replacement)`: every non-overlapping
      occurrence, scanning left to right; an empty pattern inserts the
      replacement before every character and at the end. */
  function Replace(s: string, pattern: string, replacement: string): string
    decreases |s|
  {
    if pattern == "" then
      if s == "" then replacement else replacement + [s[0]] + Replace(s[1..], pattern, replacement)
    else if s == "" then ""
    else if StartsWith(s, pattern) then replacement + Replace(s[|pattern|..], pattern, replacement)
    else [s[0]] + Replace(s[1..], pattern, replacement)
  }

  /** Python's `s.split(sep)` for a non-empty separator: the pieces between
      the non-overlapping occurrences found left to right. */
  function Split(s: string, sep: string): (parts: seq<string>)
    requires sep != ""
    ensures |parts| > 0 && StartsWith(s, parts[0])
    decreases |s|
  {
    if s == "" then [""]
    else if StartsWith(s, sep) then [""] + Split(s[|sep|..], sep)
    else
      var rest := Split(s[1..], sep);
      [[s[0]] + rest[0]] + rest[1..]
  }

  lemma JoinHeadCons(sep: string, c: char, parts: seq<string>)
    requires |parts| > 0
    ensures Join(sep, [[c] + parts[0]] + parts[1..]) == [c] + Join(sep, parts)
  {
    if |parts| > 1 {
      assert ([[c] + parts[0]] + parts[1..])[1..] == parts[1..];
    }
  }

  /** `s.replace(old, new) == new.join(s.split(old))`: the substitution is
      the split/join of Python's documentation. */
  lemma {:induction false} ReplaceIsSplitJoin(s: string, pattern: string, replacement: string)
    requires pattern != ""
    ensures Replace(s, pattern, replacement) == Join(replacement, Split(s, pattern))
    decreases |s|
  {
    if s == "" {
    } else if StartsWith(s, pattern) {
      var rest := s[|pattern|..];
      ReplaceIsSplitJoin(rest, pattern, replacement);
      JoinCons(replacement, "", Split(rest, pattern));
    } else {
      ReplaceIsSplitJoin(s[1..], pattern, replacement);
      JoinHeadCons(replacement, s[0], Split(s[1..], pattern));
    }
  }

  /** Joining the pieces with the separator gives the text back. */
  lemma {:induction false} SplitJoinRoundTrip(s: string, sep: string)
    requires sep != ""
    ensures Join(sep, Split(s, sep)) == s
    decreases |s|
  {
    if s == "" {
    } else if StartsWith(s, sep) {
      var rest := s[|sep|..];
      var parts := Split(rest, sep);
      assert Split(s, sep) == [""] + parts;
      SplitJoinRoundTrip(rest, sep);
      JoinCons(sep, "", parts);
      assert s == sep + rest;
    } else {
      var parts := Split(s[1..], sep);
      assert Split(s, sep) == [[s[0]] + parts[0]] + parts[1..];
      SplitJoinRoundTrip(s[1..], sep);
      JoinHeadCons(sep, s[0], parts);
      assert s == [s[0]] + s[1..];
    }
  }

  /** Replacing a pattern by itself changes nothing. */
  lemma ReplaceIdentity(s: string, pattern: string)
    requires pattern != ""
    ensures Replace(s, pattern, pattern) == s
  {
    ReplaceIsSplitJoin(s, pattern, pattern);
    SplitJoinRoundTrip(s, pattern);
  }

  /** `pattern` occurs in `s` at position `k`. */
  predicate OccursAt(pattern: string, s: string, k: int)
  {
    0 <= k && k + |pattern| <= |s| && s[k..k + |pattern|] == pattern
  }

  /** `pattern` occurs somewhere in `s` (Python's `pattern in s`). */
  ghost predicate Occurs(pattern: string, s: string)
  {
    exists k :: OccursAt(pattern, s, k)
  }

  /** An occurrence after the first character is an occurrence. */
  lemma OccursInTail(pattern: string, s: string)
    requires s != ""
    ensures Occurs(pattern, s[1..]) ==> Occurs(pattern, s)
  {
    if Occurs(pattern, s[1..]) {
      var k :| OccursAt(pattern, s[1..], k);
      assert s[1..][k..k + |pattern|] == s[k + 1..k + 1 + |pattern|];
      assert OccursAt(pattern, s, k + 1);
    }
  }

  /** A step whose pattern does not occur leaves the text unchanged. */
  lemma {:induction false} ReplaceAbsent(s: string, pattern: string, replacement: string)
    requires pattern != "" && !Occurs(pattern, s)
    ensures Replace(s, pattern, replacement) == s
    decreases |s|
  {
    if s != "" {
      assert !OccursAt(pattern, s, 0);
      assert |pattern| <= |s| ==> s[..|pattern|] == s[0..0 + |pattern|];
      assert !StartsWith(s, pattern);
      OccursInTail(pattern, s);
      ReplaceAbsent(s[1..], pattern, replacement);
    }
  }

  /** A text lacking one of the pattern's characters lacks the pattern. */
  lemma MissingCharNotOccurs(s: string, pattern: string, c: char)
    requires c in pattern && c !in s
    ensures !Occurs(pattern, s)
  {
  }

  /** A pair whose pattern holds a character the text lacks leaves the
      text unchanged. */
  lemma ReplaceMissingChar(s: string, pattern: string, replacement: string, c: char)
    requires c in pattern && c !in s
    ensures Replace(s, pattern, replacement) == s
  {
    MissingCharNotOccurs(s, pattern, c);
    ReplaceAbsent(s, pattern, replacement);
  }

  /** Where the pattern does not start, the first character is copied and
      the scan moves on by one. */
  lemma ReplaceMiss(s: string, pattern: string, replacement: string)
    requires s != "" && pattern != "" && !StartsWith(s, pattern)
    ensures Replace(s, pattern, replacement) == [s[0]] + Replace(s[1..], pattern, replacement)
  {
  }

  /** Characters before the first character of the pattern can appear are
      copied unchanged. */
  lemma {:induction false} ReplaceSkip(a: string, rest: string, pattern: string, replacement: string)
    requires pattern != "" && pattern[0] !in a
    ensures Replace(a + rest, pattern, replacement) == a + Replace(rest, pattern, replacement)
    decreases |a|
  {
    if a != "" {
      var t := a[1..] + rest;
      var later := Replace(rest, pattern, replacement);
      assert a + rest == [a[0]] + t by {
        assert a == [a[0]] + a[1..];
      }
      assert Replace([a[0]] + t, pattern, replacement) == [a[0]] + Replace(t, pattern, replacement) by {
        ReplaceCons(a[0], t, pattern, replacement);
      }
      assert Replace(t, pattern, replacement) == a[1..] + later by {
        assert pattern[0] !in a[1..] by {
          assert forall i :: 0 <= i < |a[1..]| ==> a[1..][i] == a[i + 1];
        }
        ReplaceSkip(a[1..], rest, pattern, replacement);
      }
      assert [a[0]] + (a[1..] + later) == a + later by {
        assert a == [a[0]] + a[1..];
      }
    } else {
      assert a + rest == rest;
    }
  }

  /** A character other than the pattern's first is copied unchanged. */
  lemma ReplaceCons(c: char, t: string, pattern: string, replacement: string)
    requires pattern != "" && c != pattern[0]
    ensures Replace([c] + t, pattern, replacement) == [c] + Replace(t, pattern, replacement)
  {
    var s := [c] + t;
    FirstCharMisses(s, pattern, c);
    assert s[1..] == t;
  }

  /** A text whose first character is not the pattern's does not start
      with the pattern. */
  lemma FirstCharMisses(s: string, pattern: string, c: char)
    requires s != "" && pattern != "" && s[0] == c && c != pattern[0]
    ensures !StartsWith(s, pattern)
  {
    if |pattern| <= |s| {
      assert s[..|pattern|][0] == c;
    }
  }

  /** A chunk that opens with the pattern's first character but departs
      from the pattern at its second, and holds that first character
      nowhere else, is copied unchanged. */
  lemma ReplaceMissChunk(a: string, rest: string, pattern: string, replacement: string)
    requires |a| >= 2 && |pattern| >= 2 && a[1] != pattern[1] && pattern[0] !in a[1..]
    ensures Replace(a + rest, pattern, replacement) == a + Replace(rest, pattern, replacement)
  {
    var later := Replace(rest, pattern, replacement);
    assert Replace(a + rest, pattern, replacement) == [a[0]] + Replace(a[1..] + rest, pattern, replacement) by {
      ChunkMisses(a, rest, pattern);
      ReplaceMiss(a + rest, pattern, replacement);
    }
    assert Replace(a[1..] + rest, pattern, replacement) == a[1..] + later by {
      ReplaceSkip(a[1..], rest, pattern, replacement);
    }
    assert [a[0]] + (a[1..] + later) == a + later by {
      assert a == [a[0]] + a[1..];
    }
  }

  lemma ChunkMisses(a: string, rest: string, pattern: string)
    requires |a| >= 2 && |pattern| >= 2 && a[1] != pattern[1]
    ensures !StartsWith(a + rest, pattern)
    ensures (a + rest)[0] == a[0] && (a + rest)[1..] == a[1..] + rest
  {
    var s := a + rest;
    assert s[1] == a[1];
    if |pattern| <= |s| {
      assert s[..|pattern|][1] == s[1];
    }
  }

  /** An occurrence at the front is replaced and the scan resumes after it. */
  lemma ReplaceFront(pattern: string, rest: string, replacement: string)
    requires pattern != ""
    ensures Replace(pattern + rest, pattern, replacement) == replacement + Replace(rest, pattern, replacement)
  {
    var s := pattern + rest;
    assert StartsWith(s, pattern);
    assert s[|pattern|..] == rest;
  }

  /** A single occurrence: the text before it lacks the pattern's first
      character and the text after it lacks some character of the pattern. */
  lemma ReplaceOnce(before: string, pattern: string, after: string, replacement: string, c: char)
    requires pattern != "" && pattern[0] !in before && c in pattern && c !in after
    ensures Replace(before + pattern + after, pattern, replacement) == before + replacement + after
  {
    assert before + pattern + after == before + (pattern + after);
    ReplaceSkip(before, pattern + after, pattern, replacement);
    ReplaceFront(pattern, after, replacement);
    MissingCharNotOccurs(after, pattern, c);
    ReplaceAbsent(after, pattern, replacement);
  }

  /** The title fold: `reduce(translate, translations, title)`. */
  function Translate(s: string, translations: seq<Translation>): string
    decreases |translations|
  {
    if |translations| == 0 then s
    else Translate(Replace(s, translations[0].pattern, translations[0].replacement), translations[1..])
  }

  /** Translating with two lists in turn is translating with their
      concatenation: the fold respects the order of the list. */
  lemma {:induction false} TranslateAppend(s: string, first: seq<Translation>, second: seq<Translation>)
    ensures Translate(s, first + second) == Translate(Translate(s, first), second)
    decreases |first|
  {
    if |first| == 0 {
      assert first + second == second;
    } else {
      assert (first + second)[0] == first[0];
      assert (first + second)[1..] == first[1..] + second;
      TranslateAppend(Replace(s, first[0].pattern, first[0].replacement), first[1..], second);
    }
  }

  /** One step of the fold: the first pair is applied first. */
  lemma TranslateCons(s: string, t: Translation, rest: seq<Translation>)
    ensures Translate(s, [t] + rest) == Translate(Replace(s, t.pattern, t.replacement), rest)
  {
    assert ([t] + rest)[1..] == rest;
  }

  /** The fold as a chain of intermediate texts: if each pair takes
      `texts[i]` to `texts[i + 1]`, the whole list takes the first text to
      the last. */
  lemma {:induction false} TranslateSteps(texts: seq<string>, translations: seq<Translation>)
    requires |texts| == |translations| + 1
    requires forall i :: 0 <= i < |translations| ==>
      Replace(texts[i], translations[i].pattern, translations[i].replacement) == texts[i + 1]
    ensures Translate(texts[0], translations) == texts[|translations|]
    decreases |translations|
  {
    if |translations| > 0 {
      forall i | 0 <= i < |translations[1..]|
        ensures Replace(texts[1..][i], translations[1..][i].pattern, translations[1..][i].replacement) == texts[1..][i + 1]
      {
        assert texts[1..][i] == texts[i + 1] && translations[1..][i] == translations[i + 1];
      }
      TranslateSteps(texts[1..], translations[1..]);
    }
  }

  /** When no pattern of the list occurs in the text, the fold leaves it
      unchanged. */
  lemma {:induction false} TranslateAbsent(s: string, translations: seq<Translation>)
    requires forall t :: t in translations ==> t.pattern != "" && !Occurs(t.pattern, s)
    ensures Translate(s, translations) == s
    decreases |translations|
  {
    if |translations| > 0 {
      ReplaceAbsent(s, translations[0].pattern, translations[0].replacement);
      TranslateAbsent(s, translations[1..]);
    }
  }

  /** `DefaultTranslations.remove_verbosity`. */
  const RemoveVerbosity: seq<Translation> := [
    Translation("browser.element", "element"),
    Translation("browser.all", "all"),
    Translation("'css selector', ", ""),
    Translation("((", "("),
    Translation("))", ")")
  ]

  /** `DefaultTranslations.identify_assertions`. */
  const IdentifyAssertions: seq<Translation> := [
    Translation(": has ", ": have "),
    Translation(": have ", ": should have "),
    Translation(": is ", ": should be "),
    Translation(" and is ", " and be "),
    Translation(" and has ", " and have ")
  ]

  /** The default `translations` of `wait_with`: verbosity removal, then
      assertion phrasing, then the key-code names (taken from Selenium's
      `Keys`, so supplied by the caller). */
  function DefaultTranslations(keyCodes: seq<Translation>): seq<Translation>
  {
    RemoveVerbosity + IdentifyAssertions + keyCodes
  }

  /** A key-code pair of `key_codes_to_names`: its pattern is
      `f"({repr(value)},)"`, a one-element tuple as printed by Python. */
  predicate KeyCodePattern(t: Translation)
  {
    |t.pattern| >= 3 && t.pattern[0] == '(' && t.pattern[|t.pattern| - 2..] == ",)"
  }

  /** A text without a comma is left alone by every key-code pair. */
  lemma KeyCodesAbsent(s: string, keyCodes: seq<Translation>)
    requires forall t :: t in keyCodes ==> KeyCodePattern(t)
    requires ',' !in s
    ensures Translate(s, keyCodes) == s
  {
    forall t | t in keyCodes
      ensures t.pattern != "" && !Occurs(t.pattern, s)
    {
      assert t.pattern[|t.pattern| - 2] == ',';
      MissingCharNotOccurs(s, t.pattern, ',');
    }
    TranslateAbsent(s, keyCodes);
  }

  /** What a waited entity offers the report: a Selene Element or
      Collection has a `full_description` besides its `str`; any other
      entity (the browser) only its `str`. */
  datatype Entity =
    | Located(fullDescription: string, text: string)
    | Other(text: string)

  /** The step a command is reported under: its title and its parameters. */
  datatype Step = Step(title: string, params: map<string, string>)

  /** The title and params built in `decorated`: an Element or Collection is
      named by its full description, and its translated locator text is the
      only parameter; any other entity is named by its `str` and has none. */
  function StepFor(entity: Entity, command: string, translations: seq<Translation>): (r: Step)
    ensures entity.Located? ==> r.title == Translate(entity.fullDescription + ": " + command, translations)
    ensures entity.Other? ==> r.title == Translate(entity.text + ": " + command, translations)
    ensures entity.Located? ==> r.params.Keys == {"locator"} && r.params["locator"] == Translate(entity.text, translations)
    ensures entity.Other? ==> r.params == map[]
  {
    match entity
    case Located(full, text) =>
      Step(Translate(full + ": " + command, translations), map["locator" := Translate(text, translations)])
    case Other(text) =>
      Step(Translate(text + ": " + command, translations), map[])
  }

  /** The decorated command: it runs the wrapped command once, inside the
      step, and returns its result unchanged. */
  function Decorated<R>(entity: Entity, command: string, translations: seq<Translation>, run: string -> R): (r: (Step, R))
    ensures r.0 == StepFor(entity, command, translations)
    ensures r.1 == run(command)
  {
    (StepFor(entity, command, translations), run(command))
  }
}
