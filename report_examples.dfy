/** Report titles of tests/test_described_examples.py, proved on the model:
    what `wait_with` logs for `should(have.text('THIS IS A MODAL WINDOW'))`
    on the `.modal` element, with and without a description. Texts are
    assembled from their words so that the proofs can step through them. */
module ReportExamples {
  import opened Report

  /* ---------------------------------------------------------------- */
  /* The locator `browser.element('.modal')`                            */

  const CssModal := "(('css selector', '.modal'))"
  /** `browser.element('.modal')` as Selene prints it, and the texts the
      verbosity pairs take it through. */
  const ModalLocator := "browser.element" + CssModal
  const ModalLocator1 := "element" + CssModal
  const ModalLocator2 := "element" + "(('.modal'))"
  const ModalLocator3 := "element" + "('.modal'))"
  const ModalShort := "element" + "('.modal')"

  /** What may follow the locator without being touched by the verbosity
      pairs that shorten it. */
  predicate LocatorTail(tail: string)
  {
    'b' !in tail && 'c' !in tail && '(' !in tail && ')' !in tail
  }

  lemma CssModalLacksB() ensures 'b' !in CssModal {}
  lemma ModalLocator1LacksB() ensures 'b' !in ModalLocator1 {}

  lemma LocatorStep0(tail: string)
    requires LocatorTail(tail)
    ensures Replace(ModalLocator + tail, "browser.element", "element") == ModalLocator1 + tail
  {
    assert ModalLocator + tail == "" + "browser.element" + (CssModal + tail);
    assert "" + "element" + (CssModal + tail) == ModalLocator1 + tail;
    CssModalLacksB();
    ReplaceOnce("", "browser.element", CssModal + tail, "element", 'b');
  }

  lemma LocatorStep1(tail: string)
    requires LocatorTail(tail)
    ensures Replace(ModalLocator1 + tail, "browser.all", "all") == ModalLocator1 + tail
  {
    ModalLocator1LacksB();
    ReplaceMissingChar(ModalLocator1 + tail, "browser.all", "all", 'b');
  }

  lemma LocatorStep2Pieces()
    ensures ModalLocator1 == "element((" + "'css selector', " + "'.modal'))"
    ensures "element((" + "" + "'.modal'))" == ModalLocator2
  {
  }

  lemma LocatorStep2(tail: string)
    requires LocatorTail(tail)
    ensures Replace(ModalLocator1 + tail, "'css selector', ", "") == ModalLocator2 + tail
  {
    LocatorStep2Pieces();
    assert ModalLocator1 + tail == "element((" + "'css selector', " + ("'.modal'))" + tail);
    assert "element((" + "" + ("'.modal'))" + tail) == ModalLocator2 + tail;
    ReplaceOnce("element((", "'css selector', ", "'.modal'))" + tail, "", 'c');
  }

  lemma LocatorStep3Pieces()
    ensures ModalLocator2 == "element" + "((" + "'.modal'))"
    ensures "element" + "(" + "'.modal'))" == ModalLocator3
  {
  }

  lemma LocatorStep3(tail: string)
    requires LocatorTail(tail)
    ensures Replace(ModalLocator2 + tail, "((", "(") == ModalLocator3 + tail
  {
    LocatorStep3Pieces();
    assert ModalLocator2 + tail == "element" + "((" + ("'.modal'))" + tail);
    assert "element" + "(" + ("'.modal'))" + tail) == ModalLocator3 + tail;
    ReplaceOnce("element", "((", "'.modal'))" + tail, "(", '(');
  }

  lemma LocatorStep4Pieces()
    ensures ModalLocator3 == "element('.modal'" + "))"
    ensures "element('.modal'" + ")" == ModalShort
  {
  }

  lemma LocatorStep4(tail: string)
    requires LocatorTail(tail)
    ensures Replace(ModalLocator3 + tail, "))", ")") == ModalShort + tail
  {
    LocatorStep4Pieces();
    ReplaceOnce("element('.modal'", "))", tail, ")", ')');
  }

  /** The locator after each verbosity pair. */
  function LocatorText(i: int): string
  {
    if i <= 0 then ModalLocator
    else if i <= 2 then ModalLocator1
    else if i == 3 then ModalLocator2
    else if i == 4 then ModalLocator3
    else ModalShort
  }

  /** The verbosity pairs reduce the locator to `element('.modal')`, and
      leave alone a tail without `b`, `c` or parentheses. */
  lemma LocatorShortened(tail: string)
    requires LocatorTail(tail)
    ensures Translate(ModalLocator + tail, RemoveVerbosity) == ModalShort + tail
  {
    var texts := [ModalLocator + tail, ModalLocator1 + tail, ModalLocator1 + tail,
                  ModalLocator2 + tail, ModalLocator3 + tail, ModalShort + tail];
    forall i | 0 <= i < |RemoveVerbosity|
      ensures Replace(texts[i], RemoveVerbosity[i].pattern, RemoveVerbosity[i].replacement) == texts[i + 1]
    {
      assert texts[i] == LocatorText(i) + tail && texts[i + 1] == LocatorText(i + 1) + tail;
      if i == 0 {
        LocatorStep0(tail);
      } else if i == 1 {
        LocatorStep1(tail);
      } else if i == 2 {
        LocatorStep2(tail);
      } else if i == 3 {
        LocatorStep3(tail);
      } else {
        LocatorStep4(tail);
      }
    }
    TranslateSteps(texts, RemoveVerbosity);
  }

  /* ---------------------------------------------------------------- */
  /* The title `<name>: has text THIS IS A MODAL WINDOW`                */

  /** The words after the verb, last word innermost. */
  const WordsWindow := " WINDOW" + ""
  const WordsModal := " MODAL" + WordsWindow
  const WordsA := " A" + WordsModal
  const WordsIs := " IS" + WordsA
  const WordsThis := " THIS" + WordsIs
  const WordsText := " text" + WordsThis
  const WordsHave := " have" + WordsText
  const WordsShould := " should" + WordsHave

  /** `str(have.text('THIS IS A MODAL WINDOW'))`, the command of the step. */
  const ModalText := "text" + WordsThis
  const HasModalText := "has " + ModalText

  /** The title `decorated` builds for an entity named `name`, and the
      titles the assertion pairs take it through. */
  function Title(name: string): string
  {
    name + ColonHas
  }

  function HaveTitle(name: string): string
  {
    name + ":" + WordsHave
  }

  function ShownTitle(name: string): string
  {
    name + ":" + WordsShould
  }

  /** The names the assertion pairs leave alone. */
  predicate TitleName(name: string)
  {
    ':' !in name && ' ' !in name && 'i' !in name && ',' !in name
  }

  lemma ModalTextLacksColon() ensures ':' !in ModalText {}
  lemma WordsShouldLacksI() ensures 'i' !in WordsShould {}
  lemma WordsShouldLacksComma() ensures ',' !in WordsShould {}

  lemma ModalTextLacks()
    ensures ':' !in ModalText && 'i' !in WordsShould && ',' !in WordsShould
  {
    ModalTextLacksColon();
    WordsShouldLacksI();
    WordsShouldLacksComma();
  }

  lemma TitlePieces(name: string)
    ensures Title(name) == name + ": has " + ModalText
    ensures name + ": have " + ModalText == HaveTitle(name)
    ensures name + ": should have " + ModalText == ShownTitle(name)
  {
  }

  lemma TitleStep0(name: string)
    requires TitleName(name)
    ensures Replace(Title(name), ": has ", ": have ") == HaveTitle(name)
  {
    TitlePieces(name);
    ModalTextLacks();
    ReplaceOnce(name, ": has ", ModalText, ": have ", ':');
  }

  lemma TitleStep1(name: string)
    requires TitleName(name)
    ensures Replace(HaveTitle(name), ": have ", ": should have ") == ShownTitle(name)
  {
    TitlePieces(name);
    ModalTextLacks();
    ReplaceOnce(name, ": have ", ModalText, ": should have ", ':');
  }

  /** The words after the colon never start " and has ": each is copied
      unchanged, the last word first. */
  const AndHas := " and has "
  const AndHave := " and have "

  lemma AndHasMissesWindow()
    ensures Replace(WordsWindow, AndHas, AndHave) == WordsWindow
  {
    ReplaceMissChunk(" WINDOW", "", AndHas, AndHave);
  }

  lemma AndHasMissesModal()
    ensures Replace(WordsModal, AndHas, AndHave) == WordsModal
  {
    AndHasMissesWindow();
    ReplaceMissChunk(" MODAL", WordsWindow, AndHas, AndHave);
  }

  lemma AndHasMissesA()
    ensures Replace(WordsA, AndHas, AndHave) == WordsA
  {
    AndHasMissesModal();
    ReplaceMissChunk(" A", WordsModal, AndHas, AndHave);
  }

  lemma AndHasMissesIs()
    ensures Replace(WordsIs, AndHas, AndHave) == WordsIs
  {
    AndHasMissesA();
    ReplaceMissChunk(" IS", WordsA, AndHas, AndHave);
  }

  lemma AndHasMissesThis()
    ensures Replace(WordsThis, AndHas, AndHave) == WordsThis
  {
    AndHasMissesIs();
    ReplaceMissChunk(" THIS", WordsIs, AndHas, AndHave);
  }

  lemma AndHasMissesText()
    ensures Replace(WordsText, AndHas, AndHave) == WordsText
  {
    AndHasMissesThis();
    ReplaceMissChunk(" text", WordsThis, AndHas, AndHave);
  }

  lemma AndHasMissesHave()
    ensures Replace(WordsHave, AndHas, AndHave) == WordsHave
  {
    AndHasMissesText();
    ReplaceMissChunk(" have", WordsText, AndHas, AndHave);
  }

  lemma AndHasMissesShould()
    ensures Replace(WordsShould, AndHas, AndHave) == WordsShould
  {
    AndHasMissesHave();
    ReplaceMissChunk(" should", WordsHave, AndHas, AndHave);
  }

  lemma TitleStep4(name: string)
    requires TitleName(name)
    ensures Replace(ShownTitle(name), AndHas, AndHave) == ShownTitle(name)
  {
    ReplaceSkip(name + ":", WordsShould, AndHas, AndHave);
    AndHasMissesShould();
  }

  /** The assertion pairs turn `has` into `should have`. */
  lemma TitleAssertions(name: string)
    requires TitleName(name)
    ensures Translate(Title(name), IdentifyAssertions) == ShownTitle(name)
  {
    var texts := [Title(name), HaveTitle(name), ShownTitle(name), ShownTitle(name), ShownTitle(name), ShownTitle(name)];
    ModalTextLacks();
    forall i | 0 <= i < |IdentifyAssertions|
      ensures Replace(texts[i], IdentifyAssertions[i].pattern, IdentifyAssertions[i].replacement) == texts[i + 1]
    {
      if i == 0 {
        TitleStep0(name);
      } else if i == 1 {
        TitleStep1(name);
      } else if i == 2 {
        ReplaceMissingChar(ShownTitle(name), ": is ", ": should be ", 'i');
      } else if i == 3 {
        ReplaceMissingChar(ShownTitle(name), " and is ", " and be ", 'i');
      } else {
        TitleStep4(name);
      }
    }
    TranslateSteps(texts, IdentifyAssertions);
  }

  /** After the verbosity pairs, the assertion and key-code pairs show
      `<name>: should have text THIS IS A MODAL WINDOW`, whatever the key
      codes. */
  lemma TitleShown(name: string, keyCodes: seq<Translation>)
    requires TitleName(name)
    requires forall t :: t in keyCodes ==> KeyCodePattern(t)
    ensures Translate(Title(name), IdentifyAssertions + keyCodes) == ShownTitle(name)
  {
    TranslateAppend(Title(name), IdentifyAssertions, keyCodes);
    TitleAssertions(name);
    ModalTextLacks();
    KeyCodesAbsent(ShownTitle(name), keyCodes);
  }

  /** The default pairs applied in their order: verbosity first, then the rest. */
  lemma DefaultSplit(s: string, keyCodes: seq<Translation>)
    ensures Translate(s, DefaultTranslations(keyCodes))
         == Translate(Translate(s, RemoveVerbosity), IdentifyAssertions + keyCodes)
  {
    assert DefaultTranslations(keyCodes) == RemoveVerbosity + (IdentifyAssertions + keyCodes);
    TranslateAppend(s, RemoveVerbosity, IdentifyAssertions + keyCodes);
  }

  /* ---------------------------------------------------------------- */
  /* The two reported steps                                             */

  const ModalName := "better" + "_name" + "_for" + "_a" + "_modal"

  /** The characters the described name is written with: `_` and the
      lower-case letters other than `i` to `k` and `u` to `z`. */
  predicate NameChar(ch: char)
  {
    ch == '_' || 'a' <= ch <= 'h' || 'l' <= ch <= 't'
  }

  lemma NameCharsOnly(s: string, c: char)
    requires forall i :: 0 <= i < |s| ==> NameChar(s[i])
    requires !NameChar(c)
    ensures c !in s
  {
  }

  lemma ModalNameLacks()
    ensures TitleName(ModalName)
    ensures 'w' !in ModalName && '\'' !in ModalName && '(' !in ModalName && ')' !in ModalName
  {
    var s := ModalName;
    assert forall i :: 0 <= i < |s| ==> NameChar(s[i]);
    NameCharsOnly(s, ':');
    NameCharsOnly(s, ' ');
    NameCharsOnly(s, 'i');
    NameCharsOnly(s, ',');
    NameCharsOnly(s, 'w');
    NameCharsOnly(s, '\'');
    NameCharsOnly(s, '(');
    NameCharsOnly(s, ')');
  }

  const ColonHas := ": " + HasModalText

  /** The characters of `: has text THIS IS A MODAL WINDOW`: a colon, spaces,
      capitals and the letters of `has` and `text`. */
  predicate CommandChar(ch: char)
  {
    ch == ':' || ch == ' ' || 'A' <= ch <= 'Z' || ch == 'a' || ch == 'e' || ch == 'h' || ch == 's' || ch == 't' || ch == 'x'
  }

  lemma CommandCharsOnly(s: string, c: char)
    requires forall i :: 0 <= i < |s| ==> CommandChar(s[i])
    requires !CommandChar(c)
    ensures c !in s
  {
  }

  lemma HasModalTextLacks()
    ensures 'w' !in ColonHas && '\'' !in ColonHas && '(' !in ColonHas && ')' !in ColonHas
    ensures LocatorTail(ColonHas)
  {
    var s := ColonHas;
    assert forall i :: 0 <= i < |s| ==> CommandChar(s[i]);
    CommandCharsOnly(s, 'w');
    CommandCharsOnly(s, '\'');
    CommandCharsOnly(s, '(');
    CommandCharsOnly(s, ')');
    CommandCharsOnly(s, 'b');
    CommandCharsOnly(s, 'c');
  }

  lemma ModalShortLacks()
    ensures TitleName(ModalShort)
    ensures ':' !in ModalShort && ' ' !in ModalShort && ',' !in ModalShort
  {
  }

  /** No verbosity pair touches the title of the named modal. */
  lemma NamedTitleVerbosity()
    ensures Translate(Title(ModalName), RemoveVerbosity) == Title(ModalName)
  {
    var t := Title(ModalName);
    var texts := [t, t, t, t, t, t];
    ModalNameLacks();
    HasModalTextLacks();
    forall i | 0 <= i < |RemoveVerbosity|
      ensures Replace(texts[i], RemoveVerbosity[i].pattern, RemoveVerbosity[i].replacement) == texts[i + 1]
    {
      assert texts[i] == t && texts[i + 1] == t;
      if i == 0 {
        ReplaceMissingChar(t, "browser.element", "element", 'w');
      } else if i == 1 {
        ReplaceMissingChar(t, "browser.all", "all", 'w');
      } else if i == 2 {
        ReplaceMissingChar(t, "'css selector', ", "", '\'');
      } else if i == 3 {
        ReplaceMissingChar(t, "((", "(", '(');
      } else {
        ReplaceMissingChar(t, "))", ")", ')');
      }
    }
    TranslateSteps(texts, RemoveVerbosity);
  }

  /** No assertion pair touches the shortened locator. */
  lemma ModalShortAssertions()
    ensures Translate(ModalShort, IdentifyAssertions) == ModalShort
  {
    ModalShortLacks();
    forall t | t in IdentifyAssertions
      ensures t.pattern != "" && !Occurs(t.pattern, ModalShort)
    {
      MissingCharNotOccurs(ModalShort, t.pattern, t.pattern[0]);
    }
    TranslateAbsent(ModalShort, IdentifyAssertions);
  }

  /** With the default pairs the locator parameter reads `element('.modal')`. */
  lemma ModalLocatorTranslated(keyCodes: seq<Translation>)
    requires forall t :: t in keyCodes ==> KeyCodePattern(t)
    ensures Translate(ModalLocator, DefaultTranslations(keyCodes)) == ModalShort
  {
    DefaultSplit(ModalLocator, keyCodes);
    assert ModalLocator + "" == ModalLocator && ModalShort + "" == ModalShort;
    LocatorShortened("");
    TranslateAppend(ModalShort, IdentifyAssertions, keyCodes);
    ModalShortAssertions();
    ModalShortLacks();
    KeyCodesAbsent(ModalShort, keyCodes);
  }

  /** The named modal's title under the default pairs. */
  lemma NamedTitleTranslated(keyCodes: seq<Translation>)
    requires forall t :: t in keyCodes ==> KeyCodePattern(t)
    ensures Translate(Title(ModalName), DefaultTranslations(keyCodes)) == ShownTitle(ModalName)
  {
    DefaultSplit(Title(ModalName), keyCodes);
    NamedTitleVerbosity();
    ModalNameLacks();
    TitleShown(ModalName, keyCodes);
  }

  /** The undescribed modal's title, its locator first, under the default pairs. */
  lemma UndescribedTitleTranslated(keyCodes: seq<Translation>)
    requires forall t :: t in keyCodes ==> KeyCodePattern(t)
    ensures Translate(Title(ModalLocator), DefaultTranslations(keyCodes)) == ShownTitle(ModalShort)
  {
    DefaultSplit(Title(ModalLocator), keyCodes);
    assert Translate(Title(ModalLocator), RemoveVerbosity) == Title(ModalShort) by {
      HasModalTextLacks();
      LocatorShortened(ColonHas);
    }
    ModalShortLacks();
    TitleShown(ModalShort, keyCodes);
  }

  /** `test_simple_elements`: the modal described as
      `better_name_for_a_modal` reports
      `better_name_for_a_modal: should have text THIS IS A MODAL WINDOW`
      with the locator parameter `element('.modal')`. */
  lemma NamedModalStep(keyCodes: seq<Translation>)
    requires forall t :: t in keyCodes ==> KeyCodePattern(t)
    ensures StepFor(Located(ModalName, ModalLocator), HasModalText, DefaultTranslations(keyCodes))
         == Step(ShownTitle(ModalName), map["locator" := ModalShort])
  {
    assert ModalName + ": " + HasModalText == Title(ModalName);
    NamedTitleTranslated(keyCodes);
    ModalLocatorTranslated(keyCodes);
  }

  /** The same element without a description: its full description is its
      locator, so the title starts with the shortened locator,
      `element('.modal'): should have text THIS IS A MODAL WINDOW`. */
  lemma UndescribedModalStep(keyCodes: seq<Translation>)
    requires forall t :: t in keyCodes ==> KeyCodePattern(t)
    ensures StepFor(Located(ModalLocator, ModalLocator), HasModalText, DefaultTranslations(keyCodes))
         == Step(ShownTitle(ModalShort), map["locator" := ModalShort])
  {
    assert ModalLocator + ": " + HasModalText == Title(ModalLocator);
    UndescribedTitleTranslated(keyCodes);
    ModalLocatorTranslated(keyCodes);
  }
}
