/** The `last_locator` patch on Selene's `Locator` (tests/conftest.py):
    a `re.search` for
        (element|all)\(\('[^()]*', '[^']*'\)\)$
    in the locator's description, returning the matched text. It supplies
    the name of a Selene element that was given no description. */
module Locators {
  import opened Wrappers
  import opened Strings

  /** The three parts of one locator segment `<kind>(('<strategy>', '<value>'))`. */
  datatype SegmentParts = SegmentParts(kind: string, strategy: string, value: string)

  predicate NoParens(a: string)
  {
    forall i :: 0 <= i < |a| ==> a[i] != '(' && a[i] != ')'
  }

  predicate NoQuote(b: string)
  {
    forall i :: 0 <= i < |b| ==> b[i] != '\''
  }

  /** The parts the pattern admits: kind `element` or `all`, a strategy
      without parentheses (`[^()]*`), a value without single quotes (`[^']*`). */
  predicate WellFormed(p: SegmentParts)
  {
    (p.kind == "element" || p.kind == "all") && NoParens(p.strategy) && NoQuote(p.value)
  }

  /** The text of a segment. */
  function Render(p: SegmentParts): string
  {
    p.kind + "(('" + p.strategy + "', '" + p.value + "'))"
  }

  /** Position of the last single quote of `m`. */
  function LastQuote(m: string): (r: Option<nat>)
    ensures r.Some? ==> r.value < |m| && m[r.value] == '\'' && NoQuote(m[r.value + 1..])
    ensures r.None? ==> NoQuote(m)
  {
    if |m| == 0 then None
    else if m[|m| - 1] == '\'' then Some(|m| - 1)
    else
      var r := LastQuote(m[..|m| - 1]);
      assert r.Some? ==> m[r.value + 1..] == m[..|m| - 1][r.value + 1..] + [m[|m| - 1]];
      r
  }

  /** The kind word a segment starts with, or "" when it starts with neither. */
  function KindOf(t: string): (kind: string)
    ensures kind == "" || kind == "element" || kind == "all"
    ensures kind != "" ==> StartsWith(t, kind + "(('")
  {
    if StartsWith(t, "element(('") then "element"
    else if StartsWith(t, "all(('") then "all"
    else ""
  }

  /** Splits what follows `<kind>(('` into strategy and value. Because the
      value has no quote, the separator `', '` must end at the last quote
      before the closing `'))`. */
  function ParseBody(kind: string, body: string): (r: Option<SegmentParts>)
    ensures r.Some? ==> r.value.kind == kind && NoParens(r.value.strategy) && NoQuote(r.value.value)
    ensures r.Some? ==> body == r.value.strategy + "', '" + r.value.value + "'))"
  {
    if |body| < 3 || body[|body| - 3..] != "'))" then None
    else
      var m := body[..|body| - 3];
      match LastQuote(m)
      case None => None
      case Some(q) =>
        if q < 3 || m[q - 3..q + 1] != "', '" || !NoParens(m[..q - 3]) then None
        else
          assert m == m[..q - 3] + "', '" + m[q + 1..];
          assert body == m + "'))";
          Some(SegmentParts(kind, m[..q - 3], m[q + 1..]))
  }

  /** Splits a text the pattern matches IN FULL into its parts; None when the
      pattern does not match the whole text. */
  function ParseSegment(t: string): Option<SegmentParts>
  {
    var kind := KindOf(t);
    if kind == "" then None else ParseBody(kind, t[|kind| + 3..])
  }

  lemma Regroup(a: string, b: string, c: string, d: string, e: string)
    ensures a + (b + c + d + e) == a + b + c + d + e
  {
  }

  /** What ParseSegment returns is well formed and renders back to its input. */
  lemma ParseSound(t: string)
    requires ParseSegment(t).Some?
    ensures WellFormed(ParseSegment(t).value) && Render(ParseSegment(t).value) == t
  {
    var p := ParseSegment(t).value;
    var opening := p.kind + "(('";
    var body := t[|opening|..];
    assert t == opening + body by {
      assert t[..|opening|] == opening;
    }
    Regroup(opening, p.strategy, "', '", p.value, "'))");
  }

  /** The pattern matches `t` in full. */
  predicate Matches(t: string)
  {
    ParseSegment(t).Some?
  }

  lemma {:induction false} LastQuoteOfSuffix(a: string, b: string)
    requires NoQuote(b)
    ensures LastQuote(a + "'" + b) == Some(|a|)
  {
    var m := a + "'" + b;
    if |b| > 0 {
      assert m[..|m| - 1] == a + "'" + b[..|b| - 1];
      LastQuoteOfSuffix(a, b[..|b| - 1]);
    }
  }

  lemma ParseBodyRender(kind: string, strategy: string, value: string)
    requires NoParens(strategy) && NoQuote(value)
    ensures ParseBody(kind, strategy + "', '" + value + "'))") == Some(SegmentParts(kind, strategy, value))
  {
    var body := strategy + "', '" + value + "'))";
    var m := body[..|body| - 3];
    assert body[|body| - 3..] == "'))";
    assert m == (strategy + "', ") + "'" + value;
    LastQuoteOfSuffix(strategy + "', ", value);
    var q := |strategy| + 3;
    assert m[q - 3..q + 1] == "', '";
    assert m[..q - 3] == strategy;
    assert m[q + 1..] == value;
  }

  /** Every well-formed segment is matched, and parsing it gives back its
      parts: with ParseSound, the pattern matches exactly the renderings of
      well-formed parts. */
  lemma ParseRender(p: SegmentParts)
    requires WellFormed(p)
    ensures ParseSegment(Render(p)) == Some(p)
  {
    var t := Render(p);
    var body := p.strategy + "', '" + p.value + "'))";
    assert t == (p.kind + "(('") + body;
    assert KindOf(t) == p.kind by {
      if p.kind == "all" {
        assert t[0] == 'a';
      }
    }
    assert t[|p.kind| + 3..] == body;
    ParseBodyRender(p.kind, p.strategy, p.value);
  }

  /** Where `$` may match: the end of the text, or just before a final newline. */
  function MatchEnd(s: string): (e: nat)
    ensures e <= |s|
  {
    if |s| > 0 && s[|s| - 1] == '\n' then |s| - 1 else |s|
  }

  /** `re.search` with a pattern anchored at `e`: it tries start positions
      from `i` upwards and stops at the first one from which the pattern
      (`full`, a full-match test) matches up to `e`. */
  function SearchFrom(s: string, e: nat, i: nat, full: string -> bool): Option<nat>
    requires i <= e <= |s|
    decreases e - i
  {
    if full(s[i..e]) then Some(i)
    else if i == e then None
    else SearchFrom(s, e, i + 1, full)
  }

  /** The search finds the first start position from which the pattern
      matches, and finds none only when no position qualifies. */
  lemma {:induction false} SearchFromFirst(s: string, e: nat, i: nat, full: string -> bool)
    requires i <= e <= |s|
    ensures var r := SearchFrom(s, e, i, full);
      && (r.Some? ==> i <= r.value <= e && full(s[r.value..e]))
      && (r.Some? ==> forall j :: i <= j < r.value ==> !full(s[j..e]))
      && (r.None? ==> forall j :: i <= j <= e ==> !full(s[j..e]))
    decreases e - i
  {
    if !full(s[i..e]) && i < e {
      SearchFromFirst(s, e, i + 1, full);
    }
  }

  /** `Locator.last_locator`: the longest suffix of the description (up to
      a final newline) that the pattern matches; None where Python's
      `result.group()` would fail on a missing match. */
  function LastLocator(s: string): Option<string>
  {
    var e := MatchEnd(s);
    SearchFromFirst(s, e, 0, Matches);
    match SearchFrom(s, e, 0, Matches)
    case None => None
    case Some(i) => Some(s[i..e])
  }

  /** The segment found is the longest suffix (up to a final newline) that
      the pattern matches; None means no suffix matches. */
  lemma LastLocatorLongest(s: string)
    ensures var r := LastLocator(s);
      && (r.Some? ==> Matches(r.value))
      && (r.Some? ==> |r.value| <= MatchEnd(s) && r.value == s[MatchEnd(s) - |r.value|..MatchEnd(s)])
      && (r.Some? ==> forall j :: 0 <= j < MatchEnd(s) - |r.value| ==> !Matches(s[j..MatchEnd(s)]))
      && (r.None? ==> forall j :: 0 <= j <= MatchEnd(s) ==> !Matches(s[j..MatchEnd(s)]))
  {
    SearchFromFirst(s, MatchEnd(s), 0, Matches);
  }

  /** A description that ends in a well-formed segment has a last segment. */
  lemma LastLocatorFindsRendered(a: string, p: SegmentParts)
    requires WellFormed(p)
    ensures LastLocator(a + Render(p)).Some?
  {
    var s := a + Render(p);
    assert Render(p)[|Render(p)| - 1] == ')';
    assert MatchEnd(s) == |s|;
    assert s[|a|..|s|] == Render(p);
    ParseRender(p);
    SearchFromFirst(s, |s|, 0, Matches);
  }
}
