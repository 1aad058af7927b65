/** The page-object helpers of web_test/pages/the_internet.py: the XPath
    builder, the row labels, and the Table and Row classes that find rows
    and read their cells. Selene is not part of this model: what the browser
    shows of a table is the value `RenderedTable`, and Selene's `have.text`
    is the parameter `hasText`. */
module Pages {
  import opened Wrappers
  import opened Strings
  import opened Dicts
  import Naming

  /* ---------------------------------------------------------------- */
  /* uglify_class_name                                                  */

  const UglyPrefix := ".//*[contains(@class,\"MakeThisXPATHMoreRealisticWithSomeFrontendGarbage\") or contains(@class,\""
  const UglySuffix := "\")]"

  /** `uglify_class_name(c)`: an XPath matching the class `c` or a fixed
      decoy class. */
  function UglifyClassName(className: string): string
  {
    UglyPrefix + className + UglySuffix
  }

  /** The class name embedded in a locator of that shape. */
  function ClassNameIn(xpath: string): Option<string>
  {
    if |xpath| >= |UglyPrefix| + |UglySuffix|
       && xpath[..|UglyPrefix|] == UglyPrefix
       && xpath[|xpath| - |UglySuffix|..] == UglySuffix
    then Some(xpath[|UglyPrefix|..|xpath| - |UglySuffix|])
    else None
  }

  /** The class name can be read back out of the locator. */
  lemma UglifyRoundTrip(className: string)
    ensures ClassNameIn(UglifyClassName(className)) == Some(className)
  {
    var x := UglifyClassName(className);
    assert x[..|UglyPrefix|] == UglyPrefix;
    assert x[|x| - |UglySuffix|..] == UglySuffix;
    assert x[|UglyPrefix|..|x| - |UglySuffix|] == className;
  }

  /** Every locator of that shape is the one built from its class name. */
  lemma UglifyOnto(xpath: string)
    requires ClassNameIn(xpath).Some?
    ensures UglifyClassName(ClassNameIn(xpath).value) == xpath
  {
    var c := ClassNameIn(xpath).value;
    assert xpath == xpath[..|UglyPrefix|] + c + xpath[|xpath| - |UglySuffix|..];
  }

  /** Distinct class names give distinct locators. */
  lemma UglifyInjective(a: string, b: string)
    requires UglifyClassName(a) == UglifyClassName(b)
    ensures a == b
  {
    UglifyRoundTrip(a);
    UglifyRoundTrip(b);
  }

  /* ---------------------------------------------------------------- */
  /* Row labels                                                         */

  /** The label `get_row_by_index(i)` gives its row: `row_number#<i + 1>`. */
  function RowNumberLabel(index: int): string
  {
    "row_number#" + IntToString(index + 1)
  }

  /** Rows fetched by different indices get different labels. */
  lemma RowNumberLabelInjective(i: int, j: int)
    requires RowNumberLabel(i) == RowNumberLabel(j)
    ensures i == j
  {
    var p := "row_number#";
    assert IntToString(i + 1) == RowNumberLabel(i)[|p|..];
    assert IntToString(j + 1) == RowNumberLabel(j)[|p|..];
    IntToStringInjective(i + 1, j + 1);
  }

  const RowWithPrefix := "row_with_\""

  /** The label `get_row_by_cell_value(c, v)` gives its row:
      `row_with_"<c>"="<v>"`. */
  function RowWithLabel(column: string, value: string): string
  {
    RowWithPrefix + column + "\"=\"" + value + "\""
  }

  /** In such a label the first double quote after the prefix closes the
      column name. */
  lemma RowWithLabelQuotes(column: string, value: string)
    requires '"' !in column
    ensures var l := RowWithLabel(column, value);
      && |l| > |RowWithPrefix| + |column|
      && l[|RowWithPrefix| + |column|] == '"'
      && l[|RowWithPrefix|..|RowWithPrefix| + |column|] == column
      && l[|RowWithPrefix| + |column| + 3..|l| - 1] == value
      && forall k :: |RowWithPrefix| <= k < |RowWithPrefix| + |column| ==> l[k] != '"'
  {
    var l := RowWithLabel(column, value);
    assert forall k :: |RowWithPrefix| <= k < |RowWithPrefix| + |column| ==> l[k] == column[k - |RowWithPrefix|];
  }

  /** For column names without a double quote, the label determines the
      column and the value. */
  lemma RowWithLabelInjective(c1: string, v1: string, c2: string, v2: string)
    requires '"' !in c1 && '"' !in c2
    requires RowWithLabel(c1, v1) == RowWithLabel(c2, v2)
    ensures c1 == c2 && v1 == v2
  {
    RowWithLabelQuotes(c1, v1);
    RowWithLabelQuotes(c2, v2);
    assert |c1| == |c2|;
  }

  /* ---------------------------------------------------------------- */
  /* What the browser shows                                             */

  /** A table as the browser renders it: absent, or a header row of cell
      texts and body rows that map each cell locator found in the row to
      the cell's text. */
  datatype RenderedTable =
    | Absent
    | Present(header: seq<string>, rows: seq<map<string, string>>)

  /** Why a table operation fails (the exception Selene or Python raises). */
  datatype TableError =
    | TableAbsent                            // the table is not on the page
    | ColumnNotInHeader(column: string)      // no header cell has that text
    | UnknownColumn(column: string)          // `cell_locators[column]` raises KeyError
    | RowCountMismatch(count: nat)           // `should(have.size(1))` fails
    | CellNotFilled(column: string)          // the cell is missing or its text is empty
    | ValuesMismatch(expected: Dict, presented: Dict)  // the assertion in `should_have_values`

  /* ---------------------------------------------------------------- */
  /* StandardCellsTable.cell_locators                                   */

  /** `_get_column_index_by_name`: one more than the number of header cells
      before the first one whose text is `name`; None when there is none. */
  function ColumnIndex(header: seq<string>, name: string): (r: Option<nat>)
    ensures r.Some? <==> name in header
    ensures r.Some? ==> 1 <= r.value <= |header| && header[r.value - 1] == name
    ensures r.Some? ==> name !in header[..r.value - 1]
  {
    if |header| == 0 then None
    else if header[0] == name then Some(1)
    else
      match ColumnIndex(header[1..], name)
      case None => None
      case Some(k) =>
        assert header[..k] == [header[0]] + header[1..][..k - 1];
        Some(k + 1)
  }

  /** The locator of the cell in column `index` of a row:
      `<body_cell_locator>[<index>]`. */
  function CellLocator(bodyCell: string, index: nat): string
  {
    bodyCell + "[" + NatToString(index) + "]"
  }

  /** The loop of `cell_locators` from the column `names[0]` on, adding to
      `acc`; it stops at the first name no header cell carries. */
  function HeaderLocatorsFrom(names: seq<string>, header: seq<string>, bodyCell: string, acc: Dict): Result<Dict, TableError>
    decreases |names|
  {
    if |names| == 0 then Success(acc)
    else
      match ColumnIndex(header, names[0])
      case None => Failure(ColumnNotInHeader(names[0]))
      case Some(index) => HeaderLocatorsFrom(names[1..], header, bodyCell, Put(acc, names[0], CellLocator(bodyCell, index)))
  }

  /** `StandardCellsTable.cell_locators` computed on a rendered table: the
      table must be present, then every column name gets its cell locator. */
  function StandardLocators(page: RenderedTable, names: seq<string>, bodyCell: string): Result<Dict, TableError>
  {
    if page.Absent? then Failure(TableAbsent)
    else HeaderLocatorsFrom(names, page.header, bodyCell, [])
  }

  /** The loop succeeds exactly when every name is in the header. */
  lemma {:induction false} HeaderLocatorsSucceed(names: seq<string>, header: seq<string>, bodyCell: string, acc: Dict)
    ensures HeaderLocatorsFrom(names, header, bodyCell, acc).Success? <==> forall i :: 0 <= i < |names| ==> names[i] in header
    decreases |names|
  {
    if |names| > 0 {
      var rest := names[1..];
      var found := ColumnIndex(header, names[0]);
      if found.Some? {
        var acc' := Put(acc, names[0], CellLocator(bodyCell, found.value));
        assert HeaderLocatorsFrom(names, header, bodyCell, acc) == HeaderLocatorsFrom(rest, header, bodyCell, acc');
        HeaderLocatorsSucceed(rest, header, bodyCell, acc');
        assert forall i :: 1 <= i < |names| ==> names[i] == rest[i - 1];
      }
    }
  }

  /** A failing loop reports the first name no header cell carries. */
  lemma {:induction false} HeaderLocatorsFailure(names: seq<string>, header: seq<string>, bodyCell: string, acc: Dict)
    requires HeaderLocatorsFrom(names, header, bodyCell, acc).Failure?
    ensures exists i :: (0 <= i < |names| && names[i] !in header
      && HeaderLocatorsFrom(names, header, bodyCell, acc).error == ColumnNotInHeader(names[i])
      && (forall j :: 0 <= j < i ==> names[j] in header))
    decreases |names|
  {
    assert |names| > 0;
    match ColumnIndex(header, names[0])
    case None =>
      assert names[0] !in header;
    case Some(index) =>
      var rest := names[1..];
      HeaderLocatorsFailure(rest, header, bodyCell, Put(acc, names[0], CellLocator(bodyCell, index)));
      var i :| 0 <= i < |rest| && rest[i] !in header
        && HeaderLocatorsFrom(rest, header, bodyCell, Put(acc, names[0], CellLocator(bodyCell, index))).error == ColumnNotInHeader(rest[i])
        && (forall j :: 0 <= j < i ==> rest[j] in header);
      assert forall j :: 1 <= j < i + 1 ==> names[j] == rest[j - 1];
      assert names[i + 1] !in header;
  }

  /** When every name is in the header the loop succeeds, maps every name
      to the locator of its column and leaves the other keys as they were. */
  lemma {:induction false} HeaderLocatorsValues(names: seq<string>, header: seq<string>, bodyCell: string, acc: Dict)
    requires DistinctKeys(acc)
    requires forall i :: 0 <= i < |names| ==> names[i] in header
    ensures HeaderLocatorsFrom(names, header, bodyCell, acc).Success?
    ensures DistinctKeys(HeaderLocatorsFrom(names, header, bodyCell, acc).value)
    ensures forall k :: (Lookup(HeaderLocatorsFrom(names, header, bodyCell, acc).value, k) ==
      if k in names then Some(CellLocator(bodyCell, ColumnIndex(header, k).value)) else Lookup(acc, k))
    decreases |names|
  {
    if |names| > 0 {
      var index := ColumnIndex(header, names[0]).value;
      var acc' := Put(acc, names[0], CellLocator(bodyCell, index));
      PutSpec(acc, names[0], CellLocator(bodyCell, index));
      assert forall i :: 0 <= i < |names[1..]| ==> names[1..][i] == names[i + 1];
      HeaderLocatorsValues(names[1..], header, bodyCell, acc');
      assert forall k :: k in names <==> k == names[0] || k in names[1..];
    }
  }

  /** The loop of `StandardCellsTable.cell_locators` over the column names,
      stopping at the first name the header lacks. */
  method HeaderLocators(names: seq<string>, header: seq<string>, bodyCell: string) returns (r: Result<Dict, TableError>)
    ensures r == HeaderLocatorsFrom(names, header, bodyCell, [])
  {
    var d: Dict := [];
    var i := 0;
    while i < |names|
      invariant 0 <= i <= |names|
      invariant HeaderLocatorsFrom(names[i..], header, bodyCell, d) == HeaderLocatorsFrom(names, header, bodyCell, [])
    {
      assert names[i..][1..] == names[i + 1..];
      var index := ColumnIndex(header, names[i]);
      if index.None? {
        return Failure(ColumnNotInHeader(names[i]));
      }
      d := Put(d, names[i], CellLocator(bodyCell, index.value));
      i := i + 1;
    }
    return Success(d);
  }

  /* ---------------------------------------------------------------- */
  /* Finding rows                                                       */

  /** Selene's `by_their(locator, have.text(value))` keeps a row when the
      row has a cell at `locator` whose text satisfies `have.text(value)`. */
  predicate Matches(row: map<string, string>, locator: string, value: string, hasText: (string, string) -> bool)
  {
    locator in row && hasText(row[locator], value)
  }

  /** The number of rows `by_their` keeps. */
  function CountMatching(rows: seq<map<string, string>>, locator: string, value: string, hasText: (string, string) -> bool): nat
  {
    if |rows| == 0 then 0
    else (if Matches(rows[0], locator, value, hasText) then 1 else 0) + CountMatching(rows[1..], locator, value, hasText)
  }

  /** The index of the first row `by_their` keeps (`filtered.first`). */
  function FirstMatch(rows: seq<map<string, string>>, locator: string, value: string, hasText: (string, string) -> bool): (r: Option<nat>)
    ensures r.Some? ==> r.value < |rows| && Matches(rows[r.value], locator, value, hasText)
    ensures r.Some? ==> forall i :: 0 <= i < r.value ==> !Matches(rows[i], locator, value, hasText)
    ensures r.None? ==> forall i :: 0 <= i < |rows| ==> !Matches(rows[i], locator, value, hasText)
  {
    if |rows| == 0 then None
    else if Matches(rows[0], locator, value, hasText) then Some(0)
    else
      match FirstMatch(rows[1..], locator, value, hasText)
      case None => None
      case Some(k) => Some(k + 1)
  }

  /** No row is kept exactly when the count is zero. */
  lemma {:induction false} CountMatchingZero(rows: seq<map<string, string>>, locator: string, value: string, hasText: (string, string) -> bool)
    ensures CountMatching(rows, locator, value, hasText) == 0 <==> forall i :: 0 <= i < |rows| ==> !Matches(rows[i], locator, value, hasText)
  {
    if |rows| > 0 {
      CountMatchingZero(rows[1..], locator, value, hasText);
      assert forall i :: 1 <= i < |rows| ==> rows[i] == rows[1..][i - 1];
    }
  }

  /** When exactly one row is kept, the first kept row is the only one. */
  lemma {:induction false} CountMatchingOne(rows: seq<map<string, string>>, locator: string, value: string, hasText: (string, string) -> bool)
    requires CountMatching(rows, locator, value, hasText) == 1
    ensures FirstMatch(rows, locator, value, hasText).Some?
    ensures forall i :: 0 <= i < |rows| && Matches(rows[i], locator, value, hasText) ==>
      i == FirstMatch(rows, locator, value, hasText).value
  {
    assert |rows| > 0;
    assert forall i :: 1 <= i < |rows| ==> rows[i] == rows[1..][i - 1];
    if Matches(rows[0], locator, value, hasText) {
      CountMatchingZero(rows[1..], locator, value, hasText);
    } else {
      CountMatchingOne(rows[1..], locator, value, hasText);
    }
  }

  /** Which row a Row object stands for: `rows[index]`, or the first row
      kept by a filter. */
  datatype RowQuery =
    | AtIndex(index: int)
    | FirstWith(locator: string, value: string)

  /** The cells of the row a query designates, None when there is no such
      row. An index follows Python's list indexing, negative indices
      counting from the end. */
  function ResolveRow(page: RenderedTable, query: RowQuery, hasText: (string, string) -> bool): (r: Option<map<string, string>>)
    ensures page.Absent? ==> r.None?
    ensures page.Present? && query.AtIndex? ==>
      r == if 0 <= query.index < |page.rows| then Some(page.rows[query.index])
           else if -|page.rows| <= query.index < 0 then Some(page.rows[|page.rows| + query.index])
           else None
    ensures page.Present? && query.FirstWith? ==>
      (r.Some? <==> exists i :: 0 <= i < |page.rows| && Matches(page.rows[i], query.locator, query.value, hasText))
  {
    match page
    case Absent => None
    case Present(_, rows) =>
      match query
      case AtIndex(i) =>
        if 0 <= i < |rows| then Some(rows[i])
        else if -|rows| <= i < 0 then Some(rows[|rows| + i])
        else None
      case FirstWith(locator, value) =>
        match FirstMatch(rows, locator, value, hasText)
        case None => None
        case Some(k) => Some(rows[k])
  }

  /* ---------------------------------------------------------------- */
  /* Row._parse_values                                                  */

  /** `should(have._not_.exact_text(''))` on a cell: the row and the cell
      exist and the cell's text is not empty. */
  predicate Filled(cells: Option<map<string, string>>, locator: string)
  {
    cells.Some? && locator in cells.value && cells.value[locator] != ""
  }

  /** The loop of `_parse_values` from column `locators[0]` on, storing into
      `stored`: each column is checked, then its text is stored; the first
      unfilled cell stops the loop, keeping what was stored before it. */
  function Parsed(cells: Option<map<string, string>>, locators: Dict, stored: Dict): (Dict, Outcome<TableError>)
    decreases |locators|
  {
    if |locators| == 0 then (stored, Pass)
    else if !Filled(cells, locators[0].1) then (stored, Fail(CellNotFilled(locators[0].0)))
    else Parsed(cells, locators[1..], Put(stored, locators[0].0, cells.value[locators[0].1]))
  }

  /** A parse passes exactly when every cell is filled. */
  lemma {:induction false} ParsedPasses(cells: Option<map<string, string>>, locators: Dict, stored: Dict)
    ensures Parsed(cells, locators, stored).1.Pass? <==> forall i :: 0 <= i < |locators| ==> Filled(cells, locators[i].1)
    decreases |locators|
  {
    if |locators| > 0 && Filled(cells, locators[0].1) {
      ParsedPasses(cells, locators[1..], Put(stored, locators[0].0, cells.value[locators[0].1]));
      assert forall i :: 1 <= i < |locators| ==> locators[i] == locators[1..][i - 1];
    }
  }

  /** After a parse that passes, every column holds its cell's text and
      every other key keeps what was stored before. */
  lemma {:induction false} ParsedValues(cells: Option<map<string, string>>, locators: Dict, stored: Dict)
    requires DistinctKeys(locators) && DistinctKeys(stored)
    requires forall i :: 0 <= i < |locators| ==> Filled(cells, locators[i].1)
    ensures Parsed(cells, locators, stored).1.Pass?
    ensures DistinctKeys(Parsed(cells, locators, stored).0)
    ensures forall i :: 0 <= i < |locators| ==>
      (Filled(cells, locators[i].1) && Lookup(Parsed(cells, locators, stored).0, locators[i].0) == Some(cells.value[locators[i].1]))
    ensures forall k :: Lookup(locators, k).None? ==> Lookup(Parsed(cells, locators, stored).0, k) == Lookup(stored, k)
    decreases |locators|
  {
    if |locators| > 0 {
      var rest := locators[1..];
      var stored' := Put(stored, locators[0].0, cells.value[locators[0].1]);
      PutSpec(stored, locators[0].0, cells.value[locators[0].1]);
      assert forall i :: 0 <= i < |rest| ==> rest[i] == locators[i + 1];
      ParsedValues(cells, rest, stored');
      var values := Parsed(cells, locators, stored).0;
      assert values == Parsed(cells, rest, stored').0;
      forall i | 0 <= i < |locators|
        ensures Filled(cells, locators[i].1) && Lookup(values, locators[i].0) == Some(cells.value[locators[i].1])
      {
        if i > 0 {
          assert locators[i] == rest[i - 1];
        } else {
          assert Lookup(rest, locators[0].0).None? by {
            assert forall j :: 0 <= j < |rest| ==> rest[j].0 != locators[0].0;
          }
        }
      }
      forall k | Lookup(locators, k).None?
        ensures Lookup(values, k) == Lookup(stored, k)
      {
        assert k != locators[0].0;
        assert Lookup(rest, k).None?;
      }
    }
  }

  /** The position of the first column whose cell is not filled. */
  function FirstUnfilled(cells: Option<map<string, string>>, locators: Dict): (r: Option<nat>)
    ensures r.Some? ==> r.value < |locators| && !Filled(cells, locators[r.value].1)
    ensures r.Some? ==> forall i :: 0 <= i < r.value ==> Filled(cells, locators[i].1)
    ensures r.None? ==> forall i :: 0 <= i < |locators| ==> Filled(cells, locators[i].1)
  {
    if |locators| == 0 then None
    else if !Filled(cells, locators[0].1) then Some(0)
    else
      match FirstUnfilled(cells, locators[1..])
      case None => None
      case Some(j) => Some(j + 1)
  }

  /** A parse fails exactly when some cell is unfilled; it then names the
      column of the first one and keeps exactly what the parse of the
      columns before it stored. */
  lemma {:induction false} ParsedFail(cells: Option<map<string, string>>, locators: Dict, stored: Dict)
    ensures Parsed(cells, locators, stored).1.Fail? <==> FirstUnfilled(cells, locators).Some?
    ensures FirstUnfilled(cells, locators).Some? ==>
      var j := FirstUnfilled(cells, locators).value;
      Parsed(cells, locators, stored) == (Parsed(cells, locators[..j], stored).0, Fail(CellNotFilled(locators[j].0)))
    decreases |locators|
  {
    if |locators| > 0 {
      if !Filled(cells, locators[0].1) {
        assert locators[..0] == [];
      } else {
        var rest := locators[1..];
        var stored' := Put(stored, locators[0].0, cells.value[locators[0].1]);
        ParsedFail(cells, rest, stored');
        if FirstUnfilled(cells, rest).Some? {
          var j := FirstUnfilled(cells, rest).value;
          assert locators[..j + 1][0] == locators[0];
          assert locators[..j + 1][1..] == rest[..j];
        }
      }
    }
  }

  /* ---------------------------------------------------------------- */
  /* should_have_values                                                 */

  /** `expected.items() <= values.items()`. */
  predicate IsSubDict(expected: Dict, values: Dict)
  {
    forall i :: 0 <= i < |expected| ==> expected[i] in values
  }

  /** The items test is the key-by-key comparison: every expected key is
      present with the expected value. */
  lemma SubDictByKey(expected: Dict, values: Dict)
    requires DistinctKeys(expected) && DistinctKeys(values)
    ensures IsSubDict(expected, values) <==>
      forall k :: Lookup(expected, k).Some? ==> Lookup(values, k) == Lookup(expected, k)
  {
    if IsSubDict(expected, values) {
      forall k | Lookup(expected, k).Some?
        ensures Lookup(values, k) == Lookup(expected, k)
      {
        var i :| 0 <= i < |expected| && expected[i] == (k, Lookup(expected, k).value);
        var j :| 0 <= j < |values| && values[j] == expected[i];
        LookupAt(values, j);
      }
    } else {
      var i :| 0 <= i < |expected| && expected[i] !in values;
      LookupAt(expected, i);
    }
  }

  /* ---------------------------------------------------------------- */
  /* Row                                                                */

  class Row {
    /** The row's own place in the naming chain. */
    const node: Naming.Node
    const query: RowQuery
    const cellLocators: Dict
    const hasText: (string, string) -> bool
    /** `_values`: what the parses so far have stored. */
    var values: Dict

    /** `Row.__init__`: nothing is parsed yet. */
    constructor (node: Naming.Node, query: RowQuery, cellLocators: Dict, hasText: (string, string) -> bool)
      ensures this.node == node && this.query == query && this.cellLocators == cellLocators && this.hasText == hasText
      ensures values == []
    {
      this.node := node;
      this.query := query;
      this.cellLocators := cellLocators;
      this.hasText := hasText;
      values := [];
    }

    /** `_parse_values`: for each column in order, check the cell is filled,
        then store its text; an unfilled cell stops the loop. */
    method ParseValues(page: RenderedTable) returns (outcome: Outcome<TableError>)
      modifies this
      ensures (values, outcome) == Parsed(ResolveRow(page, query, hasText), cellLocators, old(values))
    {
      var cells := ResolveRow(page, query, hasText);
      var i := 0;
      while i < |cellLocators|
        invariant 0 <= i <= |cellLocators|
        invariant Parsed(cells, cellLocators[i..], values) == Parsed(cells, cellLocators, old(values))
      {
        var (column, locator) := cellLocators[i];
        assert cellLocators[i..][1..] == cellLocators[i + 1..];
        if !Filled(cells, locator) {
          return Fail(CellNotFilled(column));
        }
        values := Put(values, column, cells.value[locator]);
        i := i + 1;
      }
      return Pass;
    }

    /** The `values` property: parse only while nothing is stored; a parse
        that fails passes its error on and keeps what it stored. */
    method Values(page: RenderedTable) returns (r: Result<Dict, TableError>)
      modifies this
      ensures old(values) != [] ==> r == Success(old(values)) && values == old(values)
      ensures old(values) == [] ==>
        var p := Parsed(ResolveRow(page, query, hasText), cellLocators, []);
        values == p.0 && r == if p.1.Pass? then Success(p.0) else Failure(p.1.error)
    {
      if values == [] {
        var outcome := ParseValues(page);
        if outcome.Fail? {
          return Failure(outcome.error);
        }
      }
      return Success(values);
    }

    /** `should_have_values(expected)`: read the values, then assert that
        every expected item is among them; the failure carries both maps. */
    method ShouldHaveValues(page: RenderedTable, expected: Dict) returns (outcome: Outcome<TableError>)
      modifies this
      ensures old(values) != [] ==> values == old(values)
      ensures old(values) == [] ==> values == Parsed(ResolveRow(page, query, hasText), cellLocators, []).0
      ensures old(values) == [] && Parsed(ResolveRow(page, query, hasText), cellLocators, []).1.Fail? ==>
        outcome == Parsed(ResolveRow(page, query, hasText), cellLocators, []).1
      ensures old(values) != [] || Parsed(ResolveRow(page, query, hasText), cellLocators, []).1.Pass? ==>
        outcome == if IsSubDict(expected, values) then Pass else Fail(ValuesMismatch(expected, values))
    {
      var r := Values(page);
      if r.Failure? {
        return Fail(r.error);
      }
      if IsSubDict(expected, r.value) {
        return Pass;
      }
      return Fail(ValuesMismatch(expected, r.value));
    }
  }

  /* ---------------------------------------------------------------- */
  /* Table                                                              */

  /** Where a table's cell locators come from: a dict given at construction
      (`Table`), or the header of the rendered table (`StandardCellsTable`). */
  datatype LocatorSource =
    | Fixed(locators: Dict)
    | FromHeader(columnNames: seq<string>, bodyCell: string)

  /** The decision of `get_row_by_cell_value`: the column must have a
      locator, and exactly one row must have the value in that column; the
      result is the column's locator. */
  function RowSelection(locators: Result<Dict, TableError>, page: RenderedTable, column: string, value: string,
                        hasText: (string, string) -> bool): Result<string, TableError>
  {
    match locators
    case Failure(e) => Failure(e)
    case Success(d) =>
      match Lookup(d, column)
      case None => Failure(UnknownColumn(column))
      case Some(locator) =>
        if page.Absent? then Failure(TableAbsent)
        else if CountMatching(page.rows, locator, value, hasText) != 1 then
          Failure(RowCountMismatch(CountMatching(page.rows, locator, value, hasText)))
        else Success(locator)
  }

  /** A selected row is the one row of the table that matches. */
  lemma RowSelectionUnique(locators: Result<Dict, TableError>, page: RenderedTable, column: string, value: string,
                           hasText: (string, string) -> bool)
    requires RowSelection(locators, page, column, value, hasText).Success?
    ensures var locator := RowSelection(locators, page, column, value, hasText).value;
      && page.Present?
      && exists j :: 0 <= j < |page.rows|
           && ResolveRow(page, FirstWith(locator, value), hasText) == Some(page.rows[j])
           && forall i :: 0 <= i < |page.rows| && Matches(page.rows[i], locator, value, hasText) ==> i == j
  {
    var locator := RowSelection(locators, page, column, value, hasText).value;
    CountMatchingOne(page.rows, locator, value, hasText);
  }

  class Table {
    /** The table's own place in the naming chain. */
    const node: Naming.Node
    const source: LocatorSource
    /** The class name of the rows it builds (`row_type`). */
    const rowClass: string
    const hasText: (string, string) -> bool
    /** The cached `cell_locators` of a StandardCellsTable. */
    var cache: Option<Dict>

    ghost predicate Valid()
      reads this
    {
      && (source.Fixed? ==> DistinctKeys(source.locators) && cache.None?)
      && (cache.Some? ==> DistinctKeys(cache.value))
    }

    /** `Table.__init__` / `StandardCellsTable.__init__`: nothing cached. */
    constructor (node: Naming.Node, source: LocatorSource, rowClass: string, hasText: (string, string) -> bool)
      requires source.Fixed? ==> DistinctKeys(source.locators)
      ensures Valid()
      ensures this.node == node && this.source == source && this.rowClass == rowClass && this.hasText == hasText
      ensures cache == None
    {
      this.node := node;
      this.source := source;
      this.rowClass := rowClass;
      this.hasText := hasText;
      cache := None;
    }

    /** What `cell_locators` would give now. */
    function Locators(page: RenderedTable): Result<Dict, TableError>
      reads this
    {
      match source
      case Fixed(d) => Success(d)
      case FromHeader(names, bodyCell) =>
        if cache.Some? then Success(cache.value) else StandardLocators(page, names, bodyCell)
    }

    /** `cell_locators`: the given dict, or for a StandardCellsTable the
        cached dict, computed (once it succeeds) by the header loop. */
    method CellLocators(page: RenderedTable) returns (r: Result<Dict, TableError>)
      requires Valid()
      modifies this
      ensures Valid()
      ensures r == old(Locators(page))
      ensures r.Success? ==> DistinctKeys(r.value)
      ensures old(cache).Some? || source.Fixed? ==> cache == old(cache)
      ensures old(cache).None? && source.FromHeader? ==> cache == if r.Success? then Some(r.value) else None
    {
      if source.Fixed? {
        return Success(source.locators);
      }
      if cache.Some? {
        return Success(cache.value);
      }
      if page.Absent? {
        return Failure(TableAbsent);
      }
      r := HeaderLocators(source.columnNames, page.header, source.bodyCell);
      if r.Success? {
        HeaderLocatorsSucceed(source.columnNames, page.header, source.bodyCell, []);
        HeaderLocatorsValues(source.columnNames, page.header, source.bodyCell, []);
        cache := Some(r.value);
      }
    }

    /** `get_row_count`: the number of rendered rows. */
    function GetRowCount(page: RenderedTable): (r: Result<nat, TableError>)
      ensures page.Absent? <==> r.Failure?
      ensures page.Present? ==> r.value == |page.rows|
    {
      if page.Absent? then Failure(TableAbsent) else Success(|page.rows|)
    }

    /** `get_row_by_cell_value(column, value)`: exactly one row must match;
        the new Row stands for the first (so the only) matching row, is
        labelled `row_with_"<column>"="<value>"` and is chained to the
        table. */
    method GetRowByCellValue(page: RenderedTable, column: string, value: string) returns (r: Result<Row, TableError>)
      requires Valid()
      modifies this
      ensures Valid()
      ensures old(cache).Some? || source.Fixed? ==> cache == old(cache)
      ensures old(cache).None? && source.FromHeader? ==>
        cache == if old(Locators(page)).Success? then Some(old(Locators(page)).value) else None
      ensures var selection := RowSelection(old(Locators(page)), page, column, value, hasText);
        && (r.Success? <==> selection.Success?)
        && (r.Failure? ==> r.error == selection.error)
        && (r.Success? ==>
              && fresh(r.value) && fresh(r.value.node)
              && r.value.query == FirstWith(selection.value, value)
              && r.value.cellLocators == old(Locators(page)).value
              && r.value.hasText == hasText
              && r.value.values == []
              && r.value.node.kind == Naming.Component(rowClass)
              && r.value.node.description == RowWithLabel(column, value)
              && r.value.node.previous == node)
    {
      var locators := CellLocators(page);
      if locators.Failure? {
        return Failure(locators.error);
      }
      var locator := Lookup(locators.value, column);
      if locator.None? {
        return Failure(UnknownColumn(column));
      }
      if page.Absent? {
        return Failure(TableAbsent);
      }
      var count := CountMatching(page.rows, locator.value, value, hasText);
      if count != 1 {
        return Failure(RowCountMismatch(count));
      }
      var rowNode := new Naming.Node(Naming.Component(rowClass));
      var _ := rowNode.As(RowWithLabel(column, value));
      var _ := rowNode.SetPrevious(node);
      var row := new Row(rowNode, FirstWith(locator.value, value), locators.value, hasText);
      return Success(row);
    }

    /** `get_row_by_index(index)`: no count check; the new Row stands for
        `rows[index]`, is labelled `row_number#<index + 1>` and is chained
        to the table. */
    method GetRowByIndex(page: RenderedTable, index: int) returns (r: Result<Row, TableError>)
      requires Valid()
      modifies this
      ensures Valid()
      ensures old(cache).Some? || source.Fixed? ==> cache == old(cache)
      ensures old(cache).None? && source.FromHeader? ==>
        cache == if old(Locators(page)).Success? then Some(old(Locators(page)).value) else None
      ensures r.Success? <==> old(Locators(page)).Success?
      ensures r.Failure? ==> r.error == old(Locators(page)).error
      ensures r.Success? ==>
        && fresh(r.value) && fresh(r.value.node)
        && r.value.query == AtIndex(index)
        && r.value.cellLocators == old(Locators(page)).value
        && r.value.hasText == hasText
        && r.value.values == []
        && r.value.node.kind == Naming.Component(rowClass)
        && r.value.node.description == RowNumberLabel(index)
        && r.value.node.previous == node
    {
      var locators := CellLocators(page);
      if locators.Failure? {
        return Failure(locators.error);
      }
      var rowNode := new Naming.Node(Naming.Component(rowClass));
      var _ := rowNode.As(RowNumberLabel(index));
      var _ := rowNode.SetPrevious(node);
      var row := new Row(rowNode, AtIndex(index), locators.value, hasText);
      return Success(row);
    }

    /** `is_row_presented(column, value)`: whether any row matches; no
        count is asserted. */
    method IsRowPresented(page: RenderedTable, column: string, value: string) returns (r: Result<bool, TableError>)
      requires Valid()
      modifies this
      ensures Valid()
      ensures old(cache).Some? || source.Fixed? ==> cache == old(cache)
      ensures old(cache).None? && source.FromHeader? ==>
        cache == if old(Locators(page)).Success? then Some(old(Locators(page)).value) else None
      ensures old(Locators(page)).Failure? ==> r == Failure(old(Locators(page)).error)
      ensures old(Locators(page)).Success? && Lookup(old(Locators(page)).value, column).None? ==> r == Failure(UnknownColumn(column))
      ensures old(Locators(page)).Success? && Lookup(old(Locators(page)).value, column).Some? ==>
        var locator := Lookup(old(Locators(page)).value, column).value;
        && (page.Absent? ==> r == Failure(TableAbsent))
        && (page.Present? ==>
              r.Success? && (r.value <==> exists i :: 0 <= i < |page.rows| && Matches(page.rows[i], locator, value, hasText)))
    {
      var locators := CellLocators(page);
      if locators.Failure? {
        return Failure(locators.error);
      }
      var locator := Lookup(locators.value, column);
      if locator.None? {
        return Failure(UnknownColumn(column));
      }
      if page.Absent? {
        return Failure(TableAbsent);
      }
      CountMatchingZero(page.rows, locator.value, value, hasText);
      return Success(CountMatching(page.rows, locator.value, value, hasText) > 0);
    }
  }
}
