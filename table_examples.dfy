/** The table scenarios of tests/test_described_examples.py on the model:
    the rows a table builds are named inside the page's naming chain. */
module TableExamples {
  import opened Wrappers
  import opened Strings
  import opened Dicts
  import opened Naming
  import opened Pages

  /** `table_two`'s hand-written cell locators. */
  const TableTwoLocators: Dict := [
    ("Last Name", ".//td[1]"), ("First Name", ".//td[2]"), ("Email", ".//td[3]"),
    ("Due", ".//td[4]"), ("Web Site", ".//td[5]"), ("Action", ".//td[6]")]

  lemma TableTwoLocatorsDistinct()
    ensures DistinctKeys(TableTwoLocators)
  {
  }

  /** `get_row_by_index(1)` labels the second row `row_number#2`. */
  lemma SecondRowLabel()
    ensures RowNumberLabel(1) == "row_number#2"
  {
    assert NatToString(2) == "2";
  }

  /** `PageWithTables()` with its `table_two`: the hook names the table
      after its attribute and links it to the page. */
  method PageWithTableTwo(hasText: (string, string) -> bool) returns (page: Node, table: Table)
    ensures fresh(table) && table.Valid() && table.source == Fixed(TableTwoLocators) && table.hasText == hasText
    ensures page.kind == Page("PageWithTables") && page.previous == null
    ensures table.node.kind == Component("Table") && table.node.description == "table_two" && table.node.previous == page
  {
    page := new Node(Page("PageWithTables"));
    var tableNode := new Node(Component("Table"));
    TableTwoLocatorsDistinct();
    table := new Table(tableNode, Fixed(TableTwoLocators), "RowWithActions", hasText);
    page.SetAttr("table_two", tableNode);
  }

  /** `page.table_two.get_row_by_index(1)`, whatever the rendered page: a
      row standing for `rows[1]` that reports itself as
      `PageWithTables.table_two.row_number#2`. */
  method SecondRowOfTableTwo(rendered: RenderedTable, hasText: (string, string) -> bool) returns (row: Row, ghost chain: seq<Node>)
    ensures row.query == AtIndex(1) && row.cellLocators == TableTwoLocators && row.values == []
    ensures IsChain(row.node, chain)
    ensures row.node.GetFullPath(chain) == Some("PageWithTables" + "." + "table_two" + "." + "row_number#2")
  {
    var page, table := PageWithTableTwo(hasText);
    var r := table.GetRowByIndex(rendered, 1);
    row := r.value;
    chain := [row.node, table.node, page];
    SecondRowLabel();
    FullPathStep(page, [page]);
    FullPathStep(table.node, [table.node, page]);
    FullPathStep(row.node, chain);
  }

  /** `table_one`'s column names. */
  const TableOneColumns := ["Last Name", "First Name", "Email", "Due", "Web Site", "Action"]

  /** `PageWithTables()` with its `table_one`, a StandardCellsTable whose
      cell locators are read from the header under the default
      `body_cell_locator` `.//td`. */
  method PageWithTableOne(hasText: (string, string) -> bool) returns (page: Node, table: Table)
    ensures fresh(table) && table.Valid() && table.cache == None && table.hasText == hasText
    ensures table.source == FromHeader(TableOneColumns, ".//td")
    ensures page.kind == Page("PageWithTables") && page.previous == null
    ensures table.node.kind == Component("StandardCellsTable") && table.node.description == "table_one" && table.node.previous == page
  {
    page := new Node(Page("PageWithTables"));
    var tableNode := new Node(Component("StandardCellsTable"));
    table := new Table(tableNode, FromHeader(TableOneColumns, ".//td"), "Row", hasText);
    page.SetAttr("table_one", tableNode);
  }

  /** `test_index_example`: `page.table_one.get_row_by_index(1)` reads the
      cell locators first, so it succeeds exactly when the table is shown
      and its header has every column. The row then stands for `rows[1]`,
      each column's locator is `.//td[<its header position>]`, and the row
      reports itself as `PageWithTables.table_one.row_number#2`. */
  method SecondRowOfTableOne(rendered: RenderedTable, hasText: (string, string) -> bool)
    returns (r: Result<Row, TableError>, ghost chain: seq<Node>)
    ensures rendered.Absent? ==> r == Failure(TableAbsent)
    ensures rendered.Present? ==>
      (r.Success? <==> forall i :: 0 <= i < |TableOneColumns| ==> TableOneColumns[i] in rendered.header)
    ensures r.Success? ==> r.value.query == AtIndex(1) && r.value.values == []
    ensures r.Success? ==> forall k :: k in TableOneColumns ==>
      (k in rendered.header && Lookup(r.value.cellLocators, k) == Some(CellLocator(".//td", ColumnIndex(rendered.header, k).value)))
    ensures r.Success? ==> IsChain(r.value.node, chain)
    ensures r.Success? ==> r.value.node.GetFullPath(chain) == Some("PageWithTables" + "." + "table_one" + "." + "row_number#2")
  {
    var page, table := PageWithTableOne(hasText);
    r := table.GetRowByIndex(rendered, 1);
    chain := [];
    if rendered.Present? {
      HeaderLocatorsSucceed(TableOneColumns, rendered.header, ".//td", []);
    }
    if r.Success? {
      var row := r.value;
      HeaderLocatorsValues(TableOneColumns, rendered.header, ".//td", []);
      chain := [row.node, table.node, page];
      SecondRowLabel();
      FullPathStep(page, [page]);
      FullPathStep(table.node, [table.node, page]);
      FullPathStep(row.node, chain);
    }
  }
}
