# Auto-described elements: a verified model

The selene-auto-described-elements project names the elements of a web test
by where they sit in the page objects. Each page object and Selene element
knows two things:

- its own description;
- a back-link to the object that holds it.

So the report can say `PageWithModal.modal.section: should have text ...`
instead of printing a raw XPath. This project models that core in Dafny and
proves what it promises.

- **Naming chain** (`naming.dfy`, module `Naming`). It models:
  - `ChainableNamingElement` and the patches that give Selene elements the
    same behaviour;
  - the `__setattr__` hook that names and links an assigned node;
  - `as_` and `set_previous_name_chain_element`;
  - `resolve_name`, `get_full_path` and `full_description`.

  Nodes are a `class Node` with the mutable fields `description`,
  `previous` and `fields`, and a `kind` tag:
  - a `Component` (a `BaseElement`) shows its description, or its class name;
  - a `Page` (a `BasePage`) always shows its class name;
  - a `Selene` element shows its description, or the last segment of its
    locator.

  Back-links can form cycles. So `resolve_name` takes a ghost witness: the
  list of nodes along the back-links, ending at a node without one. Such a
  list exists exactly when the back-links do not cycle.
- **Last locator segment** (`locators.dfy`, module `Locators`). It models the
  `re.search` of `last_locator`:
  - the pattern `(element|all)\(\('[^()]*', '[^']*'\)\)$` as a parser and a
    renderer of segments;
  - the search from the left, which yields the longest matching suffix.
- **Report titles** (`report.dfy`, module `Report`). It models:
  - Python's `str.replace`;
  - the left fold of the translation pairs;
  - the default pairs;
  - the title and `params` that `wait_with`'s `decorated` builds.
- **Tables and rows** (`pages.dfy`, module `Pages`). It models:
  - `uglify_class_name` and the row labels;
  - `StandardCellsTable.cell_locators`, a loop with a cache;
  - the row lookups of `Table`;
  - the memoised `Row` parse and `should_have_values`.

  Selene is not modelled. What the browser shows of a table is the value
  `RenderedTable`: a header row and rows mapping a cell locator to its
  text. Selene's `have.text` is the parameter `hasText`. Python dicts, in
  insertion order, are association lists (`dicts.dfy`).
- **Scenarios** (`report_examples.dfy`, `naming_examples.dfy`,
  `table_examples.dfy`). The expected outputs of
  tests/test_described_examples.py are proved on the model:
  - the titles of the modal, with and without a description;
  - the paths `PageWithModal.modal.section` and
    `PageWithModal.modal.footer.close button`;
  - `better_name_for_a_modal.better_name_for_a_title`;
  - `PageWithTables.table_one.row_number#2`.

The translation pairs keep the quotes of the shortened locator: the
undescribed modal is reported as `element('.modal')`
(`ReportExamples.UndescribedModalStep`).

The model takes these as parameters:

- the key-code pairs, from selenium's `Keys`: any list of pairs whose
  pattern has the shape `(<repr>,)`;
- the text-match condition `hasText`;
- the rendered table.

## Model

| member | source | states |
|---|---|---|
| Naming.Node.constructor | web_test/assist/allure/chainable_naming.py:19-21 | a new node, of any kind, has an empty description, no back-link and no fields (the same defaults the patch gives Selene elements) |
| Naming.Node.Str | web_test/assist/allure/chainable_naming.py:34-35 | a component shows its description, or its class name when the description is empty; a page always shows its class name; with a non-empty class name the label is never empty |
| Naming.Node.Segment | tests/conftest.py:59-66 | a Selene element's own entry is its description, or the locator's last segment (`LastLocator`) when it has none; a page object's entry is its `str`. Corrected lookup, see Findings |
| Naming.Node.SegmentAsWritten | tests/conftest.py:59-66 | the lookup as written: a described element gives its description, but an undescribed Selene element gets no name, because `last_locator` is called on the element and exists only on its `Locator` |
| Naming.SegmentAsWrittenFails | tests/conftest.py:29-32 | for an undescribed element whose locator ends in a well-formed segment, the lookup as written gives no name, while `last_locator` on its locator finds one: the corrected `Segment` |
| Locators.LastLocatorFindsRendered | tests/conftest.py:29-32 | a locator description that ends in a well-formed segment always has a last segment |
| Naming.Node.SetAttr | web_test/assist/allure/chainable_naming.py:23-32 | an assigned chain node, when the key is not the back-link: gets the key as description only if it had none, and gets the container as back-link. The container's field holds exactly the value. The container's own description and back-link do not change unless the key is the back-link. The value then heads the container's chain, an undescribed Selene value's own entry is the key, and a page value's entry is its class name. Corrected hook, see Findings |
| Naming.Node.SetAttrAsWritten | web_test/assist/allure/chainable_naming.py:23-32 | the hook as written: a Selene value is wired for every key, including the back-link key |
| Naming.Node.As | tests/conftest.py:38-41 | `as_` sets the description, changes nothing else and returns the same object |
| Naming.Node.SetPrevious | tests/conftest.py:68-71 | `set_previous_name_chain_element` sets the back-link only and returns the same object. A node linked to a node with a chain gets that chain with itself in front, so linking never breaks `resolve_name` |
| Naming.Node.SetPreviousAsWritten | web_test/assist/allure/chainable_naming.py:53-55 | on a page object the assignment goes through the hook: a Selene `prev` is linked back to the page and, without a description, is named `previous_name_chain_element`. Any other `prev` is left unchanged, and so are the node's own description and fields |
| Naming.Node.ResolveName | web_test/assist/allure/chainable_naming.py:41-47 | the names of the chain, root first: one per node, the node's own name last. None exactly when some node has no name |
| Naming.Node.FullDescription | tests/conftest.py:43-49 | an undescribed Selene element reports its raw locator, whatever its back-link |
| Naming.ChainSuffix | web_test/assist/allure/chainable_naming.py:42-43 | every node of a chain heads the rest of it, so the recursive call resolves the parent's chain |
| Naming.ChainUnique | web_test/assist/allure/chainable_naming.py:41-47 | a node has at most one chain, so its names do not depend on the witness |
| Naming.ChainAcyclic | web_test/assist/allure/chainable_naming.py:41-47 | no node appears twice in a chain |
| Naming.MutualLinkHasNoChain | web_test/assist/allure/chainable_naming.py:53-55 | two nodes linked to each other have no chain: `resolve_name` on either never ends |
| Naming.LinkedNodeChain | web_test/assist/allure/chainable_naming.py:23-31 | a node linked to a node with a chain is not in that chain, and heads the chain extended by itself |
| Naming.AssignedPath | web_test/assist/allure/chainable_naming.py:41-47 | a node linked to a node with a chain reports that node's full path, a dot and its own entry |
| Naming.FullPathStep | web_test/assist/allure/chainable_naming.py:37-47 | the full path is the parent's full path, a dot and the own name; without a parent it is the own name |
| Naming.DescribedElementPath | tests/conftest.py:43-66 | a described Selene element reports its parent's full path, a dot and its description; without a parent, its description |
| Strings.JoinSnoc | web_test/assist/allure/chainable_naming.py:38 | joining one more part appends the separator and that part |
| Locators.ParseBody | tests/conftest.py:31 | the text after `<kind>(('` splits into a strategy without parentheses and a value without quotes, closed by `'))` |
| Locators.ParseSound | tests/conftest.py:31 | every text the pattern matches in full is the rendering of well-formed parts |
| Locators.ParseRender | tests/conftest.py:31 | every well-formed segment is matched and parses back to its parts, so the pattern matches exactly those renderings |
| Locators.SearchFromFirst | tests/conftest.py:31 | `re.search` finds the first start position from which the anchored pattern matches, and none only when no position matches |
| Locators.LastLocatorLongest | tests/conftest.py:29-32 | `last_locator` returns the longest suffix (up to a final newline) that the pattern matches, or nothing when no suffix matches |
| Report.ReplaceIsSplitJoin | web_test/assist/selene/report.py:69-71 | `replace` equals splitting at every non-overlapping occurrence, left to right, and joining with the replacement |
| Report.SplitJoinRoundTrip | web_test/assist/selene/report.py:69-71 | joining the parts of a split with the separator gives back the text |
| Report.ReplaceIdentity | web_test/assist/selene/report.py:69-71 | replacing a pattern with itself changes nothing |
| Report.ReplaceAbsent | web_test/assist/selene/report.py:69-71 | a pattern that does not occur leaves the text unchanged |
| Report.ReplaceMissingChar | web_test/assist/selene/report.py:69-71 | a pattern with a character the text lacks leaves the text unchanged |
| Report.ReplaceSkip | web_test/assist/selene/report.py:69-71 | a prefix without the pattern's first character is copied unchanged |
| Report.ReplaceMissChunk | web_test/assist/selene/report.py:69-71 | a chunk whose second character differs from the pattern's, and that lacks the pattern's first character after its first position, is copied unchanged |
| Report.ReplaceFront | web_test/assist/selene/report.py:69-71 | an occurrence at the front is replaced and the scan resumes after it |
| Report.ReplaceOnce | web_test/assist/selene/report.py:69-71 | a single occurrence is replaced and the text around it kept |
| Report.TranslateAppend | web_test/assist/selene/report.py:73-77 | folding two lists of pairs is folding the first, then the second |
| Report.TranslateCons | web_test/assist/selene/report.py:73-77 | the first pair is applied first |
| Report.TranslateSteps | web_test/assist/selene/report.py:73-77 | the fold passes through the texts each pair produces in turn; with no pairs the title is unchanged |
| Report.TranslateAbsent | web_test/assist/selene/report.py:73-77 | pairs whose patterns do not occur leave the text unchanged |
| Report.KeyCodesAbsent | web_test/assist/selene/report.py:33-35 | key-code pairs leave alone any text without a comma |
| Report.StepFor | web_test/assist/selene/report.py:63-85 | an Element or Collection is titled by its full description and gets exactly the parameter `locator`, its translated locator. Any other entity is titled by its `str` and gets no parameters |
| Report.Decorated | web_test/assist/selene/report.py:86-87 | the command runs once and its result is returned unchanged, next to the step |
| ReportExamples.LocatorShortened | web_test/assist/selene/report.py:19-25 | the verbosity pairs turn `browser.element(('css selector', '.modal'))` into `element('.modal')`, leaving alone what follows |
| ReportExamples.TitleAssertions | web_test/assist/selene/report.py:26-32 | the assertion pairs turn `<name>: has text THIS IS A MODAL WINDOW` into `<name>: should have text THIS IS A MODAL WINDOW` |
| ReportExamples.TitleShown | web_test/assist/selene/report.py:41-45 | with any key-code pairs after them, the result is the same |
| ReportExamples.DefaultSplit | web_test/assist/selene/report.py:41-45 | the default pairs are the verbosity pairs, then the assertion and key-code pairs |
| ReportExamples.NamedTitleVerbosity | web_test/assist/selene/report.py:19-25 | no verbosity pair touches the title of a described element |
| ReportExamples.ModalShortAssertions | web_test/assist/selene/report.py:26-32 | no assertion pair touches the shortened locator |
| ReportExamples.ModalLocatorTranslated | web_test/assist/selene/report.py:79-85 | the locator parameter of the modal reads `element('.modal')` |
| ReportExamples.NamedTitleTranslated | tests/test_described_examples.py:11-13 | the described modal's title becomes `better_name_for_a_modal: should have text THIS IS A MODAL WINDOW` |
| ReportExamples.UndescribedTitleTranslated | web_test/assist/selene/report.py:19-32 | an undescribed modal's title `browser.element(('css selector', '.modal')): has text ...` becomes `element('.modal'): should have text ...` |
| ReportExamples.NamedModalStep | tests/test_described_examples.py:11-13 | the step reported for the described modal: its title and its one parameter |
| ReportExamples.UndescribedModalStep | web_test/assist/selene/report.py:60-87 | the step reported for the undescribed modal: title `element('.modal'): should have text ...`, parameter `element('.modal')` |
| Dicts.Lookup | web_test/pages/the_internet.py:138 | `d[k]` finds a value exactly when some entry has the key, and the value found is that entry's |
| Dicts.PutSpec | web_test/pages/the_internet.py:74 | `d[k] = v` makes `k` map to `v` and keeps the other keys. An existing key keeps its place; a new key is appended at the end; keys stay distinct |
| Dicts.LookupAt | web_test/pages/the_internet.py:86 | with distinct keys, every entry is what looking up its key finds |
| Pages.UglifyRoundTrip | web_test/pages/the_internet.py:18-21 | the class name can be read back out of the XPath: the fixed prefix, the name, the fixed suffix |
| Pages.UglifyOnto | web_test/pages/the_internet.py:18-21 | every XPath of that shape is the one built from its class name |
| Pages.UglifyInjective | web_test/pages/the_internet.py:18-21 | distinct class names give distinct XPaths |
| Pages.RowNumberLabelInjective | web_test/pages/the_internet.py:153 | rows fetched by different indices get different labels `row_number#<i + 1>` |
| Strings.NatToStringRoundTrip | web_test/pages/the_internet.py:214 | the decimal text of a number reads back as the number |
| Strings.IntToStringInjective | web_test/pages/the_internet.py:153 | distinct integers are printed differently |
| Pages.RowWithLabelQuotes | web_test/pages/the_internet.py:142 | in `row_with_"<c>"="<v>"` the column is followed by the first double quote, and the value sits between the fixed separators |
| Pages.RowWithLabelInjective | web_test/pages/the_internet.py:142 | for column names without a double quote, the label determines the column and the value |
| Pages.ColumnIndex | web_test/pages/the_internet.py:217-225 | the index is one more than the number of header cells before the first one with that text: at least 1 and at most the header length. None exactly when no header cell has the text |
| Pages.HeaderLocatorsSucceed | web_test/pages/the_internet.py:211-215 | the locator loop succeeds exactly when every column name is in the header |
| Pages.HeaderLocatorsFailure | web_test/pages/the_internet.py:211-215 | a failing loop names the first column the header lacks |
| Pages.HeaderLocatorsValues | web_test/pages/the_internet.py:211-215 | a successful loop maps each column name to `<body_cell>[<index>]` with its header index, one entry per name, and keeps the other keys |
| Pages.HeaderLocators | web_test/pages/the_internet.py:211-215 | the loop computes the locator map the specification function defines |
| Pages.FirstMatch | web_test/pages/the_internet.py:138-141 | `filtered.first` is the first row whose cell has the text, and there is none only when no row matches |
| Pages.CountMatchingZero | web_test/pages/the_internet.py:157-160 | the filter keeps no row exactly when no row matches |
| Pages.CountMatchingOne | web_test/pages/the_internet.py:138-141 | when exactly one row is kept, the first kept row is the only one |
| Pages.ResolveRow | web_test/pages/the_internet.py:152 | `rows[index]` follows Python indexing, negative indices counting from the end; a filtered row exists exactly when some row matches |
| Pages.ParsedPasses | web_test/pages/the_internet.py:71-74 | a parse passes exactly when every cell is filled |
| Pages.ParsedValues | web_test/pages/the_internet.py:71-74 | after a parse that passes, every column holds its cell's text and every other key keeps its stored value |
| Pages.FirstUnfilled | web_test/pages/the_internet.py:72-73 | the first column whose cell is not filled, every earlier one being filled |
| Pages.ParsedFail | web_test/pages/the_internet.py:71-74 | a parse fails exactly when a cell is unfilled. It names the first such column and keeps exactly what the columns before it stored |
| Pages.SubDictByKey | web_test/pages/the_internet.py:86 | `expected.items() <= values.items()` holds exactly when every expected key is present with the expected value |
| Pages.Row.constructor | web_test/pages/the_internet.py:55-66 | a new row has stored nothing |
| Pages.Row.ParseValues | web_test/pages/the_internet.py:70-74 | the loop stores each column in order and stops at the first unfilled cell, as `Parsed` defines |
| Pages.Row.Values | web_test/pages/the_internet.py:76-80 | the row parses only while nothing is stored. A stored map, even a partial one, is returned unchanged; a failed parse passes its error on |
| Pages.Row.ShouldHaveValues | web_test/pages/the_internet.py:82-86 | the row passes exactly when the expected items are among the values; the failure carries both maps |
| Pages.RowSelectionUnique | web_test/pages/the_internet.py:137-144 | a selected row is the one and only row that matches |
| Pages.Table.constructor | web_test/pages/the_internet.py:96-127 | a new table has nothing cached |
| Pages.Table.CellLocators | web_test/pages/the_internet.py:203-215 | the given dict, or the header loop's result. It is computed once: a success is cached and returned from then on |
| Pages.Table.GetRowCount | web_test/pages/the_internet.py:129-130 | the number of rendered rows; an error when the table is absent |
| Pages.Table.GetRowByCellValue | web_test/pages/the_internet.py:136-144 | succeeds exactly when the column has a locator and exactly one row matches. The row stands for that row, is labelled `row_with_"<c>"="<v>"` and is chained to the table. The cell locators are computed at most once and then cached |
| Pages.Table.GetRowByIndex | web_test/pages/the_internet.py:150-155 | makes no count check. The row stands for `rows[index]`, is labelled `row_number#<index + 1>` and is chained to the table. The cell locators are computed at most once and then cached |
| Pages.Table.IsRowPresented | web_test/pages/the_internet.py:157-160 | true exactly when some row matches; never checks a count. The cell locators are computed at most once and then cached |
| NamingExamples.NewModal | web_test/pages/the_internet.py:42-48 | `Modal()` links each of its Selene elements to the modal, each named after its attribute |
| NamingExamples.OpenPageWithModal | web_test/pages/the_internet.py:246-249 | the page names its modal `modal` and links it to itself |
| NamingExamples.ModalPath | tests/test_described_examples.py:41 | the modal reports `PageWithModal.modal` |
| NamingExamples.PageWithModalPaths | tests/test_described_examples.py:36-43 | the section reports `PageWithModal.modal.section`, the header `PageWithModal.modal.header` |
| NamingExamples.CloseButtonPath | tests/test_described_examples.py:105-115 | an element found in the footer, described and linked by hand, reports `PageWithModal.modal.footer.close button` |
| NamingExamples.DerivedElementReportsLocator | tests/test_described_examples.py:91-99 | an element Selene derives from the footer reports its whole locator |
| NamingExamples.UnchainedTitle | tests/test_described_examples.py:14-15 | a described element without a link reports its description alone |
| NamingExamples.ReportedModalSteps | tests/test_described_examples.py:8-13 | the described modal's full description, fed into the report step, gives the title `better_name_for_a_modal: should have text ...`; the undescribed modal's gives `element('.modal'): should have text ...` |
| NamingExamples.ChainedTitle | tests/test_described_examples.py:24-29 | linked to the described modal, the title reports `better_name_for_a_modal.better_name_for_a_title` |
| NamingExamples.LinkPageToElementAsWritten | web_test/assist/allure/chainable_naming.py:24-27 | the page and the element end up linked to each other, and the page has no chain |
| NamingExamples.LinkPageToElement | web_test/assist/allure/chainable_naming.py:53-55 | with the corrected hook only the page is linked, and it reports `container.PageWithModal` |
| TableExamples.SecondRowOfTableOne | tests/test_described_examples.py:64-71 | `table_one.get_row_by_index(1)` stands for `rows[1]`. It succeeds exactly when the header holds every column, and then reports `PageWithTables.table_one.row_number#2` |
| TableExamples.SecondRowOfTableTwo | web_test/pages/the_internet.py:261-269 | the same lookup on `table_two`, which no test shows: `rows[1]`, reported as `PageWithTables.table_two.row_number#2` |

## Left out

- Selene itself is not modelled: locating, waiting and retrying, `by_their`, `should(...)`, `have.text`, `have.exact_text` and `query.text`. A rendered table is a value, and the text match is a parameter.
- The browser is not modelled: `BasePage.open`, `Modal.close` and every click are browser actions.
- The allure step scope and `report.step` are not modelled. `Decorated` states only that the command runs once and its result is returned.
- The contents of `key_codes_to_names` are not modelled. They come from selenium's `Keys`, so the key-code pairs are a parameter.
- `str(fn)` of a command is given as text: Selene's condition printing is not modelled.
- The Selene sub-elements of `Table` and `Row` are not wired: `body`, `rows`, `header`, `header_cells`, `_container` and `RowWithActions`' buttons. Rows are named in the chain; their cells are read from the rendered table.
- `Table.should_have_a_row_with` is not modelled separately. It is `get_row_by_cell_value` with the result dropped.
- A plain `Table` built with `locators_dict=None` is not modelled: its `cell_locators` is None, and indexing it raises.
- Assigning a chain node to the attribute `description` is excluded by a precondition of `SetAttr`.
- Naming.Node.ResolveName: a back-link to an empty Selene Collection counts as a link. Python's `if self.previous_name_chain_element` treats an empty Collection as false and would stop there.
- Pages.Row.ParseValues: the row is resolved once per parse. Selene locates it again for every cell, so a page that changes during the parse is not modelled.
- Pages.Table.CellLocators: the XPath `.//th[.//text()='<name>']` is read as "a header cell whose text is the name". Names with a single quote, which break that XPath, are not modelled.
- Naming.Node.Segment: it states the corrected lookup; the lookup as written is `SegmentAsWritten` (see Findings).
- Naming.Node.SetAttr: it states the corrected hook; the hook as written is `SetAttrAsWritten` (see Findings).

## Findings

| source | as written | input that shows it | evidently intended | confidence | as-written member | corrected member |
|---|---|---|---|---|---|---|
| web_test/assist/allure/chainable_naming.py:24-28 | the Selene branch of `__setattr__` does not exclude the key `previous_name_chain_element`, as the page-object branch does, so `page.set_previous_name_chain_element(element)` also sets `element.previous_name_chain_element = page` | `PageWithModal().set_previous_name_chain_element(browser.element('.modal').as_('container'))`: the two objects point at each other and `page.get_full_path()` recurses without end | assigning the back-link wires nothing, for either kind of value, so only the page points at the element and its path is `container.PageWithModal` | not executed; the page-object branch shows the exclusion is meant | NamingExamples.LinkPageToElementAsWritten | NamingExamples.LinkPageToElement |
| tests/conftest.py:65 | `resolve_name` calls `self.last_locator()` on the element, but the patch at lines 29-32 adds `last_locator` to `Locator` only | any undescribed element in a chain, such as `browser.element('#x')` linked by `set_previous_name_chain_element` from a described element: resolving the described element's path raises `AttributeError` | `self._locator.last_locator()`, as the comment at line 28 describes: the last segment of the element's own locator | not executed | Naming.SegmentAsWrittenFails | Naming.Node.Segment |
