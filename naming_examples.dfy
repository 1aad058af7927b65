/** The naming scenarios of tests/test_described_examples.py, run on the
    model: the objects are built as the page objects build them, and the
    full paths the report shows are proved. */
module NamingExamples {
  import opened Wrappers
  import opened Naming
  import Pages
  import Report
  import ReportExamples

  /** The description Selene gives `parent.element(...)` for a locator given
      as a (strategy, value) pair. */
  function ElementOf(parent: string, strategy: string, value: string): string
  {
    parent + ".element(('" + strategy + "', '" + value + "'))"
  }

  /** The description of `browser.element(uglify_class_name(c))`. */
  function UglyElement(parent: string, className: string): string
  {
    ElementOf(parent, "xpath", Pages.UglifyClassName(className))
  }

  const ContainerLocator := UglyElement("browser", "modal")

  /** `self.<key> = <parent>.element(locator)` inside a page object's
      `__init__`: the new Selene element is named after the attribute and
      linked back to the object. */
  method AssignElement(owner: Node, key: string, locator: string) returns (element: Node)
    requires owner.kind.Component? && key != DescriptionKey && key != PreviousKey
    modifies owner
    ensures fresh(element)
    ensures element.kind == Selene(locator) && element.description == key && element.previous == owner
    ensures owner.description == old(owner.description) && owner.previous == old(owner.previous)
  {
    element := new Node(Selene(locator));
    owner.SetAttr(key, element);
  }

  /** `Modal()`: its five Selene elements, each linked to the modal (not to
      the Selene element it was found in). */
  method NewModal() returns (modal: Node, header: Node, section: Node, footer: Node)
    ensures fresh(modal)
    ensures modal.kind == Component("Modal") && modal.description == "" && modal.previous == null
    ensures header.kind.Selene? && header.description == "header" && header.previous == modal
    ensures section.kind.Selene? && section.description == "section" && section.previous == modal
    ensures footer.kind == Selene(UglyElement(ContainerLocator, "modal-footer"))
    ensures footer.description == "footer" && footer.previous == modal
  {
    modal := new Node(Component("Modal"));
    var container := AssignElement(modal, "_container", ContainerLocator);
    header := AssignElement(modal, "header", UglyElement(ContainerLocator, "modal-title"));
    section := AssignElement(modal, "section", UglyElement(ContainerLocator, "modal-body"));
    footer := AssignElement(modal, "footer", UglyElement(ContainerLocator, "modal-footer"));
    var closeButton := AssignElement(modal, "close_button", ElementOf(footer.kind.locator, "css selector", "p"));
  }

  /** `PageWithModal()`: the page assigns a new modal, which the hook names
      `modal` and links to the page. */
  method OpenPageWithModal() returns (page: Node, modal: Node, header: Node, section: Node, footer: Node)
    ensures page.kind == Page("PageWithModal") && page.previous == null
    ensures modal.kind == Component("Modal") && modal.description == "modal" && modal.previous == page
    ensures header.kind.Selene? && header.description == "header" && header.previous == modal
    ensures section.kind.Selene? && section.description == "section" && section.previous == modal
    ensures footer.kind == Selene(UglyElement(ContainerLocator, "modal-footer"))
    ensures footer.description == "footer" && footer.previous == modal
  {
    page := new Node(Page("PageWithModal"));
    modal, header, section, footer := NewModal();
    page.SetAttr("modal", modal);
  }

  /** The modal of a `PageWithModal` reports `PageWithModal.modal`. */
  lemma ModalPath(page: Node, modal: Node)
    requires page.kind == Page("PageWithModal") && page.previous == null
    requires modal.kind == Component("Modal") && modal.description == "modal" && modal.previous == page
    ensures IsChain(modal, [modal, page])
    ensures modal.GetFullPath([modal, page]) == Some("PageWithModal" + "." + "modal")
  {
    FullPathStep(page, [page]);
    FullPathStep(modal, [modal, page]);
  }

  /** `test_example_with_page_object`: the section reports itself as
      `PageWithModal.modal.section`, the header as `PageWithModal.modal.header`. */
  method PageWithModalPaths() returns (section: Node, header: Node, ghost sectionChain: seq<Node>, ghost headerChain: seq<Node>)
    ensures section.kind.Selene? && header.kind.Selene?
    ensures IsChain(section, sectionChain) && IsChain(header, headerChain)
    ensures section.FullDescription(sectionChain) == Some("PageWithModal" + "." + "modal" + "." + "section")
    ensures header.FullDescription(headerChain) == Some("PageWithModal" + "." + "modal" + "." + "header")
  {
    var page, modal, footer;
    page, modal, header, section, footer := OpenPageWithModal();
    sectionChain := [section, modal, page];
    headerChain := [header, modal, page];
    ModalPath(page, modal);
    DescribedElementPath(section, sectionChain);
    DescribedElementPath(header, headerChain);
  }

  /** The XPath of `by.text("Close")`. */
  const CloseText := ".//*[text()[normalize-space(.) = concat(\"\", \"Close\")]]"

  /** The footer of a `PageWithModal` reports `PageWithModal.modal.footer`. */
  lemma FooterPath(page: Node, modal: Node, footer: Node)
    requires page.kind == Page("PageWithModal") && page.previous == null
    requires modal.kind == Component("Modal") && modal.description == "modal" && modal.previous == page
    requires footer.kind.Selene? && footer.description == "footer" && footer.previous == modal
    ensures IsChain(footer, [footer, modal, page])
    ensures footer.GetFullPath([footer, modal, page]) == Some("PageWithModal" + "." + "modal" + "." + "footer")
  {
    ModalPath(page, modal);
    FullPathStep(footer, [footer, modal, page]);
  }

  /** `test_chain_elements_workaround`: a Selene element found inside the
      footer, described and linked by hand, reports
      `PageWithModal.modal.footer.close button`. */
  method CloseButtonPath() returns (closeButton: Node, ghost chain: seq<Node>)
    ensures closeButton.kind.Selene? && IsChain(closeButton, chain)
    ensures closeButton.FullDescription(chain) == Some("PageWithModal" + "." + "modal" + "." + "footer" + "." + "close button")
  {
    var page, modal, header, section, footer := OpenPageWithModal();
    closeButton := new Node(Selene(ElementOf(footer.kind.locator, "xpath", CloseText)));
    closeButton := closeButton.As("close button");
    closeButton := closeButton.SetPrevious(footer);
    FooterPath(page, modal, footer);
    chain := [closeButton] + [footer, modal, page];
    DescribedElementPath(closeButton, chain);
  }

  /** `test_chain_elements_is_not_preserved`: an element Selene derives from
      the footer has no description, so it reports its whole locator, not
      a path. */
  method DerivedElementReportsLocator() returns (element: Node)
    ensures element.kind.Selene? && element.description == ""
    ensures element.FullDescription([]) == Some(ElementOf(UglyElement(ContainerLocator, "modal-footer"), "xpath", CloseText))
  {
    var page, modal, header, section, footer := OpenPageWithModal();
    element := new Node(Selene(ElementOf(footer.kind.locator, "xpath", CloseText)));
  }

  const TitleName := "better" + "_name" + "_for" + "_a" + "_title"

  /** `test_simple_elements`: a described title element without a link
      reports its description alone. */
  method UnchainedTitle() returns (title: Node)
    ensures title.kind.Selene? && IsChain(title, [title])
    ensures title.FullDescription([title]) == Some(TitleName)
  {
    title := new Node(Selene(ElementOf(ReportExamples.ModalLocator, "css selector", ".modal-title")));
    title := title.As(TitleName);
    DescribedElementPath(title, [title]);
  }

  /** `test_simple_elements`, end to end: the modal's full description and
      locator go into the report step, which reads
      `better_name_for_a_modal: should have text THIS IS A MODAL WINDOW`;
      the same element without a description reports its shortened locator,
      `element('.modal')`, in the title. */
  method ReportedModalSteps(keyCodes: seq<Report.Translation>) returns (named: Node, plain: Node)
    requires forall t :: t in keyCodes ==> Report.KeyCodePattern(t)
    ensures named.kind.Selene? && IsChain(named, [named])
    ensures plain.kind.Selene? && plain.description == ""
    ensures Report.StepFor(Report.Located(named.FullDescription([named]).value, named.kind.locator),
                           ReportExamples.HasModalText, Report.DefaultTranslations(keyCodes))
         == Report.Step(ReportExamples.ShownTitle(ReportExamples.ModalName), map["locator" := ReportExamples.ModalShort])
    ensures Report.StepFor(Report.Located(plain.FullDescription([]).value, plain.kind.locator),
                           ReportExamples.HasModalText, Report.DefaultTranslations(keyCodes))
         == Report.Step(ReportExamples.ShownTitle(ReportExamples.ModalShort), map["locator" := ReportExamples.ModalShort])
  {
    named := new Node(Selene(ReportExamples.ModalLocator));
    named := named.As(ReportExamples.ModalName);
    DescribedElementPath(named, [named]);
    ReportExamples.NamedModalStep(keyCodes);
    plain := new Node(Selene(ReportExamples.ModalLocator));
    ReportExamples.UndescribedModalStep(keyCodes);
  }

  /** `test_simple_elements_with_a_chain`: linked to the described modal,
      the title reports `better_name_for_a_modal.better_name_for_a_title`. */
  method ChainedTitle() returns (title: Node, ghost chain: seq<Node>)
    ensures title.kind.Selene? && IsChain(title, chain)
    ensures title.FullDescription(chain) == Some(ReportExamples.ModalName + "." + TitleName)
  {
    var modal := new Node(Selene(ReportExamples.ModalLocator));
    modal := modal.As(ReportExamples.ModalName);
    title := new Node(Selene(ElementOf(ReportExamples.ModalLocator, "css selector", ".modal-title")));
    title := title.As(TitleName);
    title := title.SetPrevious(modal);
    chain := [title, modal];
    DescribedElementPath(modal, [modal]);
    DescribedElementPath(title, chain);
  }

  /** `page.set_previous_name_chain_element(element)` as written: the page
      and the element end up linked to each other, and neither has a chain,
      so resolving either name never ends. */
  method LinkPageToElementAsWritten() returns (page: Node, element: Node)
    ensures page.previous == element && element.previous == page
    ensures forall c :: !IsChain(page, c)
  {
    page := new Node(Page("PageWithModal"));
    element := new Node(Selene(ContainerLocator));
    element := element.As("container");
    page := page.SetPreviousAsWritten(element);
    forall c | true
      ensures !IsChain(page, c)
    {
      MutualLinkHasNoChain(page, element, c);
    }
  }

  /** The same link with the back-link key excluded: only the page points
      at the element, and the page reports `container.PageWithModal`. */
  method LinkPageToElement() returns (page: Node, element: Node)
    ensures page.previous == element && element.previous == null
    ensures IsChain(page, [page, element])
    ensures page.GetFullPath([page, element]) == Some("container" + "." + "PageWithModal")
  {
    page := new Node(Page("PageWithModal"));
    element := new Node(Selene(ContainerLocator));
    element := element.As("container");
    page := page.SetPrevious(element);
    FullPathStep(element, [element]);
    FullPathStep(page, [page, element]);
  }
}
