/** The naming chain (web_test/assist/allure/chainable_naming.py, and the
    patches of tests/conftest.py that give Selene's elements the same
    capability): every page object and every Selene element carries a
    description and a back-link to the object that holds it, and its full
    path is the dotted list of names from the root of those back-links,
    such as `PageWithModal.modal.section`. */
module Naming {
  import opened Wrappers
  import opened Strings
  import Locators

  /** The kind of object a chain node is; it decides the node's own name. */
  datatype Kind =
    | Component(className: string)  // a BaseElement (Modal, Row, Table, ...)
    | Page(className: string)       // a BasePage (PageWithModal, PageWithTables)
    | Selene(locator: string)       // a Selene Element or Collection, with its locator's description

  /** The attribute that holds the back-link. */
  const PreviousKey := "previous_name_chain_element"
  /** The attribute that holds the description. */
  const DescriptionKey := "description"

  class Node {
    const kind: Kind
    var description: string
    var previous: Node?
    /** The other attributes the object holds that are chain nodes. */
    var fields: map<string, Node>

    /** `ChainableNamingElement.__init__`, and the class-level defaults the
        patch gives every Selene element: no description, no back-link. */
    constructor (kind: Kind)
      ensures this.kind == kind
      ensures description == "" && previous == null && fields == map[]
    {
      this.kind := kind;
      description := "";
      previous := null;
      fields := map[];
    }

    /** `str(node)`: a BaseElement shows its description, or its class name
        without one; a BasePage always shows its class name; a Selene element
        shows its locator. */
    function Str(): (s: string)
      reads this
      ensures kind.Page? ==> s == kind.className
      ensures kind.Component? && description != "" ==> s == description
      ensures kind.Component? && description == "" ==> s == kind.className
      ensures !kind.Selene? && kind.className != "" ==> s != ""
    {
      match kind
      case Component(c) => if description != "" then description else c
      case Page(c) => c
      case Selene(loc) => loc
    }

    /** This node's own entry in `resolve_name`: `str(self)` for a page
        object; for a Selene element its description, or the last segment of
        its locator without one (None where `last_locator` finds no segment). */
    function Segment(): (r: Option<string>)
      reads this
      ensures !kind.Selene? ==> r == Some(Str())
      ensures kind.Selene? && description != "" ==> r == Some(description)
      ensures kind.Selene? && description == "" ==> r == Locators.LastLocator(kind.locator)
    {
      match kind
      case Selene(loc) => if description != "" then Some(description) else Locators.LastLocator(loc)
      case _ => Some(Str())
    }

    /** The patched `resolve_name` as written: it calls `last_locator` on the
        element itself, but the patch puts `last_locator` on Selene's
        `Locator` only, so for an undescribed element the call raises
        (None here). Segment is the evidently intended
        `self._locator.last_locator()`. */
    function SegmentAsWritten(): (r: Option<string>)
      reads this
      ensures !kind.Selene? ==> r == Segment()
      ensures kind.Selene? && description != "" ==> r == Segment()
      ensures kind.Selene? && description == "" ==> r.None?
    {
      match kind
      case Selene(_) => if description != "" then Some(description) else None
      case _ => Some(Str())
    }

    /** Whether assigning a chain node to attribute `key` of this object
        names and links the assigned node. Selene elements have no
        assignment hook; a page object wires every attribute except the
        back-link itself. */
    predicate Wires(key: string)
    {
      !kind.Selene? && key != PreviousKey
    }

    /** `self.<key> = value` for a chain node `value` (the `__setattr__`
        hook): a wired assignment gives an undescribed value the attribute
        name as description and links it back to this object; then the
        attribute holds the value. The back-link attribute is excluded from
        wiring for both kinds of value (see SetAttrAsWritten for the code as
        it stands). */
    method SetAttr(key: string, value: Node)
      requires key != DescriptionKey
      modifies this, value
      ensures Wires(key) ==> value.previous == this
      ensures Wires(key) ==> value.description == if old(value.description) == "" then key else old(value.description)
      ensures !Wires(key) && value != this ==> value.description == old(value.description) && value.previous == old(value.previous)
      ensures value != this ==> value.fields == old(value.fields) && description == old(description)
      ensures key == PreviousKey ==> previous == value && fields == old(fields)
      ensures key != PreviousKey ==> fields == old(fields)[key := value]
      ensures key != PreviousKey && value != this ==> previous == old(previous)
      ensures Wires(key) ==> forall c :: IsChain(this, c) ==> IsChain(value, [value] + c)
      ensures Wires(key) && key != "" && !value.kind.Page? && old(value.description) == "" ==> value.Segment() == Some(key)
      ensures Wires(key) && value.kind.Page? ==> value.Segment() == Some(value.kind.className)
    {
      if Wires(key) {
        if value.description == "" {
          value.description := key;
        }
        value.previous := this;
      }
      if key == PreviousKey {
        previous := value;
      } else {
        fields := fields[key := value];
      }
      if Wires(key) {
        forall c | IsChain(this, c)
          ensures IsChain(value, [value] + c)
        {
          LinkedNodeChain(this, value, c);
        }
      }
    }

    /** The hook as written: its Selene branch does not exclude the
        back-link attribute, so a Selene value assigned to it is linked
        back to this object. */
    predicate WiresAsWritten(key: string, value: Node)
    {
      !kind.Selene? && (value.kind.Selene? || key != PreviousKey)
    }

    /** `__setattr__` exactly as written. */
    method SetAttrAsWritten(key: string, value: Node)
      requires key != DescriptionKey
      modifies this, value
      ensures WiresAsWritten(key, value) ==> value.previous == this
      ensures WiresAsWritten(key, value) ==> value.description == if old(value.description) == "" then key else old(value.description)
      ensures !WiresAsWritten(key, value) && value != this ==> value.description == old(value.description) && value.previous == old(value.previous)
      ensures value != this ==> value.fields == old(value.fields) && description == old(description)
      ensures key == PreviousKey ==> previous == value && fields == old(fields)
      ensures key != PreviousKey ==> fields == old(fields)[key := value]
      ensures key != PreviousKey && value != this ==> previous == old(previous)
    {
      if WiresAsWritten(key, value) {
        if value.description == "" {
          value.description := key;
        }
        value.previous := this;
      }
      if key == PreviousKey {
        previous := value;
      } else {
        fields := fields[key := value];
      }
    }

    /** `as_(name)`: sets the description and returns the same object. */
    method As(name: string) returns (self: Node)
      modifies this
      ensures self == this
      ensures description == name && previous == old(previous) && fields == old(fields)
    {
      description := name;
      self := this;
    }

    /** `set_previous_name_chain_element(prev)`: sets the back-link, touches
        nothing else, and returns the same object. Linking to a node whose
        chain does not pass through this one gives this node a chain one
        longer. */
    method SetPrevious(prev: Node?) returns (self: Node)
      modifies this
      ensures self == this
      ensures previous == prev && description == old(description) && fields == old(fields)
      ensures prev == null ==> IsChain(this, [this])
      ensures forall c :: IsChain(prev, c) ==> IsChain(this, [this] + c)
    {
      previous := prev;
      self := this;
    }

    /** `set_previous_name_chain_element` as written: on a page object the
        assignment goes through the hook, and a Selene `prev` is linked back
        to this object, so the two nodes point at each other. */
    method SetPreviousAsWritten(prev: Node) returns (self: Node)
      modifies this, prev
      ensures self == this && previous == prev
      ensures !kind.Selene? && prev.kind.Selene? ==> prev.previous == this
      ensures !kind.Selene? && prev.kind.Selene? ==>
        prev.description == if old(prev.description) == "" then PreviousKey else old(prev.description)
      ensures (kind.Selene? || !prev.kind.Selene?) && prev != this ==>
        prev.description == old(prev.description) && prev.previous == old(prev.previous)
      ensures prev != this ==> prev.fields == old(prev.fields) && description == old(description) && fields == old(fields)
    {
      if kind.Selene? {
        previous := prev;
      } else {
        SetAttrAsWritten(PreviousKey, prev);
      }
      self := this;
    }

    /** `resolve_name()`: the names of the ancestors, root first, then this
        node's own; None where some node of the chain has no name. */
    function ResolveName(ghost chain: seq<Node>): (r: Option<seq<string>>)
      reads chain
      requires IsChain(this, chain)
      ensures r.Some? <==> forall i :: 0 <= i < |chain| ==> chain[i].Segment().Some?
      ensures r.Some? ==> |r.value| == |chain|
      ensures r.Some? ==> forall k :: 0 <= k < |chain| ==> r.value[|chain| - 1 - k] == chain[k].Segment().value
      decreases |chain|
    {
      if previous == null then
        match Segment()
        case None => None
        case Some(own) => Some([own])
      else
        match previous.ResolveName(chain[1..])
        case None => None
        case Some(names) =>
          match Segment()
          case None => None
          case Some(own) =>
            assert forall k :: 1 <= k < |chain| ==> chain[k] == chain[1..][k - 1];
            Some(names + [own])
    }

    /** `get_full_path()`: the names joined with dots. */
    function GetFullPath(ghost chain: seq<Node>): Option<string>
      reads chain
      requires IsChain(this, chain)
    {
      match ResolveName(chain)
      case None => None
      case Some(names) => Some(Join(".", names))
    }

    /** The `full_description` property of a Selene element: its full path
        when it has a description, otherwise its raw locator text, whatever
        its back-link. */
    function FullDescription(ghost chain: seq<Node>): (r: Option<string>)
      reads this, chain
      requires kind.Selene?
      requires description != "" ==> IsChain(this, chain)
      ensures description == "" ==> r == Some(kind.locator)
    {
      if description != "" then GetFullPath(chain) else Some(kind.locator)
    }
  }

  /** `chain` lists `n` and then the nodes reached by following the
      back-links, ending at a node with none. Such a list exists exactly
      when the back-links from `n` do not run into a cycle. */
  ghost predicate IsChain(n: Node?, chain: seq<Node>)
    reads chain
    decreases |chain|
  {
    && |chain| > 0
    && chain[0] == n
    && if n.previous == null then |chain| == 1 else IsChain(n.previous, chain[1..])
  }

  /** Every node of a chain heads the rest of it. */
  lemma {:induction false} ChainSuffix(n: Node, c: seq<Node>, i: nat)
    requires IsChain(n, c) && i < |c|
    ensures IsChain(c[i], c[i..])
    decreases i
  {
    if i > 0 {
      ChainSuffix(n.previous, c[1..], i - 1);
      assert c[1..][i - 1..] == c[i..];
    }
  }

  /** A node has at most one chain, so its names do not depend on which
      witness is supplied. */
  lemma {:induction false} ChainUnique(n: Node, c1: seq<Node>, c2: seq<Node>)
    requires IsChain(n, c1) && IsChain(n, c2)
    ensures c1 == c2
  {
    if n.previous == null {
    } else {
      assert |c1| > 1 && |c2| > 1;
      ChainUnique(n.previous, c1[1..], c2[1..]);
      assert c1 == [n] + c1[1..];
      assert c2 == [n] + c2[1..];
    }
  }

  /** No node appears twice in a chain: following back-links from a node
      never returns to it. */
  lemma ChainAcyclic(n: Node, c: seq<Node>)
    requires IsChain(n, c)
    ensures forall i, j :: 0 <= i < j < |c| ==> c[i] != c[j]
  {
    forall i, j | 0 <= i < j < |c|
      ensures c[i] != c[j]
    {
      if c[i] == c[j] {
        ChainSuffix(n, c, i);
        ChainSuffix(n, c, j);
        ChainUnique(c[i], c[i..], c[j..]);
      }
    }
  }

  /** Two nodes linked to each other have no chain: `resolve_name` on either
      recurses without end. */
  lemma {:induction false} MutualLinkHasNoChain(a: Node, b: Node, c: seq<Node>)
    requires a.previous == b && b.previous == a
    ensures !IsChain(a, c)
    decreases |c|
  {
    if IsChain(a, c) {
      assert IsChain(b, c[1..]);
      assert IsChain(a, c[1..][1..]);
      MutualLinkHasNoChain(a, b, c[1..][1..]);
    }
  }

  /** A node linked to a node that has a chain gets that chain with itself
      in front: it cannot already be in it, since then the back-links from
      it would come back to it. */
  lemma {:induction false} LinkedNodeChain(owner: Node, value: Node, c: seq<Node>)
    requires value.previous == owner && IsChain(owner, c)
    ensures value !in c
    ensures IsChain(value, [value] + c)
  {
    forall i | 0 <= i < |c|
      ensures c[i] != value
    {
      if c[i] == value {
        ChainSuffix(owner, c, i);
        assert c[i..][1..] == c[i + 1..];
        ChainUnique(owner, c, c[i + 1..]);
        assert false;
      }
    }
    assert ([value] + c)[1..] == c;
  }

  /** A parent path extended by one more name. */
  function Dotted(parent: Option<string>, own: Option<string>): Option<string>
  {
    match (parent, own)
    case (Some(p), Some(o)) => Some(p + "." + o)
    case _ => None
  }

  /** `get_full_path` is the parent's full path, a dot and the node's own
      name; without a parent it is the own name alone. */
  lemma FullPathStep(n: Node, chain: seq<Node>)
    requires IsChain(n, chain)
    ensures n.previous == null ==> n.GetFullPath(chain) == n.Segment()
    ensures n.previous != null ==> n.GetFullPath(chain) == Dotted(n.previous.GetFullPath(chain[1..]), n.Segment())
  {
    if n.previous != null {
      match n.previous.ResolveName(chain[1..])
      case None =>
      case Some(names) =>
        if n.Segment().Some? {
          JoinSnoc(".", names, n.Segment().value);
        }
    }
  }

  /** The path an assignment gives: once the hook has linked `value` to
      `owner`, the value's full path is the owner's, a dot and the value's
      own name. That name is the attribute key for an undescribed component
      or Selene element (SetAttr), and the class name for a page. */
  lemma AssignedPath(owner: Node, value: Node, c: seq<Node>)
    requires value.previous == owner && IsChain(owner, c)
    ensures IsChain(value, [value] + c)
    ensures value.GetFullPath([value] + c) == Dotted(owner.GetFullPath(c), value.Segment())
  {
    LinkedNodeChain(owner, value, c);
    FullPathStep(value, [value] + c);
    assert ([value] + c)[1..] == c;
  }

  /** An undescribed Selene element whose locator ends in a well-formed
      segment: the patch as written finds no name for it, the intended
      lookup on its locator does. */
  lemma SegmentAsWrittenFails(n: Node, a: string, p: Locators.SegmentParts)
    requires n.kind == Selene(a + Locators.Render(p)) && n.description == "" && Locators.WellFormed(p)
    ensures n.SegmentAsWritten().None?
    ensures n.Segment().Some? && n.Segment() == Locators.LastLocator(a + Locators.Render(p))
  {
    Locators.LastLocatorFindsRendered(a, p);
  }

  /** A described Selene element reports the full path of its parent, a dot
      and its description; a described element without a parent reports its
      description alone. */
  lemma DescribedElementPath(n: Node, chain: seq<Node>)
    requires n.kind.Selene? && n.description != "" && IsChain(n, chain)
    ensures n.previous == null ==> n.FullDescription(chain) == Some(n.description)
    ensures n.previous != null ==> n.FullDescription(chain) == Dotted(n.previous.GetFullPath(chain[1..]), Some(n.description))
  {
    FullPathStep(n, chain);
  }
}
