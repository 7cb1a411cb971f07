/**
 * `netlist`: the tree builder driven by the parser's begin, text and end
 * events, the flat lists of `comp`, `libpart`, `net` and `library` elements it
 * keeps as it goes, the linker run at the end of the document, and the
 * queries a BOM script asks of the result.
 */
module KicadNetlist {
  import opened Wrappers
  import opened XmlTree
  import opened Text
  import opened Views
  import opened XmlArena
  import LibParts
  import opened Comps
  import opened Grouping
  import ComponentGroups
  import Sorting
  import opened Exclusion

  /** The failure of a netlist accessor called before any `design` element was read (Python's AttributeError on None). */
  datatype VersionError = NoDesign

  // ---------------------------------------------------------------------
  // The element lists.

  /** The handles of the elements named `name`, in document order. */
  function Named(elems: seq<Elem>, name: string): seq<nat>
    decreases |elems|
  {
    if elems == [] then []
    else Named(elems[..|elems| - 1], name) + (if elems[|elems| - 1].name == name then [|elems| - 1] else [])
  }

  /** `Named` lists every element of that name, nothing else, in document order. */
  lemma {:induction false} NamedExactly(elems: seq<Elem>, name: string)
    ensures forall k :: 0 <= k < |Named(elems, name)| ==>
              Named(elems, name)[k] < |elems| && elems[Named(elems, name)[k]].name == name
    ensures forall i :: 0 <= i < |elems| && elems[i].name == name ==> i in Named(elems, name)
    ensures forall k, l :: 0 <= k < l < |Named(elems, name)| ==> Named(elems, name)[k] < Named(elems, name)[l]
    decreases |elems|
  {
    if elems != [] {
      var n := |elems| - 1;
      NamedExactly(elems[..n], name);
      assert forall i :: 0 <= i < n ==> elems[..n][i] == elems[i];
      var r := Named(elems, name);
      assert r == Named(elems[..n], name) + (if elems[n].name == name then [n] else []);
      forall i | 0 <= i < |elems| && elems[i].name == name ensures i in r {
        if i < n {
          assert elems[..n][i].name == name;
        } else {
          assert r[|r| - 1] == i;
        }
      }
    }
  }

  lemma NamedAppend(elems: seq<Elem>, x: Elem, name: string)
    ensures Named(elems + [x], name) == Named(elems, name) + (if x.name == name then [|elems|] else [])
  {
    assert (elems + [x])[..|elems|] == elems;
  }

  /** Only names matter: changing attributes, text or children keeps every list. */
  lemma {:induction false} NamedSameNames(a: seq<Elem>, b: seq<Elem>, name: string)
    requires |a| == |b| && forall i :: 0 <= i < |a| ==> a[i].name == b[i].name
    ensures Named(a, name) == Named(b, name)
    decreases |a|
  {
    if a != [] {
      NamedSameNames(a[..|a| - 1], b[..|b| - 1], name);
    }
  }

  /** The lists a netlist keeps: every element of each kind, in document order, and the last `design`. */
  ghost predicate Lists(elems: seq<Elem>, components: seq<nat>, libparts: seq<nat>, nets: seq<nat>, libraries: seq<nat>, design: Option<nat>) {
    && components == Named(elems, "comp")
    && libparts == Named(elems, "libpart")
    && nets == Named(elems, "net")
    && libraries == Named(elems, "library")
    && design == Last(Named(elems, "design"))
  }

  /**
   * The cursor points into the arena, the lists hold exactly the elements of
   * their kind, and every binding points into the list of parts.
   */
  ghost predicate State(elems: seq<Elem>, curr: Option<nat>, components: seq<nat>, bound: seq<Option<nat>>,
                        libparts: seq<nat>, nets: seq<nat>, libraries: seq<nat>, design: Option<nat>) {
    && (curr.Some? ==> curr.value < |elems|)
    && Lists(elems, components, libparts, nets, libraries, design)
    && Handles(elems, components) && Handles(elems, libparts) && (design.Some? ==> design.value < |elems|)
    && |bound| == |components|
    && forall k :: 0 <= k < |bound| && bound[k].Some? ==> bound[k].value < |libparts|
  }

  /** Two arenas whose elements have the same names, in the same order. */
  predicate SameNames(a: seq<Elem>, b: seq<Elem>) {
    |a| == |b| && forall i :: 0 <= i < |a| ==> a[i].name == b[i].name
  }

  /** Only names matter: changing attributes, text or children keeps every list. */
  lemma StateSameNames(a: seq<Elem>, b: seq<Elem>, curr: Option<nat>, components: seq<nat>, bound: seq<Option<nat>>,
                       libparts: seq<nat>, nets: seq<nat>, libraries: seq<nat>, design: Option<nat>)
    requires SameNames(a, b) && State(a, curr, components, bound, libparts, nets, libraries, design)
    ensures State(b, curr, components, bound, libparts, nets, libraries, design)
  {
    NamedSameNames(a, b, "comp");
    NamedSameNames(a, b, "libpart");
    NamedSameNames(a, b, "net");
    NamedSameNames(a, b, "library");
    NamedSameNames(a, b, "design");
  }

  /** A new last element `e` joins the list of its kind and no other. */
  lemma ListsExtended(elems: seq<Elem>, e: nat, components: seq<nat>, libparts: seq<nat>, nets: seq<nat>,
                      libraries: seq<nat>, design: Option<nat>)
    requires |elems| == e + 1 && Lists(elems[..e], components, libparts, nets, libraries, design)
    ensures var name := elems[e].name;
            Lists(elems, components + (if name == "comp" then [e] else []),
                  libparts + (if name == "libpart" then [e] else []),
                  nets + (if name == "net" then [e] else []),
                  libraries + (if name == "library" then [e] else []),
                  if name == "design" then Some(e) else design)
  {
    assert elems == elems[..e] + [elems[e]];
    NamedAppend(elems[..e], elems[e], "comp");
    NamedAppend(elems[..e], elems[e], "libpart");
    NamedAppend(elems[..e], elems[e], "net");
    NamedAppend(elems[..e], elems[e], "library");
    NamedAppend(elems[..e], elems[e], "design");
  }

  /**
   * A new last element `e` joins the list of its kind and no other, and
   * becomes the open one.
   */
  lemma StateExtended(elems: seq<Elem>, e: nat, curr: Option<nat>, components: seq<nat>, bound: seq<Option<nat>>,
                      libparts: seq<nat>, nets: seq<nat>, libraries: seq<nat>, design: Option<nat>,
                      components': seq<nat>, bound': seq<Option<nat>>,
                      libparts': seq<nat>, nets': seq<nat>, libraries': seq<nat>, design': Option<nat>)
    requires |elems| == e + 1
    requires State(elems[..e], curr, components, bound, libparts, nets, libraries, design)
    requires var name := elems[e].name;
             && components' == components + (if name == "comp" then [e] else [])
             && bound' == bound + (if name == "comp" then [None] else [])
             && libparts' == libparts + (if name == "libpart" then [e] else [])
             && nets' == nets + (if name == "net" then [e] else [])
             && libraries' == libraries + (if name == "library" then [e] else [])
             && design' == if name == "design" then Some(e) else design
    ensures State(elems, Some(e), components', bound', libparts', nets', libraries', design')
  {
    ListsExtended(elems, e, components, libparts, nets, libraries, design);
  }

  /** Every handle points into the arena. */
  predicate Handles(elems: seq<Elem>, hs: seq<nat>) {
    forall k :: 0 <= k < |hs| ==> hs[k] < |elems|
  }

  function Last(hs: seq<nat>): Option<nat> {
    if hs == [] then None else Some(hs[|hs| - 1])
  }

  // ---------------------------------------------------------------------
  // Views over the document.

  /** `comp(element)` as first created, before the linker binds a library part. */
  function UnboundComp(doc: Document, h: nat): (c: Comp)
    reads doc
    requires doc.Valid() && h < |doc.elems| && Attributed(doc.elems)
    ensures c.element == doc.ToNode(h) && c.libpart.None?
  {
    doc.WellFormedSubtree(h);
    CompView(doc.ToNode(h), None)
  }

  /** `libpart(element)` */
  function PartView(doc: Document, h: nat): (p: LibParts.LibPart)
    reads doc
    requires doc.Valid() && h < |doc.elems| && Attributed(doc.elems)
    ensures p.element == doc.ToNode(h)
  {
    doc.WellFormedSubtree(h);
    LibParts.LibPartView(doc.ToNode(h))
  }

  function PartViews(doc: Document, hs: seq<nat>): (r: seq<LibParts.LibPart>)
    reads doc
    requires doc.Valid() && Attributed(doc.elems) && Handles(doc.elems, hs)
    ensures |r| == |hs| && forall k :: 0 <= k < |hs| ==> r[k] == PartView(doc, hs[k])
  {
    seq(|hs|, k reads doc requires 0 <= k < |hs| && doc.Valid() && Attributed(doc.elems) && hs[k] < |doc.elems| =>
                PartView(doc, hs[k]))
  }

  // ---------------------------------------------------------------------
  // The linker.

  /**
   * A library part a component may be bound to: the same library name, and
   * either the same part name or an alias list naming the component's part.
   */
  predicate Linkable(c: Comp, p: LibParts.LibPart) {
    && LibParts.LibName(p) == LibName(c)
    && (|| LibParts.PartName(p) == PartName(c)
        || (LibParts.Aliases(p).Some? && PartName(c) in LibParts.Aliases(p).value))
  }

  /** The index of the first part `c` may be bound to, if any. */
  function FirstLinkable(c: Comp, parts: seq<LibParts.LibPart>): (r: Option<nat>)
    ensures r.None? <==> forall j :: 0 <= j < |parts| ==> !Linkable(c, parts[j])
    ensures r.Some? ==> r.value < |parts| && Linkable(c, parts[r.value])
    ensures r.Some? ==> forall j :: 0 <= j < r.value ==> !Linkable(c, parts[j])
    decreases |parts|
  {
    if parts == [] then None
    else if Linkable(c, parts[0]) then Some(0)
    else
      var rest := FirstLinkable(c, parts[1..]);
      assert forall j :: 1 <= j < |parts| ==> parts[j] == parts[1..][j - 1];
      if rest.None? then None else Some(rest.value + 1)
  }

  /** A linkable part with no linkable part before it is the first one. */
  lemma FirstLinkableAt(c: Comp, parts: seq<LibParts.LibPart>, j: nat)
    requires j < |parts| && Linkable(c, parts[j])
    requires forall i :: 0 <= i < j ==> !Linkable(c, parts[i])
    ensures FirstLinkable(c, parts) == Some(j)
  {
  }

  /** The bound library part of a component, once linked. */
  function BoundComp(doc: Document, h: nat, parts: seq<nat>, link: Option<nat>): (c: Comp)
    reads doc
    requires doc.Valid() && h < |doc.elems| && Attributed(doc.elems)
    requires Handles(doc.elems, parts) && (link.Some? ==> link.value < |parts|)
    ensures c.element == doc.ToNode(h)
    ensures link.None? ==> c.libpart.None?
    ensures link.Some? ==> c.libpart == Some(PartView(doc, parts[link.value]))
  {
    doc.WellFormedSubtree(h);
    CompView(doc.ToNode(h), if link.Some? then Some(PartView(doc, parts[link.value])) else None)
  }

  /** The part the linker binds the component at handle `h` to. */
  function LinkOf(doc: Document, parts: seq<nat>, h: nat): (r: Option<nat>)
    reads doc
    requires doc.Valid() && Attributed(doc.elems) && h < |doc.elems| && Handles(doc.elems, parts)
    ensures r.Some? ==> r.value < |parts|
  {
    FirstLinkable(UnboundComp(doc, h), PartViews(doc, parts))
  }

  /** The first `k` components are bound as the linker binds them. */
  ghost predicate LinkedUpTo(doc: Document, parts: seq<nat>, components: seq<nat>, bound: seq<Option<nat>>, k: nat)
    reads doc
    requires doc.Valid() && Attributed(doc.elems) && Handles(doc.elems, parts) && Handles(doc.elems, components)
  {
    && k <= |components| <= |bound|
    && forall t :: 0 <= t < k ==> bound[t] == LinkOf(doc, parts, components[t])
  }

  /** The search of `endDocument` for one component: the first part it may be bound to. */
  method FindPart(doc: Document, parts: seq<nat>, c: Comp) returns (r: Option<nat>)
    requires doc.Valid() && Attributed(doc.elems) && Handles(doc.elems, parts)
    ensures r == FirstLinkable(c, PartViews(doc, parts))
  {
    ghost var views := PartViews(doc, parts);
    var j := 0;
    while j < |parts|
      invariant j <= |parts|
      invariant forall i :: 0 <= i < j ==> !Linkable(c, views[i])
    {
      var p := PartView(doc, parts[j]);
      var ok := Qualifies(c, p);
      if ok {
        FirstLinkableAt(c, views, j);
        return Some(j);
      }
      j := j + 1;
    }
    return None;
  }

  /**
   * The test `endDocument` makes of one part: the same library name, then
   * the same part name, then (for a part with aliases) an alias match.
   */
  method Qualifies(c: Comp, p: LibParts.LibPart) returns (r: bool)
    ensures r == Linkable(c, p)
  {
    if LibParts.LibName(p) != LibName(c) {
      return false;
    }
    if LibParts.PartName(p) == PartName(c) {
      return true;
    }
    var aliases := LibParts.Aliases(p);
    if aliases.Some? && aliases.value != [] {
      r := AliasMatch(PartName(c), aliases.value);
    } else {
      r := false;
    }
  }

  /** `aliasMatch(partName, aliasList)` */
  method AliasMatch(partName: string, aliasList: seq<string>) returns (r: bool)
    ensures r <==> partName in aliasList
  {
    for k := 0 to |aliasList|
      invariant partName !in aliasList[..k]
    {
      if partName == aliasList[k] {
        return true;
      }
    }
    return false;
  }

  // ---------------------------------------------------------------------
  // Columns looked up over a group (the netlist methods that never touch the netlist).

  /**
   * `getGroupField(group, field)`: the first non-empty own field of a member,
   * else the first member's library part's field (which must then be bound).
   */
  method GetGroupField(group: seq<Comp>, field: string) returns (r: string)
    requires (forall k :: 0 <= k < |group| ==> OwnField(group[k], field) == "") ==> group != [] && Linked(group[0])
    ensures forall k :: 0 <= k < |group| && OwnField(group[k], field) != "" ==>
              exists j :: 0 <= j <= k && r == OwnField(group[j], field) != ""
                          && forall i :: 0 <= i < j ==> OwnField(group[i], field) == ""
    ensures (forall k :: 0 <= k < |group| ==> OwnField(group[k], field) == "") ==>
              r == LibParts.Field(group[0].libpart.value, field)
  {
    for k := 0 to |group|
      invariant forall i :: 0 <= i < k ==> OwnField(group[i], field) == ""
    {
      r := OwnField(group[k], field);
      if r != "" {
        return;
      }
    }
    r := LibParts.Field(group[0].libpart.value, field);
  }

  /** Every member `getGroupFootprint` reaches (up to the first with a footprint) can say what its footprint is. */
  predicate FootprintsDefined(group: seq<Comp>) {
    forall k :: 0 <= k < |group| && (forall i :: 0 <= i < k ==> FootprintDefined(group[i]) && Footprint(group[i]) == "") ==>
      FootprintDefined(group[k])
  }

  /**
   * `getGroupFootprint(group)`: the first non-empty footprint of a member,
   * and "" when every member's footprint is empty. The fallback on the first
   * member's library part adds nothing: it is that member's own answer,
   * already found empty.
   */
  method GetGroupFootprint(group: seq<Comp>) returns (r: string)
    requires group != [] && FootprintsDefined(group)
    ensures forall k :: 0 <= k < |group| && (forall i :: 0 <= i < k ==> FootprintDefined(group[i]) && Footprint(group[i]) == "") ==>
              (Footprint(group[k]) != "" ==> r == Footprint(group[k]))
    ensures r == "" ==> forall k :: 0 <= k < |group| ==> FootprintDefined(group[k]) && Footprint(group[k]) == ""
    ensures (forall k :: 0 <= k < |group| ==> FootprintDefined(group[k]) && Footprint(group[k]) == "") ==> r == ""
  {
    for k := 0 to |group|
      invariant forall i :: 0 <= i < k ==> FootprintDefined(group[i]) && Footprint(group[i]) == ""
    {
      r := Footprint(group[k]);
      if r != "" {
        return;
      }
    }
    r := LibParts.Footprint(group[0].libpart.value);
  }

  /** Every member `getGroupDatasheet` reaches (up to the first with a datasheet) is bound. */
  predicate DatasheetsDefined(group: seq<Comp>) {
    forall k :: 0 <= k < |group| && (forall i :: 0 <= i < k ==> Linked(group[i]) && Datasheet(group[i]) == "") ==>
      Linked(group[k])
  }

  /**
   * `getGroupDatasheet(group)`: the first non-empty datasheet of a member,
   * and "" when every member's datasheet is empty; an empty group gives ""
   * instead of failing, and the fallback on the first member adds nothing.
   */
  method GetGroupDatasheet(group: seq<Comp>) returns (r: string)
    requires DatasheetsDefined(group)
    ensures forall k :: 0 <= k < |group| && (forall i :: 0 <= i < k ==> Linked(group[i]) && Datasheet(group[i]) == "") ==>
              (Datasheet(group[k]) != "" ==> r == Datasheet(group[k]))
    ensures r == "" ==> forall k :: 0 <= k < |group| ==> Linked(group[k]) && Datasheet(group[k]) == ""
    ensures (forall k :: 0 <= k < |group| ==> Linked(group[k]) && Datasheet(group[k]) == "") ==> r == ""
  {
    for k := 0 to |group|
      invariant forall i :: 0 <= i < k ==> Linked(group[i]) && Datasheet(group[i]) == ""
    {
      r := Datasheet(group[k]);
      if r != "" {
        return;
      }
    }
    if |group| > 0 {
      r := LibParts.Datasheet(group[0].libpart.value);
    } else {
      r := "";
    }
  }

  class Netlist {
    /** The elements of the tree, `tree` and everything below it. */
    const doc: Document
    /** `_curr_element`: the innermost element still open. */
    var curr: Option<nat>
    var design: Option<nat>
    var components: seq<nat>
    /** For each component, the index in `libparts` of the part it is bound to (`comp.libpart`). */
    var bound: seq<Option<nat>>
    var libparts: seq<nat>
    var nets: seq<nat>
    var libraries: seq<nat>

    /**
     * The lists hold exactly the elements of their kind, in document order;
     * `design` is the last `design` element; the cursor and the bindings
     * point into the document.
     */
    ghost predicate Valid()
      reads this, doc
    {
      && doc.Valid()
      && State(doc.elems, curr, components, bound, libparts, nets, libraries, design)
    }

    /** `netlist()`: empty. */
    constructor ()
      ensures Valid() && fresh(doc)
      ensures doc.elems == [] && curr == None && design == None
      ensures components == [] && bound == [] && libparts == [] && nets == [] && libraries == []
    {
      doc := new Document();
      curr := None;
      design := None;
      components := [];
      bound := [];
      libparts := [];
      nets := [];
      libraries := [];
    }

    /**
     * `addElement(name)`: a new root when no element is open, otherwise a new
     * last child of the open one; either way the new element becomes the open
     * one and joins the list of its kind.
     */
    method AddElement(name: string) returns (e: nat)
      requires Valid()
      modifies this, doc
      ensures Valid()
      ensures e == |old(doc.elems)| && curr == Some(e)
      ensures doc.elems == Opened(old(doc.elems), old(curr), name)
      ensures components == old(components) + (if name == "comp" then [e] else [])
      ensures bound == old(bound) + (if name == "comp" then [None] else [])
      ensures libparts == old(libparts) + (if name == "libpart" then [e] else [])
      ensures nets == old(nets) + (if name == "net" then [e] else [])
      ensures libraries == old(libraries) + (if name == "library" then [e] else [])
      ensures design == if name == "design" then Some(e) else old(design)
    {
      ghost var before := doc.elems;
      if curr.None? {
        e := doc.NewRoot(name);
      } else {
        e := doc.AddChild(curr.value, name);
      }
      StateSameNames(before, doc.elems[..e], curr, components, bound, libparts, nets, libraries, design);
      Register(e, name);
      assert Valid();
    }

    /**
     * The parser's `startElement(name, attrs)`: `addElement(name)`, then
     * `addAttribute` for each attribute in the order the parser gives them.
     */
    method StartElement(name: string, attrs: seq<(string, string)>) returns (e: nat)
      requires Valid()
      modifies this, doc
      ensures Valid()
      ensures e == |old(doc.elems)| && curr == Some(e)
      ensures var created := Opened(old(doc.elems), old(curr), name);
              doc.elems == created[e := created[e].(attributes := Assigned(map[], attrs))]
      ensures components == old(components) + (if name == "comp" then [e] else [])
      ensures bound == old(bound) + (if name == "comp" then [None] else [])
      ensures libparts == old(libparts) + (if name == "libpart" then [e] else [])
      ensures nets == old(nets) + (if name == "net" then [e] else [])
      ensures libraries == old(libraries) + (if name == "library" then [e] else [])
      ensures design == if name == "design" then Some(e) else old(design)
    {
      e := AddElement(name);
      ghost var before := doc.elems;
      doc.AddAttributes(e, attrs);
      StateSameNames(before, doc.elems, curr, components, bound, libparts, nets, libraries, design);
    }

    /** The bookkeeping half of `addElement`: the new element `e` joins its list and becomes the open one. */
    method Register(e: nat, name: string)
      requires doc.Valid() && |doc.elems| == e + 1 && doc.elems[e].name == name
      requires State(doc.elems[..e], curr, components, bound, libparts, nets, libraries, design)
      modifies this
      ensures State(doc.elems, curr, components, bound, libparts, nets, libraries, design) && curr == Some(e)
      ensures components == old(components) + (if name == "comp" then [e] else [])
      ensures bound == old(bound) + (if name == "comp" then [None] else [])
      ensures libparts == old(libparts) + (if name == "libpart" then [e] else [])
      ensures nets == old(nets) + (if name == "net" then [e] else [])
      ensures libraries == old(libraries) + (if name == "library" then [e] else [])
      ensures design == if name == "design" then Some(e) else old(design)
    {
      var components' := components + (if name == "comp" then [e] else []);
      var bound' := bound + (if name == "comp" then [None] else []);
      var libparts' := libparts + (if name == "libpart" then [e] else []);
      var nets' := nets + (if name == "net" then [e] else []);
      var libraries' := libraries + (if name == "library" then [e] else []);
      var design' := if name == "design" then Some(e) else design;
      StateExtended(doc.elems, e, curr, components, bound, libparts, nets, libraries, design,
                    components', bound', libparts', nets', libraries', design');
      curr, components, bound, libparts, nets, libraries, design :=
        Some(e), components', bound', libparts', nets', libraries', design';
    }

    /** `endElement()`: the parent of the open element becomes the open one (none above a root). */
    method EndElement()
      requires Valid() && curr.Some?
      modifies this
      ensures Valid()
      ensures curr == doc.elems[old(curr).value].parent
      ensures design == old(design) && components == old(components) && bound == old(bound)
      ensures libparts == old(libparts) && nets == old(nets) && libraries == old(libraries)
    {
      curr := doc.GetParent(curr.value);
    }

    /** `addChars(content)`: the text goes to the end of the open element's text. */
    method AddChars(content: string)
      requires Valid() && curr.Some?
      modifies doc
      ensures Valid()
      ensures doc.elems == old(doc.elems)[curr.value := old(doc.elems)[curr.value].(chars := old(doc.elems)[curr.value].chars + content)]
    {
      ghost var before := doc.elems;
      doc.AddChars(curr.value, content);
      StateSameNames(before, doc.elems, curr, components, bound, libparts, nets, libraries, design);
    }

    /**
     * The parser's `characters(content)`: a chunk made only of whitespace is
     * dropped (an empty chunk is not whitespace and is appended, which
     * changes nothing).
     */
    method Characters(content: string)
      requires Valid() && (!IsSpace(content) ==> curr.Some?)
      modifies doc
      ensures Valid()
      ensures IsSpace(content) ==> doc.elems == old(doc.elems)
      ensures !IsSpace(content) ==>
                doc.elems == old(doc.elems)[curr.value := old(doc.elems)[curr.value].(chars := old(doc.elems)[curr.value].chars + content)]
    {
      if !IsSpace(content) {
        AddChars(content);
      }
    }

    /**
     * `endDocument()`: every component is bound to the first library part,
     * in document order, with its library name and its part name or an alias
     * of it; a component no part qualifies for stays unbound.
     */
    method EndDocument()
      requires Valid() && Attributed(doc.elems)
      modifies this
      ensures Valid()
      ensures curr == old(curr) && design == old(design) && components == old(components)
      ensures libparts == old(libparts) && nets == old(nets) && libraries == old(libraries)
      ensures forall k :: 0 <= k < |components| ==> bound[k] == LinkOf(doc, libparts, components[k])
    {
      for k := 0 to |components|
        invariant Valid()
        invariant curr == old(curr) && design == old(design) && components == old(components)
        invariant libparts == old(libparts) && nets == old(nets) && libraries == old(libraries)
        invariant LinkedUpTo(doc, libparts, components, bound, k)
      {
        BindAt(k);
      }
    }

    /** One step of `endDocument`: component `k` is bound, the earlier ones stay bound. */
    method BindAt(k: nat)
      requires Valid() && Attributed(doc.elems) && k < |components|
      requires LinkedUpTo(doc, libparts, components, bound, k)
      modifies this
      ensures Valid() && LinkedUpTo(doc, libparts, components, bound, k + 1)
      ensures curr == old(curr) && design == old(design) && components == old(components)
      ensures libparts == old(libparts) && nets == old(nets) && libraries == old(libraries)
    {
      var found := FindPart(doc, libparts, UnboundComp(doc, components[k]));
      bound := bound[k := found];
    }

    /** Every component with the library part it is bound to. */
    function Components(): (r: seq<Comp>)
      reads this, doc
      requires Valid() && Attributed(doc.elems)
      ensures |r| == |components|
      ensures forall k :: 0 <= k < |r| ==> r[k] == BoundComp(doc, components[k], libparts, bound[k])
    {
      seq(|components|, k reads this, doc requires 0 <= k < |components| && Valid() && Attributed(doc.elems) =>
                          BoundComp(doc, components[k], libparts, bound[k]))
    }

    /**
     * `getVersion()`: the `rev` of the design's first `sheet`, or "" when it
     * has none. Before any `design` element has been read, `self.design` is
     * None and `getSheet` fails with AttributeError: that is `NoDesign`.
     */
    function GetVersion(): (r: Result<string, VersionError>)
      reads this, doc
      requires Valid()
      ensures r.Err? <==> design.None?
      ensures design.Some? && GetChild(doc.ToNode(design.value), "sheet").None? ==> r == Ok("")
      ensures design.Some? && GetChild(doc.ToNode(design.value), "sheet").Some? ==>
                r.Ok? && Get(GetChild(doc.ToNode(design.value), "sheet").value, "rev", "", "") == Ok(r.value)
    {
      if design.None? then Err(NoDesign)
      else
        match GetChild(doc.ToNode(design.value), "sheet")
        case None => Ok("")
        case Some(sheet) => Ok(Lookup(sheet, "rev", "", ""))
    }

    /**
     * `gatherComponentFieldUnion(components)`: every field name of the given
     * components (all of them when none are given) that no `excluded_fields`
     * pattern matches.
     */
    method GatherComponentFieldUnion(components: seq<Comp>, excludedFields: seq<Pattern>) returns (r: set<string>)
      requires Valid() && Attributed(doc.elems)
      ensures var cs := if components == [] then Components() else components;
              forall f :: f in r <==> (exists k :: 0 <= k < |cs| && f in Comps.FieldNames(cs[k])) && !AnyMatches(excludedFields, f)
    {
      var cs := if components == [] then Components() else components;
      var names := Sorting.Map(cs, Comps.FieldNames);
      var s := Union(names);
      r := WithoutExcluded(s, excludedFields);
    }

    /** `gatherLibPartFieldUnion()`: every field name of every library part that no `excluded_fields` pattern matches. */
    method GatherLibPartFieldUnion(excludedFields: seq<Pattern>) returns (r: set<string>)
      requires Valid() && Attributed(doc.elems)
      ensures var ps := PartViews(doc, libparts);
              forall f :: f in r <==> (exists k :: 0 <= k < |ps| && f in LibParts.FieldNames(ps[k])) && !AnyMatches(excludedFields, f)
    {
      var ps := PartViews(doc, libparts);
      var names := Sorting.Map(ps, LibParts.FieldNames);
      var s := Union(names);
      r := WithoutExcluded(s, excludedFields);
    }

    /**
     * `getInterestingComponents()`: the components that pass the blacklists,
     * sorted by plain string order of their references.
     */
    method GetInterestingComponents(ex: Exclusions) returns (r: seq<Comp>)
      requires Valid() && Attributed(doc.elems)
      requires forall k :: 0 <= k < |components| ==> Evaluable(Components()[k], ex)
      ensures r == Sorting.SortByKey(Kept(Components(), ex), Ref, StringLt)
    {
      var kept := Keep(Components(), ex);
      r := Sorting.SortByKey(kept, Ref, StringLt);
    }

    /**
     * `groupComponents(components)`: the BOM lines built from the given
     * components, or from all of them when none are given.
     */
    method GroupComponents(components: seq<Comp>, config: CsvConfig, compareValues: (string, string) -> bool)
      returns (groups: seq<ComponentGroups.ComponentGroup>)
      requires Valid() && Attributed(doc.elems)
      requires AllLinked(if components == [] then Components() else components)
      ensures var cs := if components == [] then Components() else components;
              && |groups| == |Grouped(cs, compareValues)|
              && forall m :: 0 <= m < |groups| ==>
                   fresh(groups[m]) && ComponentGroups.Built(groups[m], config) && groups[m].components == Grouped(cs, compareValues)[m]
    {
      var cs := components;
      if components == [] {
        cs := Components();
      }
      groups := ComponentGroups.GroupComponents(cs, config, compareValues);
    }
  }
}
