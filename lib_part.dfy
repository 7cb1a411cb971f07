/**
 * `libpart`: a read-only view over a `libpart` element of the netlist, the
 * library definition a component is instantiated from.
 */
module LibParts {
  import opened Wrappers
  import opened XmlTree
  import opened Text
  import opened Views

  datatype LibPartView = LibPartView(element: Node)

  /** A view whose element carries every attribute the accessors read. */
  type LibPart = p: LibPartView | WellFormed(p.element)
    witness LibPartView(Node("libpart", map["lib" := "", "part" := ""], "", []))

  /** `getLibName()` */
  function LibName(p: LibPart): (r: string)
    ensures Get(p.element, "libpart", "lib", "") == Ok(r)
  {
    Lookup(p.element, "libpart", "lib", "")
  }

  /** `getPartName()` */
  function PartName(p: LibPart): (r: string)
    ensures Get(p.element, "libpart", "part", "") == Ok(r)
  {
    Lookup(p.element, "libpart", "part", "")
  }

  /** `getDescription()`: the text of the first `description` element. */
  function Description(p: LibPart): (r: string)
    ensures Get(p.element, "description", "", "") == Ok(r)
  {
    Lookup(p.element, "description", "", "")
  }

  /** `getDocs()` */
  function Docs(p: LibPart): (r: string)
    ensures Get(p.element, "docs", "", "") == Ok(r)
  {
    Lookup(p.element, "docs", "", "")
  }

  /** `getField(name)`: the text of the first `field` element whose `name` is `name`. */
  function Field(p: LibPart, name: string): (r: string)
    ensures Get(p.element, "field", "name", name) == Ok(r)
  {
    Lookup(p.element, "field", "name", name)
  }

  /** `getFieldNames()` */
  function FieldNames(p: LibPart): (r: seq<string>)
    ensures GetChild(p.element, "fields").None? ==> r == []
    ensures GetChild(p.element, "fields").Some? ==>
              var fs := GetChild(p.element, "fields").value.children;
              |r| == |fs| && forall k :: 0 <= k < |fs| ==> Get(fs[k], "field", "name", "") == Ok(r[k])
  {
    FieldNamesOf(p.element)
  }

  /**
   * `getDatasheet()`: the Datasheet field; when that is empty, the docs
   * instead, provided they mention "http" or ".pdf" anywhere.
   */
  function Datasheet(p: LibPart): (r: string)
    ensures Field(p, "Datasheet") != "" ==> r == Field(p, "Datasheet")
    ensures Field(p, "Datasheet") == "" ==>
              (r == Docs(p) && (Contains(r, "http") || Contains(r, ".pdf")))
              || (r == "" && !Contains(Docs(p), "http") && !Contains(Docs(p), ".pdf"))
  {
    var datasheet := Field(p, "Datasheet");
    if datasheet == "" then
      var docs := Docs(p);
      if Contains(docs, "http") || Contains(docs, ".pdf") then docs else datasheet
    else datasheet
  }

  /** `getFootprint()`: the Footprint field. */
  function Footprint(p: LibPart): (r: string)
    ensures Get(p.element, "field", "name", "Footprint") == Ok(r)
  {
    Field(p, "Footprint")
  }

  function AliasTexts(cs: seq<Node>): (r: seq<string>)
    ensures |r| == |cs|
    ensures forall k :: 0 <= k < |cs| ==> Get(cs[k], "alias", "", "") == Ok(r[k])
    decreases |cs|
  {
    if cs == [] then [] else [Lookup(cs[0], "alias", "", "")] + AliasTexts(cs[1..])
  }

  /**
   * `getAliases()`: None without an `aliases` child, otherwise the text each
   * of its children holds for `alias`, in order.
   */
  function Aliases(p: LibPart): (r: Option<seq<string>>)
    ensures r.None? <==> GetChild(p.element, "aliases").None?
    ensures r.Some? ==>
              var cs := GetChild(p.element, "aliases").value.children;
              |r.value| == |cs| && forall k :: 0 <= k < |cs| ==> Get(cs[k], "alias", "", "") == Ok(r.value[k])
  {
    match GetChild(p.element, "aliases")
    case None => None
    case Some(a) => Some(AliasTexts(a.children))
  }
}
