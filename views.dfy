/**
 * What the `libpart` and `comp` views share: the attributes a netlist carries
 * wherever the accessors read them, a lookup that cannot fail on such a tree,
 * and the field-name listing both classes implement the same way.
 */
module Views {
  import opened Wrappers
  import opened XmlTree

  /**
   * Every `comp` has a `ref`, every `libsource` and `libpart` a `lib` and a
   * `part`, every `field` a `name`: the attributes the accessors look up with
   * `get`, which would otherwise raise.
   */
  predicate WellFormed(n: Node) {
    && HasAttributeEverywhere(n, "comp", "ref")
    && HasAttributeEverywhere(n, "libsource", "lib")
    && HasAttributeEverywhere(n, "libsource", "part")
    && HasAttributeEverywhere(n, "libpart", "lib")
    && HasAttributeEverywhere(n, "libpart", "part")
    && HasAttributeEverywhere(n, "field", "name")
  }

  /** `get` where it is known not to raise: its answer. */
  function Lookup(n: Node, elemName: string, attribute: string, attrmatch: string): (r: string)
    requires attribute == "" || HasAttributeEverywhere(n, elemName, attribute)
    ensures Get(n, elemName, attribute, attrmatch) == Ok(r)
  {
    GetSucceeds(n, elemName, attribute, attrmatch);
    Get(n, elemName, attribute, attrmatch).value
  }

  lemma ChildHasAttribute(n: Node, c: Node, elemName: string, attribute: string)
    requires HasAttributeEverywhere(n, elemName, attribute)
    requires c in n.children
    ensures EveryChildHas(c.children, elemName, attribute)
  {
    var i :| 0 <= i < |n.children| && n.children[i] == c;
    EveryChildHasAt(n.children, elemName, attribute, i);
  }

  /** `[f.get('field', 'name') for f in fields]` */
  function FieldNames(cs: seq<Node>): (r: seq<string>)
    requires EveryChildHas(cs, "field", "name")
    ensures |r| == |cs|
    ensures forall k :: 0 <= k < |cs| ==> Get(cs[k], "field", "name", "") == Ok(r[k])
    decreases |cs|
  {
    if cs == [] then [] else [Lookup(cs[0], "field", "name", "")] + FieldNames(cs[1..])
  }

  /**
   * `getFieldNames()` of both views: one name per child of the first `fields`
   * child, in order; no `fields` child, no names.
   */
  function FieldNamesOf(n: Node): (r: seq<string>)
    requires HasAttributeEverywhere(n, "field", "name")
    ensures GetChild(n, "fields").None? ==> r == []
    ensures GetChild(n, "fields").Some? ==>
              var fs := GetChild(n, "fields").value.children;
              |r| == |fs| && forall k :: 0 <= k < |fs| ==> Get(fs[k], "field", "name", "") == Ok(r[k])
  {
    match GetChild(n, "fields")
    case None => []
    case Some(fs) =>
      ChildHasAttribute(n, fs, "field", "name");
      FieldNames(fs.children)
  }
}
