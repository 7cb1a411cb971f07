/**
 * The live, mutable form of the tree while it is being built: every element
 * (`xmlElement`) sits in one arena, children and parent are handles into it,
 * and a child's handle is always greater than its parent's. The arena alone
 * owns the elements; `ToNode` reads an element's current subtree as a value.
 */
module XmlArena {
  import opened Wrappers
  import opened XmlTree
  import Text
  import Views

  /** One element: `name`, `attributes`, `chars`, `children` and `parent` of `xmlElement`. */
  datatype Elem = Elem(name: string, attributes: map<string, string>, chars: string, children: seq<nat>, parent: Option<nat>)

  /** Every element named `elemName` carries `attribute`. */
  predicate Carries(elems: seq<Elem>, elemName: string, attribute: string) {
    forall i :: 0 <= i < |elems| && elems[i].name == elemName ==> attribute in elems[i].attributes
  }

  /** The attributes `Views.WellFormed` asks of a subtree, asked of the whole document. */
  predicate Attributed(elems: seq<Elem>) {
    && Carries(elems, "comp", "ref")
    && Carries(elems, "libsource", "lib")
    && Carries(elems, "libsource", "part")
    && Carries(elems, "libpart", "lib")
    && Carries(elems, "libpart", "part")
    && Carries(elems, "field", "name")
  }

  /**
   * The arena after a new element `name` is created below `parent`: a new
   * last child of the parent, or a new root when there is none.
   */
  function Opened(elems: seq<Elem>, parent: Option<nat>, name: string): (r: seq<Elem>)
    requires parent.Some? ==> parent.value < |elems|
    ensures |r| == |elems| + 1 && r[|elems|] == Elem(name, map[], "", [], parent)
    ensures forall i :: 0 <= i < |elems| ==> r[i].name == elems[i].name && r[i].parent == elems[i].parent
    ensures forall i :: 0 <= i < |elems| && Some(i) != parent ==> r[i] == elems[i]
    ensures parent.Some? ==> r[parent.value].children == elems[parent.value].children + [|elems|]
  {
    (if parent.None? then elems
     else elems[parent.value := elems[parent.value].(children := elems[parent.value].children + [|elems|])])
    + [Elem(name, map[], "", [], parent)]
  }

  /** The attribute map after `addAttribute(name, value)` for each pair in turn. */
  function Assigned(m: map<string, string>, attrs: seq<(string, string)>): (r: map<string, string>)
    ensures r.Keys == m.Keys + set k | 0 <= k < |attrs| :: attrs[k].0
    decreases |attrs|
  {
    if attrs == [] then m
    else
      var n := |attrs| - 1;
      var r := Assigned(m, attrs[..n])[attrs[n].0 := attrs[n].1];
      assert forall k :: 0 <= k < n ==> attrs[..n][k] == attrs[k];
      r
  }

  /** A name no pair gives keeps its old value. */
  lemma {:induction false} AssignedUntouched(m: map<string, string>, attrs: seq<(string, string)>, name: string)
    requires name in m && forall k :: 0 <= k < |attrs| ==> attrs[k].0 != name
    ensures Assigned(m, attrs)[name] == m[name]
    decreases |attrs|
  {
    if attrs != [] {
      var n := |attrs| - 1;
      assert forall k :: 0 <= k < n ==> attrs[..n][k] == attrs[k];
      AssignedUntouched(m, attrs[..n], name);
    }
  }

  /** The pair at `k`, when no later pair gives the same name, fixes that attribute's value. */
  lemma {:induction false} AssignedLastWins(m: map<string, string>, attrs: seq<(string, string)>, k: nat)
    requires k < |attrs| && forall j :: k < j < |attrs| ==> attrs[j].0 != attrs[k].0
    ensures Assigned(m, attrs)[attrs[k].0] == attrs[k].1
    decreases |attrs|
  {
    var n := |attrs| - 1;
    var name := attrs[k].0;
    var prefix := attrs[..n];
    assert Assigned(m, attrs) == Assigned(m, prefix)[attrs[n].0 := attrs[n].1];
    if k < n {
      assert prefix[k] == attrs[k];
      assert forall j :: k < j < n ==> prefix[j] == attrs[j];
      AssignedLastWins(m, prefix, k);
      assert attrs[n].0 != name;
    }
  }

  class Document {
    var elems: seq<Elem>

    /**
     * Children come after their parent and name it as their parent; a parent
     * comes before its child and lists it: so every non-root element has exactly
     * one parent and the child relation has no cycle.
     */
    ghost predicate Valid()
      reads this
    {
      && (forall i, k :: 0 <= i < |elems| && 0 <= k < |elems[i].children| ==>
            i < elems[i].children[k] < |elems| && elems[elems[i].children[k]].parent == Some(i))
      && (forall i {:trigger elems[i].parent} :: 0 <= i < |elems| && elems[i].parent.Some? ==>
            elems[i].parent.value < i && i in elems[elems[i].parent.value].children)
    }

    constructor ()
      ensures Valid() && elems == []
    {
      elems := [];
    }

    /** `xmlElement(name)` for a root: a new element with no parent. */
    method NewRoot(name: string) returns (e: nat)
      requires Valid()
      modifies this
      ensures Valid()
      ensures e == |old(elems)|
      ensures elems == Opened(old(elems), None, name)
    {
      e := |elems|;
      elems := elems + [Elem(name, map[], "", [], None)];
    }

    /** `parent.addChild(xmlElement(name, parent))`: a new last child of `parent`; its handle is returned. */
    method AddChild(parent: nat, name: string) returns (e: nat)
      requires Valid() && parent < |elems|
      modifies this
      ensures Valid()
      ensures e == |old(elems)|
      ensures elems == Opened(old(elems), Some(parent), name)
    {
      e := |elems|;
      var p := elems[parent];
      elems := elems[parent := p.(children := p.children + [e])] + [Elem(name, map[], "", [], Some(parent))];
      forall i | 0 <= i < |elems| && elems[i].parent.Some?
        ensures elems[i].parent.value < i && i in elems[elems[i].parent.value].children
      {
        if i < e {
          assert old(elems)[i].parent == elems[i].parent;
          var q := elems[i].parent.value;
          assert i in old(elems)[q].children;
        }
      }
    }

    /** `addAttribute(attr, value)` (and `setAttribute`): a later value for the same name replaces the earlier one. */
    method AddAttribute(e: nat, attr: string, value: string)
      requires Valid() && e < |elems|
      modifies this
      ensures Valid()
      ensures elems == old(elems)[e := old(elems)[e].(attributes := old(elems)[e].attributes[attr := value])]
    {
      var el := elems[e];
      elems := elems[e := el.(attributes := el.attributes[attr := value])];
    }

    /** `addAttribute(name, value)` for each pair in turn: only that element's map changes. */
    method AddAttributes(e: nat, attrs: seq<(string, string)>)
      requires Valid() && e < |elems|
      modifies this
      ensures Valid()
      ensures elems == old(elems)[e := old(elems)[e].(attributes := Assigned(old(elems)[e].attributes, attrs))]
    {
      ghost var start := elems;
      assert start[e := start[e].(attributes := Assigned(start[e].attributes, attrs[..0]))] == start;
      for i := 0 to |attrs|
        invariant Valid() && |elems| == |start|
        invariant elems == start[e := start[e].(attributes := Assigned(start[e].attributes, attrs[..i]))]
      {
        AddAttribute(e, attrs[i].0, attrs[i].1);
        assert attrs[..i + 1][..i] == attrs[..i];
      }
      assert attrs[..|attrs|] == attrs;
    }

    /** `setChars(chars)`: replaces the text. */
    method SetChars(e: nat, chars: string)
      requires Valid() && e < |elems|
      modifies this
      ensures Valid()
      ensures elems == old(elems)[e := old(elems)[e].(chars := chars)]
    {
      elems := elems[e := elems[e].(chars := chars)];
    }

    /** `addChars(chars)`: appends to the text. */
    method AddChars(e: nat, chars: string)
      requires Valid() && e < |elems|
      modifies this
      ensures Valid()
      ensures elems == old(elems)[e := old(elems)[e].(chars := old(elems)[e].chars + chars)]
      ensures Text.StartsWith(elems[e].chars, old(elems)[e].chars)
    {
      elems := elems[e := elems[e].(chars := elems[e].chars + chars)];
    }

    /** `getParent()` */
    function GetParent(e: nat): (p: Option<nat>)
      reads this
      requires Valid() && e < |elems|
      ensures p.Some? ==> p.value < e && e in elems[p.value].children
    {
      elems[e].parent
    }

    /** The current subtree below `e`, as a value: child k is the subtree below the element's k-th child handle. */
    function ToNode(e: nat): (n: Node)
      reads this
      requires Valid() && e < |elems|
      ensures n.name == elems[e].name && n.attributes == elems[e].attributes && n.chars == elems[e].chars
      ensures |n.children| == |elems[e].children|
      ensures forall k :: 0 <= k < |n.children| ==> e < elems[e].children[k] < |elems| && n.children[k] == ToNode(elems[e].children[k])
      decreases |elems| - e, 0
    {
      Node(elems[e].name, elems[e].attributes, elems[e].chars, ToNodes(elems[e].children, e + 1))
    }

    function ToNodes(ids: seq<nat>, lo: nat): (ns: seq<Node>)
      reads this
      requires Valid() && lo <= |elems|
      requires forall k :: 0 <= k < |ids| ==> lo <= ids[k] < |elems|
      ensures |ns| == |ids|
      ensures forall k :: 0 <= k < |ids| ==> ns[k] == ToNode(ids[k])
      decreases |elems| - lo, 1 + |ids|
    {
      if ids == [] then []
      else
        var rest := ToNodes(ids[1..], lo);
        assert forall k :: 1 <= k < |ids| ==> ids[k] == ids[1..][k - 1];
        [ToNode(ids[0])] + rest
    }

    /** What holds of every element holds everywhere in every subtree. */
    lemma {:induction false} SubtreeCarries(e: nat, elemName: string, attribute: string)
      requires Valid() && e < |elems| && Carries(elems, elemName, attribute)
      ensures HasAttributeEverywhere(ToNode(e), elemName, attribute)
      decreases |elems| - e, 0
    {
      ChildrenCarry(elems[e].children, e + 1, elemName, attribute);
    }

    lemma {:induction false} ChildrenCarry(ids: seq<nat>, lo: nat, elemName: string, attribute: string)
      requires Valid() && lo <= |elems| && Carries(elems, elemName, attribute)
      requires forall k :: 0 <= k < |ids| ==> lo <= ids[k] < |elems|
      ensures EveryChildHas(ToNodes(ids, lo), elemName, attribute)
      decreases |elems| - lo, 1 + |ids|
    {
      if ids != [] {
        SubtreeCarries(ids[0], elemName, attribute);
        ChildrenCarry(ids[1..], lo, elemName, attribute);
        assert ToNodes(ids, lo)[1..] == ToNodes(ids[1..], lo);
      }
    }

    /** In a document whose elements carry the looked-up attributes, every subtree is a well-formed view. */
    lemma WellFormedSubtree(e: nat)
      requires Valid() && e < |elems| && Attributed(elems)
      ensures Views.WellFormed(ToNode(e))
    {
      SubtreeCarries(e, "comp", "ref");
      SubtreeCarries(e, "libsource", "lib");
      SubtreeCarries(e, "libsource", "part");
      SubtreeCarries(e, "libpart", "lib");
      SubtreeCarries(e, "libpart", "part");
      SubtreeCarries(e, "field", "name");
    }
  }
}
