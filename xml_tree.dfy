/**
 * The attributed tree every part of the netlist is read from (`xmlElement`),
 * as a value, with its child accessors and the recursive lookup `get` on
 * which every field accessor of the BOM tools is built.
 */
module XmlTree {
  import opened Wrappers

  /** An element: its name, attributes, text content and children in document order. */
  datatype Node = Node(name: string, attributes: map<string, string>, chars: string, children: seq<Node>)

  /**
   * What `get` raises when the first element it reaches with the requested
   * name lacks the requested attribute: the KeyError that `except AttributeError`
   * does not catch.
   */
  datatype LookupError = MissingAttribute(element: string, attribute: string)

  function FirstNamed(cs: seq<Node>, name: string): (r: Option<Node>)
    ensures r.None? <==> forall k :: 0 <= k < |cs| ==> cs[k].name != name
    ensures r.Some? ==> exists k :: 0 <= k < |cs| && cs[k] == r.value && r.value.name == name
                          && forall j :: 0 <= j < k ==> cs[j].name != name
    decreases |cs|
  {
    if cs == [] then None
    else if cs[0].name == name then Some(cs[0])
    else
      var r := FirstNamed(cs[1..], name);
      assert r.Some? ==> exists k :: 0 <= k < |cs[1..]| && cs[1..][k] == r.value && r.value.name == name
                                    && forall j :: 0 <= j < k ==> cs[1..][j].name != name;
      assert r.Some? ==> exists k :: 1 <= k < |cs| && cs[k] == r.value && r.value.name == name
                                    && forall j :: 0 <= j < k ==> cs[j].name != name;
      r
  }

  /** `getChild(name)`: the first child with that name, or None. */
  function GetChild(n: Node, name: string): (r: Option<Node>)
    ensures r.None? <==> forall k :: 0 <= k < |n.children| ==> n.children[k].name != name
    ensures r.Some? ==> exists k :: 0 <= k < |n.children| && n.children[k] == r.value && r.value.name == name
                          && forall j :: 0 <= j < k ==> n.children[j].name != name
  {
    FirstNamed(n.children, name)
  }

  function AllNamed(cs: seq<Node>, name: string): (r: seq<Node>)
    ensures forall c :: c in r <==> c in cs && c.name == name
    ensures |r| <= |cs|
    decreases |cs|
  {
    if cs == [] then []
    else if cs[0].name == name then [cs[0]] + AllNamed(cs[1..], name)
    else AllNamed(cs[1..], name)
  }

  /** The positions `p >= i` of `cs` holding an element named `name`, in increasing order. */
  function NamedPositions(cs: seq<Node>, name: string, i: nat): (ps: seq<nat>)
    requires i <= |cs|
    ensures forall j :: 0 <= j < |ps| ==> i <= ps[j] < |cs| && cs[ps[j]].name == name
    ensures forall j, k :: 0 <= j < k < |ps| ==> ps[j] < ps[k]
    ensures forall p :: i <= p < |cs| && cs[p].name == name ==> p in ps
    decreases |cs| - i
  {
    if i == |cs| then []
    else if cs[i].name == name then [i] + NamedPositions(cs, name, i + 1)
    else NamedPositions(cs, name, i + 1)
  }

  /** The elements `AllNamed` keeps are those at the named positions, one for one and in order. */
  lemma {:induction false} AllNamedAt(cs: seq<Node>, name: string, i: nat)
    requires i <= |cs|
    ensures |AllNamed(cs[i..], name)| == |NamedPositions(cs, name, i)|
    ensures forall j :: 0 <= j < |NamedPositions(cs, name, i)| ==>
              AllNamed(cs[i..], name)[j] == cs[NamedPositions(cs, name, i)[j]]
    decreases |cs| - i
  {
    if i < |cs| {
      AllNamedAt(cs, name, i + 1);
      assert cs[i..][1..] == cs[i + 1..];
      var ps := NamedPositions(cs, name, i + 1);
      var rest := AllNamed(cs[i + 1..], name);
      if cs[i].name == name {
        assert AllNamed(cs[i..], name) == [cs[i]] + rest;
        assert NamedPositions(cs, name, i) == [i] + ps;
      }
    }
  }

  /**
   * `getChildren(name)`: with no name, all children; with a name, the child at
   * each position holding that name, in order and once each.
   */
  function GetChildren(n: Node, name: string): (r: seq<Node>)
    ensures name == "" ==> r == n.children
    ensures name != "" ==>
              var ps := NamedPositions(n.children, name, 0);
              |r| == |ps| && forall j :: 0 <= j < |ps| ==> r[j] == n.children[ps[j]]
  {
    if name == "" then n.children
    else
      AllNamedAt(n.children, name, 0);
      assert n.children[0..] == n.children;
      AllNamed(n.children, name)
  }

  /**
   * `get(elemName, attribute, attrmatch)`. An element named `elemName`
   * answers for its whole subtree with its text (no attribute asked), the
   * attribute's value (no attrmatch given) or its text when the attribute
   * equals attrmatch; only when that last comparison fails does the search go
   * on into its children. Otherwise the children are searched in order and the
   * first non-empty answer is returned; nothing found is "".
   */
  function Get(n: Node, elemName: string, attribute: string, attrmatch: string): (r: Result<string, LookupError>)
    ensures r.Err? ==> attribute != "" && r.error == MissingAttribute(elemName, attribute)
    decreases n, 1
  {
    if n.name == elemName && attribute == "" then Ok(n.chars)
    else if n.name == elemName && attribute !in n.attributes then Err(MissingAttribute(elemName, attribute))
    else if n.name == elemName && attrmatch == "" then Ok(n.attributes[attribute])
    else if n.name == elemName && n.attributes[attribute] == attrmatch then Ok(n.chars)
    else GetInChildren(n.children, elemName, attribute, attrmatch)
  }

  function GetInChildren(cs: seq<Node>, elemName: string, attribute: string, attrmatch: string): (r: Result<string, LookupError>)
    ensures r.Err? ==> attribute != "" && r.error == MissingAttribute(elemName, attribute)
    decreases cs, 0
  {
    if cs == [] then Ok("")
    else
      var r := Get(cs[0], elemName, attribute, attrmatch);
      if r.Err? || r.value != "" then r else GetInChildren(cs[1..], elemName, attribute, attrmatch)
  }

  // ---------------------------------------------------------------------
  // Reference definition: list the answers of the elements in pre-order
  // (not descending below an element that answers), take the first one that
  // is an error or non-empty.

  /** The answer one element gives on its own, or None when the search passes through it. */
  function Answer(n: Node, elemName: string, attribute: string, attrmatch: string): Option<Result<string, LookupError>> {
    if n.name != elemName then None
    else if attribute == "" then Some(Ok(n.chars))
    else if attribute !in n.attributes then Some(Err(MissingAttribute(elemName, attribute)))
    else if attrmatch == "" then Some(Ok(n.attributes[attribute]))
    else if n.attributes[attribute] == attrmatch then Some(Ok(n.chars))
    else None
  }

  /** The answers met in a pre-order walk that does not descend below an answering element. */
  function Hits(n: Node, elemName: string, attribute: string, attrmatch: string): seq<Result<string, LookupError>>
    decreases n, 1
  {
    match Answer(n, elemName, attribute, attrmatch)
    case Some(a) => [a]
    case None => HitsIn(n.children, elemName, attribute, attrmatch)
  }

  function HitsIn(cs: seq<Node>, elemName: string, attribute: string, attrmatch: string): seq<Result<string, LookupError>>
    decreases cs, 0
  {
    if cs == [] then []
    else Hits(cs[0], elemName, attribute, attrmatch) + HitsIn(cs[1..], elemName, attribute, attrmatch)
  }

  predicate Decisive(r: Result<string, LookupError>) {
    r.Err? || r.value != ""
  }

  /** The first decisive answer, or "" when there is none. */
  function FirstHit(hs: seq<Result<string, LookupError>>): Result<string, LookupError>
    decreases |hs|
  {
    if hs == [] then Ok("")
    else if Decisive(hs[0]) then hs[0]
    else FirstHit(hs[1..])
  }

  lemma {:induction false} FirstHitAppend(a: seq<Result<string, LookupError>>, b: seq<Result<string, LookupError>>)
    ensures FirstHit(a + b) == if Decisive(FirstHit(a)) then FirstHit(a) else FirstHit(b)
    decreases |a|
  {
    if a != [] {
      assert (a + b)[0] == a[0];
      if !Decisive(a[0]) {
        assert (a + b)[1..] == a[1..] + b;
        FirstHitAppend(a[1..], b);
      }
    } else {
      assert a + b == b;
    }
  }

  /** `get` returns the first decisive answer of a pre-order walk of the tree. */
  lemma {:induction false} GetIsFirstHit(n: Node, elemName: string, attribute: string, attrmatch: string)
    ensures Get(n, elemName, attribute, attrmatch) == FirstHit(Hits(n, elemName, attribute, attrmatch))
    decreases n, 1
  {
    if Answer(n, elemName, attribute, attrmatch).None? {
      GetInChildrenIsFirstHit(n.children, elemName, attribute, attrmatch);
    }
  }

  lemma {:induction false} GetInChildrenIsFirstHit(cs: seq<Node>, elemName: string, attribute: string, attrmatch: string)
    ensures GetInChildren(cs, elemName, attribute, attrmatch) == FirstHit(HitsIn(cs, elemName, attribute, attrmatch))
    decreases cs, 0
  {
    if cs != [] {
      GetIsFirstHit(cs[0], elemName, attribute, attrmatch);
      GetInChildrenIsFirstHit(cs[1..], elemName, attribute, attrmatch);
      FirstHitAppend(Hits(cs[0], elemName, attribute, attrmatch), HitsIn(cs[1..], elemName, attribute, attrmatch));
    }
  }

  // ---------------------------------------------------------------------
  // When `get` cannot fail.

  /** Every element of the tree named `elemName` carries `attribute`. */
  predicate HasAttributeEverywhere(n: Node, elemName: string, attribute: string)
    decreases n, 1
  {
    && (n.name == elemName ==> attribute in n.attributes)
    && EveryChildHas(n.children, elemName, attribute)
  }

  /** `HasAttributeEverywhere` of every tree in `cs`. */
  predicate EveryChildHas(cs: seq<Node>, elemName: string, attribute: string)
    decreases cs, 0
  {
    cs != [] ==> HasAttributeEverywhere(cs[0], elemName, attribute) && EveryChildHas(cs[1..], elemName, attribute)
  }

  lemma {:induction false} EveryChildHasAt(cs: seq<Node>, elemName: string, attribute: string, k: nat)
    requires EveryChildHas(cs, elemName, attribute) && k < |cs|
    ensures HasAttributeEverywhere(cs[k], elemName, attribute)
    decreases k
  {
    if k > 0 {
      EveryChildHasAt(cs[1..], elemName, attribute, k - 1);
    }
  }

  /** A lookup of text only, or of an attribute every such element carries, never raises. */
  lemma {:induction false} GetSucceeds(n: Node, elemName: string, attribute: string, attrmatch: string)
    requires attribute == "" || HasAttributeEverywhere(n, elemName, attribute)
    ensures Get(n, elemName, attribute, attrmatch).Ok?
    decreases n, 1
  {
    if !(n.name == elemName && (attribute == "" || attrmatch == "" || n.attributes[attribute] == attrmatch)) {
      GetInChildrenSucceeds(n.children, elemName, attribute, attrmatch);
    }
  }

  lemma {:induction false} GetInChildrenSucceeds(cs: seq<Node>, elemName: string, attribute: string, attrmatch: string)
    requires attribute == "" || EveryChildHas(cs, elemName, attribute)
    ensures GetInChildren(cs, elemName, attribute, attrmatch).Ok?
    decreases cs, 0
  {
    if cs != [] {
      GetSucceeds(cs[0], elemName, attribute, attrmatch);
      GetInChildrenSucceeds(cs[1..], elemName, attribute, attrmatch);
    }
  }

  /** A tree with no element of that name answers "". */
  lemma {:induction false} GetAbsent(n: Node, elemName: string, attribute: string, attrmatch: string)
    requires NoneNamed(n, elemName)
    ensures Get(n, elemName, attribute, attrmatch) == Ok("")
    decreases n, 1
  {
    GetInChildrenAbsent(n.children, elemName, attribute, attrmatch);
  }

  lemma {:induction false} GetInChildrenAbsent(cs: seq<Node>, elemName: string, attribute: string, attrmatch: string)
    requires forall k :: 0 <= k < |cs| ==> NoneNamed(cs[k], elemName)
    ensures GetInChildren(cs, elemName, attribute, attrmatch) == Ok("")
    decreases cs, 0
  {
    if cs != [] {
      GetAbsent(cs[0], elemName, attribute, attrmatch);
      GetInChildrenAbsent(cs[1..], elemName, attribute, attrmatch);
    }
  }

  /** No element of the tree is named `elemName`. */
  predicate NoneNamed(n: Node, elemName: string)
    decreases n
  {
    n.name != elemName && forall k :: 0 <= k < |n.children| ==> NoneNamed(n.children[k], elemName)
  }
}
