/**
 * `comp`: a read view over a `comp` element plus the library part the linker
 * bound it to. Field lookups try the component first and its library part
 * second; `Equal` is the `==` the grouping engine uses.
 */
module Comps {
  import opened Wrappers
  import opened XmlTree
  import opened Text
  import opened Views
  import LibParts

  /** When part names are compared, the members of one class match each other. */
  const ALIASES: seq<seq<string>> := [
    ["c", "c_small", "cap", "capacitor"],
    ["r", "r_small", "res", "resistor"],
    ["sw", "switch"]
  ]

  /** A value or Notes field containing one of these (lower-cased) marks a part as not fitted. */
  const DNF: seq<string> := ["dnf", "do not fit", "nofit", "no stuff", "nostuff", "noload", "do not load"]

  /** `libpart` is None until the linker binds one. */
  datatype CompView = CompView(element: Node, libpart: Option<LibParts.LibPart>)

  type Comp = c: CompView | WellFormed(c.element)
    witness CompView(Node("comp", map["ref" := ""], "", []), None)

  predicate Linked(c: Comp) {
    c.libpart.Some?
  }

  /** `getRef()` */
  function Ref(c: Comp): (r: string)
    ensures Get(c.element, "comp", "ref", "") == Ok(r)
  {
    Lookup(c.element, "comp", "ref", "")
  }

  /** `getValue()` */
  function Value(c: Comp): (r: string)
    ensures Get(c.element, "value", "", "") == Ok(r)
  {
    Lookup(c.element, "value", "", "")
  }

  /** `getPartName()`: the `part` of the component's `libsource`. */
  function PartName(c: Comp): (r: string)
    ensures Get(c.element, "libsource", "part", "") == Ok(r)
  {
    Lookup(c.element, "libsource", "part", "")
  }

  /** `getLibName()`: the `lib` of the component's `libsource`. */
  function LibName(c: Comp): (r: string)
    ensures Get(c.element, "libsource", "lib", "") == Ok(r)
  {
    Lookup(c.element, "libsource", "lib", "")
  }

  /** `getField(name, False)`: the component's own field only. */
  function OwnField(c: Comp, name: string): (r: string)
    ensures Get(c.element, "field", "name", name) == Ok(r)
  {
    Lookup(c.element, "field", "name", name)
  }

  /** `getField(name)` reaches the library part only when the own field is empty; it must then be bound. */
  predicate FieldDefined(c: Comp, name: string) {
    Linked(c) || OwnField(c, name) != ""
  }

  /**
   * `getField(name)`: the component's own field if non-empty, else its library
   * part's; empty only when both are.
   */
  function Field(c: Comp, name: string): (r: string)
    requires FieldDefined(c, name)
    ensures OwnField(c, name) != "" ==> r == OwnField(c, name)
    ensures OwnField(c, name) == "" ==> r == LibParts.Field(c.libpart.value, name)
    ensures r == "" <==> OwnField(c, name) == "" && LibParts.Field(c.libpart.value, name) == ""
  {
    var own := OwnField(c, name);
    if own == "" then LibParts.Field(c.libpart.value, name) else own
  }

  /** `getFieldNames()`: the component's own field names. */
  function FieldNames(c: Comp): (r: seq<string>)
    ensures GetChild(c.element, "fields").None? ==> r == []
    ensures GetChild(c.element, "fields").Some? ==>
              var fs := GetChild(c.element, "fields").value.children;
              |r| == |fs| && forall k :: 0 <= k < |fs| ==> Get(fs[k], "field", "name", "") == Ok(r[k])
  {
    FieldNamesOf(c.element)
  }

  /** The component's own `footprint` text. */
  function OwnFootprint(c: Comp): (r: string)
    ensures Get(c.element, "footprint", "", "") == Ok(r)
  {
    Lookup(c.element, "footprint", "", "")
  }

  predicate FootprintDefined(c: Comp) {
    Linked(c) || OwnFootprint(c) != ""
  }

  /** `getFootprint()`: the component's own footprint if non-empty, else its library part's Footprint field. */
  function Footprint(c: Comp): (r: string)
    requires FootprintDefined(c)
    ensures OwnFootprint(c) != "" ==> r == OwnFootprint(c)
    ensures OwnFootprint(c) == "" ==> r == LibParts.Field(c.libpart.value, "Footprint")
  {
    var own := OwnFootprint(c);
    if own == "" then LibParts.Footprint(c.libpart.value) else own
  }

  /** `getDatasheet()`: always the library part's. */
  function Datasheet(c: Comp): (r: string)
    requires Linked(c)
    ensures r == LibParts.Datasheet(c.libpart.value)
  {
    LibParts.Datasheet(c.libpart.value)
  }

  /** `getDescription()`: always the library part's. */
  function Description(c: Comp): (r: string)
    requires Linked(c)
    ensures r == LibParts.Description(c.libpart.value)
  {
    LibParts.Description(c.libpart.value)
  }

  /** The leading run of letters. */
  function AlphaPrefix(s: string): (r: string)
    ensures StartsWith(s, r)
    ensures forall i :: 0 <= i < |r| ==> IsAlpha(r[i])
    ensures |r| < |s| ==> !IsAlpha(s[|r|])
    decreases |s|
  {
    if s != [] && IsAlpha(s[0]) then [s[0]] + AlphaPrefix(s[1..]) else ""
  }

  /** `getPrefix()`: the letters the reference starts with, "U" for "U12". */
  function Prefix(c: Comp): (r: string)
    ensures StartsWith(Ref(c), r)
    ensures forall i :: 0 <= i < |r| ==> IsAlpha(r[i])
    ensures |r| < |Ref(c)| ==> !IsAlpha(Ref(c)[|r|])
  {
    AlphaPrefix(Ref(c))
  }

  /** `any([w in item for w in words])` */
  predicate ContainsAny(item: string, words: seq<string>) {
    exists k :: 0 <= k < |words| && Contains(item, words[k])
  }

  /**
   * Some stretch of `t` reads as one of the markers once its letters are
   * lower-cased: "DNF", "Do Not Fit" and "dnf" all carry the marker "dnf".
   */
  ghost predicate Marked(t: string, markers: seq<string>) {
    exists k, i :: MarkerAt(t, markers, k, i)
  }

  /** The stretch of `t` at `i` lower-cases to marker `k`. */
  predicate MarkerAt(t: string, markers: seq<string>, k: int, i: int) {
    0 <= k < |markers| && 0 <= i <= |t| - |markers[k]| && Lower(t[i..i + |markers[k]|]) == markers[k]
  }

  /** Looking for a marker in the lower-cased text finds exactly the stretches that lower-case to one. */
  lemma ContainsAnyMarked(t: string, markers: seq<string>)
    ensures ContainsAny(Lower(t), markers) <==> Marked(t, markers)
  {
    if ContainsAny(Lower(t), markers) {
      var k :| 0 <= k < |markers| && Contains(Lower(t), markers[k]);
      var i :| 0 <= i <= |Lower(t)| - |markers[k]| && OccursAt(Lower(t), markers[k], i);
      LowerSlice(t, i, i + |markers[k]|);
      assert MarkerAt(t, markers, k, i);
    }
    if Marked(t, markers) {
      var k, i :| MarkerAt(t, markers, k, i);
      LowerSlice(t, i, i + |markers[k]|);
      assert OccursAt(Lower(t), markers[k], i);
    }
  }

  /**
   * `isFitted()`: a part is fitted exactly when neither its value nor its
   * Notes field holds a DNF marker, in whatever mix of letter case.
   */
  function IsFitted(c: Comp): (r: bool)
    requires FieldDefined(c, "Notes")
    ensures r <==> !Marked(Value(c), DNF) && !Marked(Field(c, "Notes"), DNF)
  {
    ContainsAnyMarked(Value(c), DNF);
    ContainsAnyMarked(Field(c, "Notes"), DNF);
    !ContainsAny(Lower(Value(c)), DNF) && !ContainsAny(Lower(Field(c, "Notes")), DNF)
  }

  /** `compareValue(other)`: equal ignoring case, or equal as the unit-aware comparison `compareValues` judges. */
  function CompareValue(c: Comp, d: Comp, compareValues: (string, string) -> bool): bool
  {
    if Lower(Value(c)) == Lower(Value(d)) then true
    else compareValues(Value(c), Value(d))
  }

  /** `compareFootprint(other)` */
  function CompareFootprint(c: Comp, d: Comp): bool
    requires FootprintDefined(c) && FootprintDefined(d)
  {
    Lower(Footprint(c)) == Lower(Footprint(d))
  }

  /** `compareLibName(other)` */
  function CompareLibName(c: Comp, d: Comp): bool
  {
    Lower(LibName(c)) == Lower(LibName(d))
  }

  /** Some alias class holds both names. */
  function SameAliasClass(a: string, b: string, classes: seq<seq<string>>): (r: bool)
    ensures r <==> exists k :: 0 <= k < |classes| && a in classes[k] && b in classes[k]
    decreases |classes|
  {
    if classes == [] then false
    else if a in classes[0] && b in classes[0] then true
    else
      var r := SameAliasClass(a, b, classes[1..]);
      assert r <==> exists k :: 1 <= k < |classes| && a in classes[k] && b in classes[k] by {
        if r {
          var j :| 0 <= j < |classes[1..]| && a in classes[1..][j] && b in classes[1..][j];
          assert classes[j + 1] == classes[1..][j];
        }
        if exists k :: 1 <= k < |classes| && a in classes[k] && b in classes[k] {
          var k :| 1 <= k < |classes| && a in classes[k] && b in classes[k];
          assert classes[1..][k - 1] == classes[k];
        }
      }
      r
  }

  /** `comparePartName(other)`: equal ignoring case, or both (lower-cased) in one ALIASES class. */
  function ComparePartName(c: Comp, d: Comp): (r: bool)
    ensures r <==> var pn1 := Lower(PartName(c)); var pn2 := Lower(PartName(d));
                   pn1 == pn2 || exists k :: 0 <= k < |ALIASES| && pn1 in ALIASES[k] && pn2 in ALIASES[k]
  {
    var pn1 := Lower(PartName(c));
    var pn2 := Lower(PartName(d));
    if pn1 == pn2 then true else SameAliasClass(pn1, pn2, ALIASES)
  }

  /** The value test of `==`: skipped when the receiver's description names a connector. */
  function ValueResult(c: Comp, d: Comp, compareValues: (string, string) -> bool): bool
    requires Linked(c)
  {
    if Contains(Lower(Description(c)), "connector") then true else CompareValue(c, d, compareValues)
  }

  /**
   * What `c == d` needs so as not to dereference a missing library part:
   * the receiver is bound (its description is always read), and the other
   * component's footprint and Notes are resolvable wherever the short-circuit
   * of `and` reaches them.
   */
  predicate EqualDefined(c: Comp, d: Comp, compareValues: (string, string) -> bool) {
    && Linked(c)
    && (ValueResult(c, d, compareValues) ==> FootprintDefined(d))
    && ((ValueResult(c, d, compareValues) && CompareFootprint(c, d) && CompareLibName(c, d) && ComparePartName(c, d))
          ==> FieldDefined(d, "Notes"))
  }

  /**
   * `c == d` (`__eq__`): value (unless c is a connector), footprint, library
   * name, part name and fitted state all agree.
   */
  function Equal(c: Comp, d: Comp, compareValues: (string, string) -> bool): (r: bool)
    requires EqualDefined(c, d, compareValues)
    ensures c == d ==> r
  {
    && ValueResult(c, d, compareValues)
    && CompareFootprint(c, d)
    && CompareLibName(c, d)
    && ComparePartName(c, d)
    && IsFitted(c) == IsFitted(d)
  }

  /** Two bound components can always be compared, either way round. */
  lemma LinkedEqualDefined(c: Comp, d: Comp, compareValues: (string, string) -> bool)
    requires Linked(c) && Linked(d)
    ensures EqualDefined(c, d, compareValues) && EqualDefined(d, c, compareValues)
  {
  }

  /** A bound component equals itself. */
  lemma EqualReflexive(c: Comp, compareValues: (string, string) -> bool)
    requires Linked(c)
    ensures EqualDefined(c, c, compareValues) && Equal(c, c, compareValues)
  {
  }

  /**
   * Without connectors and with a symmetric value comparison, `==` is
   * symmetric.
   */
  lemma EqualSymmetric(c: Comp, d: Comp, compareValues: (string, string) -> bool)
    requires Linked(c) && Linked(d)
    requires forall a, b :: compareValues(a, b) == compareValues(b, a)
    requires !Contains(Lower(Description(c)), "connector") && !Contains(Lower(Description(d)), "connector")
    ensures Equal(c, d, compareValues) == Equal(d, c, compareValues)
  {
  }

  /**
   * The connector exemption looks at the receiver only: a connector equals a
   * part of different value, which does not equal it back.
   */
  lemma ConnectorExemptionIsOneSided(c: Comp, d: Comp, compareValues: (string, string) -> bool)
    requires Linked(c) && Linked(d)
    requires Contains(Lower(Description(c)), "connector") && !Contains(Lower(Description(d)), "connector")
    requires !CompareValue(d, c, compareValues)
    requires Lower(Footprint(c)) == Lower(Footprint(d)) && Lower(LibName(c)) == Lower(LibName(d))
    requires ComparePartName(c, d) && IsFitted(c) == IsFitted(d)
    ensures Equal(c, d, compareValues) && !Equal(d, c, compareValues)
  {
  }

  /** Equal components share their fitted state. */
  lemma EqualSameFitted(c: Comp, d: Comp, compareValues: (string, string) -> bool)
    requires EqualDefined(c, d, compareValues) && Equal(c, d, compareValues)
    ensures FieldDefined(c, "Notes") && FieldDefined(d, "Notes") && IsFitted(c) == IsFitted(d)
  {
  }

  /** The DNF markers are matched whatever the case of the value: "DNF" is not fitted. */
  lemma UpperCaseMarkerNotFitted(c: Comp)
    requires FieldDefined(c, "Notes") && Value(c) == "DNF"
    ensures !IsFitted(c)
  {
    assert Lower(Value(c)[0..3]) == "dnf" == DNF[0];
    assert MarkerAt(Value(c), DNF, 0, 0);
  }

  /** "C" and "C_Small" are the same part name: both are in the capacitor alias class. */
  lemma AliasedPartNamesMatch(c: Comp, d: Comp)
    requires PartName(c) == "C" && PartName(d) == "C_Small"
    ensures ComparePartName(c, d) && ComparePartName(d, c)
  {
    assert Lower("C") == "c";
    assert Lower("C_Small") == "c_small";
    assert "c" in ALIASES[0] && "c_small" in ALIASES[0];
  }
}
