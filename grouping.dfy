/**
 * What `groupComponents` computes, on values: greedy grouping of components
 * under `==` with references as keys, members sorted by natural reference
 * order, groups sorted by (prefix, value); plus the field merging of
 * `updateField`/`updateFields`. The class `ComponentGroup` and the method
 * that builds the groups are proved against these definitions.
 */
module Grouping {
  import opened Text
  import opened Comps
  import opened GreedyGrouping
  import NaturalSort
  import Sorting

  /** A cell of `fields`/`csvFields`: None, a str, or the int `getCount` stores. */
  datatype Cell = Null | Str(s: string) | Num(n: nat)

  /** Every component has a library part bound: what `==` and the field updates dereference. */
  predicate AllLinked(g: seq<Comp>) {
    forall i :: 0 <= i < |g| ==> Linked(g[i])
  }

  /** `c == d`, wherever it can be evaluated. */
  function CompEq(compareValues: (string, string) -> bool): (Comp, Comp) -> bool {
    (c: Comp, d: Comp) => EqualDefined(c, d, compareValues) && Equal(c, d, compareValues)
  }

  /** The greedy groups of `groupComponents`, before any sorting. */
  function GreedyGroups(comps: seq<Comp>, compareValues: (string, string) -> bool): seq<seq<Comp>> {
    Greedy(comps, CompEq(compareValues), Ref)
  }

  /** The greedy groups of bound components are well formed, and hold bound components only. */
  lemma GreedyGroupsShape(comps: seq<Comp>, compareValues: (string, string) -> bool)
    requires AllLinked(comps)
    ensures WellGrouped(GreedyGroups(comps, compareValues), CompEq(compareValues), Ref)
    ensures forall j :: 0 <= j < |GreedyGroups(comps, compareValues)| ==>
              GreedyGroups(comps, compareValues)[j] != [] && AllLinked(GreedyGroups(comps, compareValues)[j])
  {
    GreedyWellGrouped(comps, CompEq(compareValues), Ref);
    GreedyMembersFromInput(comps, CompEq(compareValues), Ref);
  }

  /**
   * The greedy groups: every group is non-empty; every later member equals
   * its first member; no reference repeats within a group; no group's first
   * member equals an earlier group's first member; and every input reference
   * is in some group.
   */
  lemma GreedyGroupsProperties(comps: seq<Comp>, compareValues: (string, string) -> bool)
    requires AllLinked(comps)
    ensures var r := GreedyGroups(comps, compareValues);
            forall j :: 0 <= j < |r| ==> r[j] != [] && UniqueKeys(r[j], Ref)
    ensures forall j, i :: 0 <= j < |GreedyGroups(comps, compareValues)| && 1 <= i < |GreedyGroups(comps, compareValues)[j]| ==>
              && EqualDefined(GreedyGroups(comps, compareValues)[j][i], GreedyGroups(comps, compareValues)[j][0], compareValues)
              && Equal(GreedyGroups(comps, compareValues)[j][i], GreedyGroups(comps, compareValues)[j][0], compareValues)
    ensures forall k :: 0 <= k < |comps| ==> Covers(GreedyGroups(comps, compareValues), Ref, comps[k])
  {
    var r := GreedyGroups(comps, compareValues);
    GreedyGroupsShape(comps, compareValues);
    GreedyCoversKeys(comps, CompEq(compareValues), Ref);
    forall j, i | 0 <= j < |r| && 1 <= i < |r[j]| ensures EqualDefined(r[j][i], r[j][0], compareValues) && Equal(r[j][i], r[j][0], compareValues) {
      assert Coherent(r[j], CompEq(compareValues));
      assert CompEq(compareValues)(r[j][i], r[j][0]);
    }
  }

  // ---------------------------------------------------------------------
  // Quantity

  /** `getCount()`: "0" when some member is not fitted, otherwise the number of members. */
  function CountCell(g: seq<Comp>): Cell
    requires forall i :: 0 <= i < |g| ==> FieldDefined(g[i], "Notes")
  {
    if exists i :: 0 <= i < |g| && !IsFitted(g[i]) then Str("0") else Num(|g|)
  }

  /**
   * In a coherent group every member is fitted exactly when the first one is,
   * so the quantity is "0" exactly when the first member is not fitted, and
   * otherwise the (non-zero) number of members.
   */
  lemma CoherentQuantity(g: seq<Comp>, compareValues: (string, string) -> bool)
    requires g != [] && AllLinked(g) && Coherent(g, CompEq(compareValues))
    ensures CountCell(g) == Str("0") <==> !IsFitted(g[0])
    ensures CountCell(g) != Str("0") ==> CountCell(g) == Num(|g|)
    ensures forall i :: 0 <= i < |g| ==> IsFitted(g[i]) == IsFitted(g[0])
  {
    forall i | 0 <= i < |g| ensures FieldDefined(g[i], "Notes") && IsFitted(g[i]) == IsFitted(g[0]) {
      if i > 0 {
        assert CompEq(compareValues)(g[i], g[0]);
        EqualSameFitted(g[i], g[0], compareValues);
      } else {
        LinkedEqualDefined(g[0], g[0], compareValues);
      }
    }
    if !IsFitted(g[0]) {
      assert CountCell(g) == Str("0");
    } else {
      assert CountCell(g) == Num(|g|);
    }
  }

  /** Reordering the members changes neither their being bound nor the quantity. */
  lemma QuantityPermutation(g: seq<Comp>, h: seq<Comp>)
    requires multiset(g) == multiset(h)
    requires AllLinked(g)
    ensures AllLinked(h)
    ensures CountCell(g) == CountCell(h)
  {
    forall i | 0 <= i < |h| ensures Linked(h[i]) {
      assert h[i] in multiset(g);
    }
    if exists i :: 0 <= i < |g| && !IsFitted(g[i]) {
      var i :| 0 <= i < |g| && !IsFitted(g[i]);
      assert g[i] in multiset(h);
    }
    if exists i :: 0 <= i < |h| && !IsFitted(h[i]) {
      var i :| 0 <= i < |h| && !IsFitted(h[i]);
      assert h[i] in multiset(g);
    }
    assert |g| == |multiset(g)| == |multiset(h)| == |h|;
  }

  // ---------------------------------------------------------------------
  // Orders

  /** `natural_sort(c.getRef())` */
  function RefKey(c: Comp): seq<NaturalSort.Chunk> {
    NaturalSort.NaturalKey(Ref(c))
  }

  /** `sortComponents()` on values. */
  function SortMembers(g: seq<Comp>): (r: seq<Comp>)
    ensures |r| == |g|
  {
    Sorting.SortByKey(g, RefKey, NaturalSort.KeyLt)
  }

  /** `[g.components[0].getPrefix(), g.components[0].getValue()]` */
  function GroupKey(g: seq<Comp>): seq<string> {
    if g == [] then [] else [Prefix(g[0]), Value(g[0])]
  }

  /** Python's `<` on two lists of strings. */
  function GroupKeyLt(a: seq<string>, b: seq<string>): bool {
    Sorting.SeqLt(a, b, StringLt)
  }

  lemma GroupKeyLtIsStrictOrder()
    ensures Sorting.Irreflexive(GroupKeyLt) && Sorting.Transitive(GroupKeyLt)
  {
    StringLtIsStrictOrder();
    forall a: seq<string> ensures !GroupKeyLt(a, a) {
      Sorting.SeqLtIrreflexive(a, StringLt);
    }
    forall a: seq<string>, b: seq<string>, c: seq<string> | GroupKeyLt(a, b) && GroupKeyLt(b, c)
      ensures GroupKeyLt(a, c)
    {
      Sorting.SeqLtTransitive(a, b, c, StringLt);
    }
  }

  /**
   * The member lists `groupComponents` returns: the greedy groups, each sorted
   * by the natural order of references, the groups then sorted by
   * (prefix, value) of their (new) first member.
   */
  function Grouped(comps: seq<Comp>, compareValues: (string, string) -> bool): seq<seq<Comp>> {
    Sorting.SortByKey(Sorting.Map(GreedyGroups(comps, compareValues), SortMembers), GroupKey, GroupKeyLt)
  }

  /** The returned groups are in (prefix, value) order. */
  lemma GroupedInGroupOrder(comps: seq<Comp>, compareValues: (string, string) -> bool)
    requires AllLinked(comps)
    ensures Sorting.SortedByKey(Grouped(comps, compareValues), GroupKey, GroupKeyLt)
  {
    GroupKeyLtIsStrictOrder();
    Sorting.SortByKeySorted(Sorting.Map(GreedyGroups(comps, compareValues), SortMembers), GroupKey, GroupKeyLt);
  }

  /** Each returned group is some greedy group in natural reference order. */
  lemma GroupedMembers(comps: seq<Comp>, compareValues: (string, string) -> bool, j: nat)
    requires AllLinked(comps)
    requires j < |Grouped(comps, compareValues)|
    ensures exists k :: 0 <= k < |GreedyGroups(comps, compareValues)| &&
              Grouped(comps, compareValues)[j] == SortMembers(GreedyGroups(comps, compareValues)[k])
    ensures Sorting.SortedByKey(Grouped(comps, compareValues)[j], RefKey, NaturalSort.KeyLt)
  {
    var greedy := GreedyGroups(comps, compareValues);
    var sortedGroups := Sorting.Map(greedy, SortMembers);
    var g := Grouped(comps, compareValues)[j];
    Sorting.SortByKeyPermutes(sortedGroups, GroupKey, GroupKeyLt);
    assert g in multiset(sortedGroups);
    var k :| 0 <= k < |sortedGroups| && sortedGroups[k] == g;
    NaturalSort.KeyLtIsStrictOrder();
    Sorting.SortByKeySorted(greedy[k], RefKey, NaturalSort.KeyLt);
  }

  /**
   * Within every returned group the members are all fitted or all not
   * fitted, and the quantity says which: "0" exactly when none is fitted,
   * otherwise the number of members.
   */
  lemma GroupedQuantity(comps: seq<Comp>, compareValues: (string, string) -> bool, j: nat)
    requires AllLinked(comps)
    requires j < |Grouped(comps, compareValues)|
    ensures Grouped(comps, compareValues)[j] != [] && AllLinked(Grouped(comps, compareValues)[j])
    ensures CountCell(Grouped(comps, compareValues)[j]) == Str("0") <==>
              forall i :: 0 <= i < |Grouped(comps, compareValues)[j]| ==> !IsFitted(Grouped(comps, compareValues)[j][i])
    ensures CountCell(Grouped(comps, compareValues)[j]) != Str("0") ==>
              CountCell(Grouped(comps, compareValues)[j]) == Num(|Grouped(comps, compareValues)[j]|)
  {
    GroupedMembers(comps, compareValues, j);
    GreedyGroupsShape(comps, compareValues);
    var greedy := GreedyGroups(comps, compareValues);
    var g := Grouped(comps, compareValues)[j];
    var k :| 0 <= k < |greedy| && g == SortMembers(greedy[k]);
    CoherentQuantity(greedy[k], compareValues);
    Sorting.SortByKeyPermutes(greedy[k], RefKey, NaturalSort.KeyLt);
    QuantityPermutation(greedy[k], g);
    forall i | 0 <= i < |g| ensures IsFitted(g[i]) == IsFitted(greedy[k][0]) {
      assert g[i] in multiset(greedy[k]);
    }
  }

  // ---------------------------------------------------------------------
  // Fields

  /**
   * The configuration `bomfunk_csv` supplies: the default columns (the keys
   * of `fields` and `csvFields`), the protected columns, and the columns a
   * CSV line must agree on.
   */
  datatype CsvConfig = CsvConfig(defaults: seq<string>, protectedFields: set<string>, matchFields: seq<string>)

  /** `dict.fromkeys(keys)` */
  function FromKeys(keys: seq<string>): (r: map<string, Cell>)
    ensures forall k :: k in r <==> k in keys
    ensures forall k :: k in r ==> r[k] == Null
  {
    map k | k in keys :: Null
  }

  /** Python truthiness of a cell: None, "" and 0 are false. */
  predicate Truthy(x: Cell) {
    match x
    case Null => false
    case Str(s) => s != ""
    case Num(n) => n != 0
  }

  /** `str(x)` of a truthy cell ("" stands for None, which is never rendered). */
  function CellText(x: Cell): (r: string)
    ensures Truthy(x) <==> r != ""
  {
    match x
    case Null => ""
    case Str(s) => s
    case Num(n) => if n == 0 then "" else DecimalString(n)
  }

  predicate NoNumbers(fields: map<string, Cell>) {
    forall k :: k in fields ==> !fields[k].Num?
  }

  /** `updateField` calls `.lower()` on the current value, which an int does not have. */
  predicate UpdateFieldDefined(fields: map<string, Cell>, config: CsvConfig, field: string, data: string) {
    field in config.protectedFields || field == "" || data == "" || !(field in fields && fields[field].Num?)
  }

  /**
   * `updateField(field, fieldData)`: protected fields, an empty field name
   * and empty data change nothing; an absent, None or empty slot is seeded
   * with the data; data already contained (ignoring case) is ignored; other
   * data is appended after a space.
   */
  function Updated(fields: map<string, Cell>, config: CsvConfig, field: string, data: string): (r: map<string, Cell>)
    requires UpdateFieldDefined(fields, config, field, data)
    ensures forall k :: k != field ==> (k in r <==> k in fields)
    ensures forall k :: k != field && k in fields ==> r[k] == fields[k]
  {
    if field in config.protectedFields then fields
    else if field == "" then fields
    else if data == "" then fields
    else if field !in fields || fields[field] == Null || fields[field] == Str("") then fields[field := Str(data)]
    else if Contains(Lower(fields[field].s), Lower(data)) then fields
    else fields[field := Str(fields[field].s + " " + data)]
  }

  lemma ContainsExtended(a: string, b: string, x: string)
    requires Contains(Lower(a), x)
    ensures Contains(Lower(a + b), x)
  {
    LowerAppend(a, b);
    var i :| 0 <= i <= |Lower(a)| - |x| && OccursAt(Lower(a), x, i);
    assert Lower(a + b)[i..i + |x|] == Lower(a)[i..i + |x|];
    assert OccursAt(Lower(a + b), x, i);
  }

  /**
   * `updateField` only ever extends: every other key is untouched, every
   * value is a prefix of its new value, and unless the call is a no-op
   * (protected field, empty name or empty data) the data is afterwards
   * contained in the field's value, ignoring case.
   */
  lemma UpdatedExtends(fields: map<string, Cell>, config: CsvConfig, field: string, data: string)
    requires UpdateFieldDefined(fields, config, field, data)
    ensures var r := Updated(fields, config, field, data);
            && (forall k :: k != field ==> (k in r <==> k in fields))
            && (forall k :: k != field && k in fields ==> r[k] == fields[k])
            && (field in fields ==> field in r)
            && (forall k :: k in fields ==> StartsWith(CellText(r[k]), CellText(fields[k])))
            && (field in config.protectedFields || field == "" || data == "" ==> r == fields)
            && (field !in config.protectedFields && field != "" && data != "" ==>
                  field in r && r[field].Str? && Contains(Lower(r[field].s), Lower(data)))
            && (NoNumbers(fields) ==> NoNumbers(r))
  {
    var r := Updated(fields, config, field, data);
    if field !in config.protectedFields && field != "" && data != "" {
      if field !in fields || fields[field] == Null || fields[field] == Str("") {
        ContainsSelf(Lower(data));
        assert StartsWith(data, "");
      } else if !Contains(Lower(fields[field].s), Lower(data)) {
        var old_ := fields[field].s;
        assert r[field].s == old_ + (" " + data);
        assert (old_ + " ") + data == old_ + (" " + data);
        LowerAppend(old_ + " ", data);
        assert Lower(old_ + " " + data)[|old_| + 1..] == Lower(data);
        assert OccursAt(Lower(old_ + " " + data), Lower(data), |old_| + 1);
        assert StartsWith(r[field].s, old_);
      }
    }
    forall k | k in fields ensures StartsWith(CellText(r[k]), CellText(fields[k])) {
      if k != field || r == fields {
        assert r[k] == fields[k];
      }
    }
  }

  /** Every component's value for field `f`, merged in order (the inner loop of `updateFields`). */
  function MergeField(fields: map<string, Cell>, config: CsvConfig, f: string, g: seq<Comp>): (r: map<string, Cell>)
    requires NoNumbers(fields)
    requires forall i :: 0 <= i < |g| ==> FieldDefined(g[i], f)
    ensures NoNumbers(r)
    decreases |g|
  {
    if g == [] then fields
    else
      var prev := MergeField(fields, config, f, g[..|g| - 1]);
      UpdatedExtends(prev, config, f, Field(g[|g| - 1], f));
      Updated(prev, config, f, Field(g[|g| - 1], f))
  }

  /** Every field of `fs` in turn (the outer loop of `updateFields`). */
  function MergeFields(fields: map<string, Cell>, config: CsvConfig, fs: seq<string>, g: seq<Comp>): (r: map<string, Cell>)
    requires NoNumbers(fields)
    requires forall i, k :: 0 <= i < |g| && 0 <= k < |fs| ==> FieldDefined(g[i], fs[k])
    ensures NoNumbers(r)
    decreases |fs|
  {
    if fs == [] then fields
    else MergeField(MergeFields(fields, config, fs[..|fs| - 1], g), config, fs[|fs| - 1], g)
  }

  /** A key's value, as far as it goes, is kept by every later merge; so is any text it contains. */
  predicate Keeps(before: map<string, Cell>, after: map<string, Cell>) {
    forall k :: k in before ==> k in after && StartsWith(CellText(after[k]), CellText(before[k]))
  }

  lemma KeepsTransitive(a: map<string, Cell>, b: map<string, Cell>, c: map<string, Cell>)
    requires Keeps(a, b) && Keeps(b, c)
    ensures Keeps(a, c)
  {
    forall k | k in a ensures k in c && StartsWith(CellText(c[k]), CellText(a[k])) {
      assert CellText(c[k])[..|CellText(b[k])|] == CellText(b[k]);
    }
  }

  /** The text a cell holds for `data`: contained in it, ignoring case. */
  predicate Records(fields: map<string, Cell>, field: string, data: string) {
    data != "" && field in fields && fields[field].Str? && Contains(Lower(fields[field].s), Lower(data))
  }

  lemma KeepsRecords(a: map<string, Cell>, b: map<string, Cell>, field: string, data: string)
    requires Keeps(a, b) && Records(a, field, data) && NoNumbers(b)
    ensures Records(b, field, data)
  {
    var s := a[field].s;
    assert CellText(a[field]) == s;
    var i :| 0 <= i <= |Lower(s)| - |Lower(data)| && OccursAt(Lower(s), Lower(data), i);
    assert |CellText(b[field])| >= |s| > 0;
    var t := b[field].s;
    assert CellText(b[field]) == t;
    assert t == s + t[|s|..];
    ContainsExtended(s, t[|s|..], Lower(data));
  }

  /**
   * Merging a field over a group keeps everything already there, and
   * afterwards every member's non-empty value for that field is contained in
   * it (ignoring case), unless the field is protected or has an empty name.
   */
  lemma {:induction false} MergeFieldKeepsAll(fields: map<string, Cell>, config: CsvConfig, f: string, g: seq<Comp>)
    requires NoNumbers(fields)
    requires forall i :: 0 <= i < |g| ==> FieldDefined(g[i], f)
    ensures Keeps(fields, MergeField(fields, config, f, g))
    ensures f !in config.protectedFields && f != "" ==>
              forall i :: 0 <= i < |g| && Field(g[i], f) != "" ==> Records(MergeField(fields, config, f, g), f, Field(g[i], f))
    decreases |g|
  {
    if g != [] {
      var n := |g| - 1;
      var prev := MergeField(fields, config, f, g[..n]);
      var r := MergeField(fields, config, f, g);
      MergeFieldKeepsAll(fields, config, f, g[..n]);
      UpdatedExtends(prev, config, f, Field(g[n], f));
      assert Keeps(prev, r);
      KeepsTransitive(fields, prev, r);
      if f !in config.protectedFields && f != "" {
        forall i | 0 <= i < |g| && Field(g[i], f) != "" ensures Records(r, f, Field(g[i], f)) {
          if i < n {
            assert g[..n][i] == g[i];
            KeepsRecords(prev, r, f, Field(g[i], f));
          }
        }
      }
    }
  }

  /**
   * `updateFields`' merging phase loses nothing: every key keeps its value as
   * a prefix, and every member's non-empty value for every unprotected,
   * named default field ends up contained in that field (ignoring case).
   */
  lemma {:induction false} MergeFieldsKeepsAll(fields: map<string, Cell>, config: CsvConfig, fs: seq<string>, g: seq<Comp>)
    requires NoNumbers(fields)
    requires forall i, k :: 0 <= i < |g| && 0 <= k < |fs| ==> FieldDefined(g[i], fs[k])
    ensures Keeps(fields, MergeFields(fields, config, fs, g))
    ensures forall i, k :: 0 <= i < |g| && 0 <= k < |fs| && fs[k] !in config.protectedFields && fs[k] != "" && Field(g[i], fs[k]) != "" ==>
              Records(MergeFields(fields, config, fs, g), fs[k], Field(g[i], fs[k]))
    decreases |fs|
  {
    if fs != [] {
      var n := |fs| - 1;
      var prev := MergeFields(fields, config, fs[..n], g);
      var r := MergeFields(fields, config, fs, g);
      MergeFieldsKeepsAll(fields, config, fs[..n], g);
      MergeFieldKeepsAll(prev, config, fs[n], g);
      KeepsTransitive(fields, prev, r);
      forall i, k | 0 <= i < |g| && 0 <= k < |fs| && fs[k] !in config.protectedFields && fs[k] != "" && Field(g[i], fs[k]) != ""
        ensures Records(r, fs[k], Field(g[i], fs[k]))
      {
        if k < n {
          assert fs[..n][k] == fs[k];
          KeepsRecords(prev, r, fs[k], Field(g[i], fs[k]));
        }
      }
    }
  }

  /** `" ".join([c.getRef() for c in components])` */
  function RefsText(g: seq<Comp>): string {
    Join(Sorting.Map(g, Ref), ' ')
  }

  /** No reference contains a space. */
  predicate SpaceFreeRefs(g: seq<Comp>) {
    forall i, k :: 0 <= i < |g| && 0 <= k < |Ref(g[i])| ==> Ref(g[i])[k] != ' '
  }

  /** Splitting the References column on spaces gives back the members' references, when none contains a space. */
  lemma RefsTextRoundTrip(g: seq<Comp>)
    requires g != [] && SpaceFreeRefs(g)
    ensures SplitOn(RefsText(g), ' ') == Sorting.Map(g, Ref)
  {
    var refs := Sorting.Map(g, Ref);
    SplitOnJoin(refs, ' ');
  }

  /**
   * The columns `updateFields` sets last, from the group as a whole and its
   * first member: references, quantity, value, part, description, datasheet
   * and the footprint without its library prefix.
   */
  function WithGroupColumns(fields: map<string, Cell>, g: seq<Comp>): map<string, Cell>
    requires g != [] && Linked(g[0])
    requires forall i :: 0 <= i < |g| ==> FieldDefined(g[i], "Notes")
  {
    fields["References" := Str(RefsText(g))]
          ["Quantity" := CountCell(g)]
          ["Value" := Str(Value(g[0]))]
          ["Part" := Str(PartName(g[0]))]
          ["Description" := Str(Description(g[0]))]
          ["Datasheet" := Str(Datasheet(g[0]))]
          ["Footprint" := Str(AfterLastColon(Footprint(g[0])))]
  }

  /** `updateFields()` on values. */
  function Harmonized(fields: map<string, Cell>, config: CsvConfig, g: seq<Comp>): map<string, Cell>
    requires g != [] && Linked(g[0])
    requires forall i :: 0 <= i < |g| ==> FieldDefined(g[i], "Notes")
    requires forall i, k :: 0 <= i < |g| && 0 <= k < |config.defaults| ==> FieldDefined(g[i], config.defaults[k])
    requires NoNumbers(fields)
  {
    WithGroupColumns(MergeFields(fields, config, config.defaults, g), g)
  }
}
