/**
 * `ComponentGroup`: one BOM line, a list of interchangeable components plus
 * the columns merged from them, and `groupComponents`, which builds the BOM
 * lines from a list of components.
 */
module ComponentGroups {
  import opened Text
  import opened Comps
  import opened GreedyGrouping
  import opened Grouping
  import NaturalSort
  import Sorting

  /** `any([c.isFitted() for c in g])` */
  function AnyFitted(g: seq<Comp>): (r: bool)
    requires forall i :: 0 <= i < |g| ==> FieldDefined(g[i], "Notes")
    ensures r <==> exists i :: 0 <= i < |g| && IsFitted(g[i])
    decreases |g|
  {
    if g == [] then false
    else
      var rest := AnyFitted(g[1..]);
      assert forall i :: 1 <= i < |g| ==> g[i] == g[1..][i - 1];
      IsFitted(g[0]) || rest
  }

  /**
   * When the members are all fitted or all not (as in every group of equal
   * components), the group is fitted exactly when its quantity is not "0".
   */
  lemma FittedIffCounted(g: seq<Comp>)
    requires g != [] && forall i :: 0 <= i < |g| ==> FieldDefined(g[i], "Notes")
    requires forall i :: 0 <= i < |g| ==> IsFitted(g[i]) == IsFitted(g[0])
    ensures AnyFitted(g) <==> CountCell(g) != Str("0")
  {
    if IsFitted(g[0]) {
      assert forall i :: 0 <= i < |g| ==> IsFitted(g[i]);
      assert CountCell(g) == Num(|g|);
    } else {
      assert forall i :: 0 <= i < |g| ==> !IsFitted(g[i]);
      assert CountCell(g) == Str("0");
    }
  }

  class ComponentGroup {
    var components: seq<Comp>
    /** The columns loaded from the netlist. */
    var fields: map<string, Cell>
    /** The columns loaded from a CSV file. */
    var csvFields: map<string, Cell>
    const config: CsvConfig
    const compareValues: (string, string) -> bool

    constructor (config: CsvConfig, compareValues: (string, string) -> bool)
      ensures this.config == config && this.compareValues == compareValues
      ensures components == []
      ensures fields == FromKeys(config.defaults) && csvFields == FromKeys(config.defaults)
    {
      this.config := config;
      this.compareValues := compareValues;
      components := [];
      fields := FromKeys(config.defaults);
      csvFields := FromKeys(config.defaults);
    }

    /** `getField(field)`: the column's text, "" when it is absent or falsy. */
    function GetField(field: string): (r: string)
      reads this
      ensures r != "" <==> field in fields && Truthy(fields[field])
      ensures r != "" ==> r == CellText(fields[field])
    {
      if field !in fields then ""
      else if !Truthy(fields[field]) then ""
      else CellText(fields[field])
    }

    /** `getCSVField(field)`: as `getField` on the CSV columns, but "" for every protected column. */
    function GetCSVField(field: string): (r: string)
      reads this
      ensures field in config.protectedFields ==> r == ""
      ensures r != "" <==> field !in config.protectedFields && field in csvFields && Truthy(csvFields[field])
      ensures r != "" ==> r == CellText(csvFields[field])
    {
      if field in config.protectedFields then ""
      else if field !in csvFields then ""
      else if !Truthy(csvFields[field]) then ""
      else CellText(csvFields[field])
    }

    /**
     * `getHarmonizedField(field)`: protected columns come from the netlist
     * only; otherwise netlist data takes preference, and the CSV value fills
     * in where the netlist has none.
     */
    function GetHarmonizedField(field: string): (r: string)
      reads this
      ensures field in config.protectedFields ==> r == GetField(field)
      ensures field !in config.protectedFields && GetField(field) != "" ==> r == GetField(field)
      ensures field !in config.protectedFields && GetField(field) == "" ==> r == GetCSVField(field)
    {
      if field in config.protectedFields then GetField(field)
      else if GetField(field) != "" then GetField(field)
      else if GetCSVField(field) != "" then GetCSVField(field)
      else ""
    }

    /**
     * `compareCSVLine(line)`: a line matches when it shows, in every match
     * column, the text this group holds there. A line lacking a match column
     * never matches, and neither does a column holding None or a number (the
     * quantity): neither ever equals the line's text, not even "".
     */
    function CompareCSVLine(line: map<string, string>): (r: bool)
      reads this
      ensures r ==> forall k :: 0 <= k < |config.matchFields| ==>
                      && config.matchFields[k] in line && config.matchFields[k] in fields
                      && fields[config.matchFields[k]] == Str(line[config.matchFields[k]])
                      && GetField(config.matchFields[k]) == line[config.matchFields[k]]
      ensures (forall k :: 0 <= k < |config.matchFields| ==>
                 && config.matchFields[k] in line && config.matchFields[k] in fields
                 && fields[config.matchFields[k]].Str? && GetField(config.matchFields[k]) == line[config.matchFields[k]])
              ==> r
      ensures (exists k :: 0 <= k < |config.matchFields| && config.matchFields[k] !in fields) ==> !r
      ensures (exists k :: 0 <= k < |config.matchFields| && config.matchFields[k] in fields
                             && !fields[config.matchFields[k]].Str?) ==> !r
    {
      forall k :: 0 <= k < |config.matchFields| ==>
        config.matchFields[k] in line && config.matchFields[k] in fields && fields[config.matchFields[k]] == Str(line[config.matchFields[k]])
    }

    /** `getCount()` */
    method GetCount() returns (r: Cell)
      requires forall i :: 0 <= i < |components| ==> FieldDefined(components[i], "Notes")
      ensures r == CountCell(components)
    {
      for i := 0 to |components|
        invariant forall k :: 0 <= k < i ==> Comps.IsFitted(components[k])
      {
        if !Comps.IsFitted(components[i]) {
          return Str("0");
        }
      }
      return Num(|components|);
    }

    /** `matchComponent(c)`: an empty group takes anything, otherwise `c` must equal the first member. */
    function MatchComponent(c: Comp): (r: bool)
      reads this
      requires components != [] ==> EqualDefined(c, components[0], compareValues)
      ensures r <==> Matches(components, c, CompEq(compareValues))
    {
      components == [] || Equal(c, components[0], compareValues)
    }

    /**
     * `containsComponent(c)`: some member has the reference of `c`. The
     * source's early exit on `matchComponent(c) == False` is never taken,
     * since `matchComponent` answers True or None, never False.
     */
    method ContainsComponent(c: Comp) returns (r: bool)
      requires components != [] ==> EqualDefined(c, components[0], compareValues)
      ensures r <==> HasKey(components, Ref, Ref(c))
    {
      for i := 0 to |components|
        invariant forall k :: 0 <= k < i ==> Ref(components[k]) != Ref(c)
      {
        if Ref(components[i]) == Ref(c) {
          return true;
        }
      }
      return false;
    }

    /**
     * `addComponent(c)`: the first member always goes in; a component whose
     * reference is already present is dropped; one equal to the first member
     * is appended; anything else is ignored.
     */
    method AddComponent(c: Comp)
      requires components != [] ==> EqualDefined(c, components[0], compareValues)
      modifies this
      ensures components == AddTo(old(components), c, CompEq(compareValues), Ref)
      ensures fields == old(fields) && csvFields == old(csvFields)
    {
      if |components| == 0 {
        components := components + [c];
      } else {
        var contained := ContainsComponent(c);
        if contained {
          return;
        } else if MatchComponent(c) {
          components := components + [c];
        }
      }
    }

    /** `isFitted()`: some member is fitted. */
    function IsFitted(): (r: bool)
      reads this
      requires forall i :: 0 <= i < |components| ==> FieldDefined(components[i], "Notes")
      ensures r <==> exists i :: 0 <= i < |components| && Comps.IsFitted(components[i])
    {
      AnyFitted(components)
    }

    /** `getRefs()`: the members' references joined by single spaces. */
    function GetRefs(): (r: string)
      reads this
      ensures components != [] && SpaceFreeRefs(components) ==> SplitOn(r, ' ') == Sorting.Map(components, Ref)
    {
      if components != [] && SpaceFreeRefs(components) then
        RefsTextRoundTrip(components);
        RefsText(components)
      else
        RefsText(components)
    }

    /** `sortComponents()`: members in natural order of reference, a permutation of the old ones. */
    method SortComponents()
      modifies this
      ensures components == SortMembers(old(components))
      ensures multiset(components) == multiset(old(components))
      ensures Sorting.SortedByKey(components, RefKey, NaturalSort.KeyLt)
      ensures fields == old(fields) && csvFields == old(csvFields)
    {
      NaturalSort.KeyLtIsStrictOrder();
      Sorting.SortByKeySorted(components, RefKey, NaturalSort.KeyLt);
      Sorting.SortByKeyPermutes(components, RefKey, NaturalSort.KeyLt);
      components := SortMembers(components);
    }

    /** `updateField(field, fieldData)` */
    method UpdateField(field: string, data: string)
      requires UpdateFieldDefined(fields, config, field, data)
      modifies this
      ensures fields == Updated(old(fields), config, field, data)
      ensures components == old(components) && csvFields == old(csvFields)
    {
      if field in config.protectedFields {
        return;
      }
      if field == "" {
        return;
      } else if data == "" {
        return;
      } else if field !in fields || fields[field] == Null || fields[field] == Str("") {
        fields := fields[field := Str(data)];
      } else if Contains(Lower(fields[field].s), Lower(data)) {
        return;
      } else {
        fields := fields[field := Str(fields[field].s + " " + data)];
      }
    }

    /** The inner loop of `updateFields`: column `f` merged from every member in turn. */
    method MergeColumn(f: string)
      requires NoNumbers(fields)
      requires forall i :: 0 <= i < |components| ==> FieldDefined(components[i], f)
      modifies this
      ensures components == old(components) && csvFields == old(csvFields)
      ensures fields == MergeField(old(fields), config, f, components)
    {
      for i := 0 to |components|
        invariant components == old(components) && csvFields == old(csvFields)
        invariant fields == MergeField(old(fields), config, f, components[..i])
      {
        UpdateField(f, Comps.Field(components[i], f));
        assert components[..i + 1][..i] == components[..i];
      }
      assert components[..|components|] == components;
    }

    /** The end of `updateFields`: the columns set from the whole group and from its first member. */
    method SetGroupColumns()
      requires components != [] && Linked(components[0])
      requires forall i :: 0 <= i < |components| ==> FieldDefined(components[i], "Notes")
      modifies this
      ensures components == old(components) && csvFields == old(csvFields)
      ensures fields == WithGroupColumns(old(fields), components)
    {
      fields := fields["References" := Str(GetRefs())];
      var quantity := GetCount();
      fields := fields["Quantity" := quantity];
      fields := fields["Value" := Str(Value(components[0]))];
      fields := fields["Part" := Str(PartName(components[0]))];
      fields := fields["Description" := Str(Description(components[0]))];
      fields := fields["Datasheet" := Str(Datasheet(components[0]))];
      fields := fields["Footprint" := Str(AfterLastColon(Footprint(components[0])))];
    }

    /**
     * `updateFields()`: every default column merged from every member, then
     * the group-wide columns set from the group and its first member.
     */
    method UpdateFields()
      requires components != [] && Linked(components[0])
      requires forall i :: 0 <= i < |components| ==> FieldDefined(components[i], "Notes")
      requires forall i, k :: 0 <= i < |components| && 0 <= k < |config.defaults| ==> FieldDefined(components[i], config.defaults[k])
      requires NoNumbers(fields)
      modifies this
      ensures components == old(components) && csvFields == old(csvFields)
      ensures fields == Harmonized(old(fields), config, components)
    {
      ghost var start := fields;
      var fs := config.defaults;
      for k := 0 to |fs|
        invariant components == old(components) && csvFields == old(csvFields)
        invariant fields == MergeFields(start, config, fs[..k], components)
      {
        MergeColumn(fs[k]);
        assert fs[..k + 1][..k] == fs[..k];
      }
      assert fs[..|fs|] == fs;
      SetGroupColumns();
    }

    /** `getCSVRow(columns)` */
    function CsvRow(columns: seq<string>): (r: seq<string>)
      reads this
      ensures |r| == |columns| && forall k :: 0 <= k < |columns| ==> r[k] == GetCSVField(columns[k])
    {
      seq(|columns|, k reads this requires 0 <= k < |columns| => GetCSVField(columns[k]))
    }

    /** `getKicadRow(columns)` */
    function KicadRow(columns: seq<string>): (r: seq<string>)
      reads this
      ensures |r| == |columns| && forall k :: 0 <= k < |columns| ==> r[k] == GetField(columns[k])
    {
      seq(|columns|, k reads this requires 0 <= k < |columns| => GetField(columns[k]))
    }

    /** `getHarmonizedRow(columns)` */
    function HarmonizedRow(columns: seq<string>): (r: seq<string>)
      reads this
      ensures |r| == |columns| && forall k :: 0 <= k < |columns| ==> r[k] == GetHarmonizedField(columns[k])
    {
      seq(|columns|, k reads this requires 0 <= k < |columns| => GetHarmonizedField(columns[k]))
    }
  }

  predicate Distinct(made: seq<ComponentGroup>) {
    forall j, k :: 0 <= j < k < |made| ==> made[j] != made[k]
  }

  /** A group the grouping loop is filling: configured, columns still empty, holding `members`. */
  ghost predicate Filling(g: ComponentGroup, config: CsvConfig, compareValues: (string, string) -> bool, members: seq<Comp>)
    reads g
  {
    && g.config == config && g.compareValues == compareValues
    && g.fields == FromKeys(config.defaults) && g.csvFields == FromKeys(config.defaults)
    && g.components == members
  }

  /** The search of the grouping loop: the first group `c` matches, or the number of groups. */
  method FindGroup(made: seq<ComponentGroup>, c: Comp, compareValues: (string, string) -> bool, ghost prev: seq<seq<Comp>>)
    returns (j: nat)
    requires Linked(c) && |made| == |prev|
    requires forall k :: 0 <= k < |made| ==> made[k].compareValues == compareValues && made[k].components == prev[k]
    requires forall k :: 0 <= k < |prev| ==> prev[k] != [] && Linked(prev[k][0])
    ensures j == FirstMatch(prev, c, CompEq(compareValues))
  {
    j := 0;
    while j < |made| && !made[j].MatchComponent(c)
      invariant 0 <= j <= |made|
      invariant forall k :: 0 <= k < j ==> !Matches(prev[k], c, CompEq(compareValues))
    {
      j := j + 1;
    }
  }

  /** `c` joins the group at index `j`, the first one it matches. */
  method AddToGroup(made: seq<ComponentGroup>, j: nat, c: Comp, config: CsvConfig, compareValues: (string, string) -> bool,
                    ghost prev: seq<seq<Comp>>)
    requires Linked(c) && |made| == |prev| && Distinct(made)
    requires j < |made| && j == FirstMatch(prev, c, CompEq(compareValues))
    requires forall k :: 0 <= k < |made| ==> Filling(made[k], config, compareValues, prev[k])
    requires prev[j] != [] && Linked(prev[j][0])
    modifies made[j]
    ensures forall k :: 0 <= k < |made| ==> Filling(made[k], config, compareValues, Place(prev, c, CompEq(compareValues), Ref)[k])
  {
    made[j].AddComponent(c);
  }

  /** `c` matches no group and starts a new one. */
  method NewGroup(made: seq<ComponentGroup>, c: Comp, config: CsvConfig, compareValues: (string, string) -> bool,
                  ghost prev: seq<seq<Comp>>)
    returns (r: seq<ComponentGroup>)
    requires |made| == |prev| && Distinct(made)
    requires |made| == FirstMatch(prev, c, CompEq(compareValues))
    requires forall k :: 0 <= k < |made| ==> Filling(made[k], config, compareValues, prev[k])
    ensures |r| == |made| + 1 && r[..|made|] == made && fresh(r[|made|]) && Distinct(r)
    ensures forall k :: 0 <= k < |r| ==> Filling(r[k], config, compareValues, Place(prev, c, CompEq(compareValues), Ref)[k])
  {
    var g := new ComponentGroup(config, compareValues);
    g.AddComponent(c);
    r := made + [g];
  }

  /** One step of the grouping loop: `c` goes into the first group it matches, or starts a new one. */
  method PlaceComponent(made: seq<ComponentGroup>, c: Comp, config: CsvConfig, compareValues: (string, string) -> bool,
                        ghost prev: seq<seq<Comp>>)
    returns (r: seq<ComponentGroup>, ghost next: seq<seq<Comp>>)
    requires Linked(c) && |made| == |prev| && Distinct(made)
    requires forall k :: 0 <= k < |made| ==> Filling(made[k], config, compareValues, prev[k])
    requires forall k :: 0 <= k < |prev| ==> prev[k] != [] && Linked(prev[k][0])
    modifies made
    ensures next == Place(prev, c, CompEq(compareValues), Ref)
    ensures |r| == |next| && Distinct(r)
    ensures forall k :: 0 <= k < |r| ==> r[k] in made || fresh(r[k])
    ensures forall k :: 0 <= k < |r| ==> Filling(r[k], config, compareValues, next[k])
    ensures forall k :: 0 <= k < |next| ==> next[k] != [] && Linked(next[k][0])
  {
    next := Place(prev, c, CompEq(compareValues), Ref);
    PlaceKeepsHeads(prev, c, CompEq(compareValues), Ref);
    var j := FindGroup(made, c, compareValues, prev);
    if j < |made| {
      AddToGroup(made, j, c, config, compareValues, prev);
      r := made;
    } else {
      r := NewGroup(made, c, config, compareValues, prev);
    }
  }

  /** The grouping loop of `groupComponents`: one new group per greedy group, holding exactly its members. */
  method GreedyGroupsOf(components: seq<Comp>, config: CsvConfig, compareValues: (string, string) -> bool)
    returns (made: seq<ComponentGroup>)
    requires AllLinked(components)
    ensures |made| == |GreedyGroups(components, compareValues)| && Distinct(made)
    ensures forall j :: 0 <= j < |made| ==> fresh(made[j])
    ensures forall j :: 0 <= j < |made| ==> Filling(made[j], config, compareValues, GreedyGroups(components, compareValues)[j])
  {
    ghost var groups: seq<seq<Comp>> := [];
    made := [];
    for i := 0 to |components|
      invariant groups == Greedy(components[..i], CompEq(compareValues), Ref)
      invariant |made| == |groups| && Distinct(made)
      invariant forall j :: 0 <= j < |made| ==> fresh(made[j])
      invariant forall j :: 0 <= j < |made| ==> Filling(made[j], config, compareValues, groups[j])
      invariant forall j :: 0 <= j < |groups| ==> groups[j] != [] && Linked(groups[j][0])
    {
      GreedyStep(components, i, CompEq(compareValues), Ref);
      made, groups := PlaceComponent(made, components[i], config, compareValues, groups);
    }
    assert components[..|components|] == components;
  }

  /** A finished BOM line: non-empty, all members bound, its columns merged from them. */
  ghost predicate Built(g: ComponentGroup, config: CsvConfig)
    reads g
  {
    && g.config == config && g.csvFields == FromKeys(config.defaults)
    && g.components != [] && AllLinked(g.components)
    && g.fields == Harmonized(FromKeys(config.defaults), config, g.components)
  }

  /** A group holding `members` with columns `fields`, its CSV columns still empty. */
  ghost predicate Holds(g: ComponentGroup, config: CsvConfig, members: seq<Comp>, fields: map<string, Cell>)
    reads g
  {
    g.config == config && g.csvFields == FromKeys(config.defaults) && g.components == members && g.fields == fields
  }

  /** Sorting the members of a group keeps it non-empty and bound. */
  lemma SortMembersLinked(g: seq<Comp>)
    requires g != [] && AllLinked(g)
    ensures SortMembers(g) != [] && AllLinked(SortMembers(g))
  {
    Sorting.SortByKeyPermutes(g, RefKey, NaturalSort.KeyLt);
    QuantityPermutation(g, SortMembers(g));
  }

  /** `sorted` is `members` sorted, non-empty and bound, and `fields` are the columns merged from it. */
  ghost predicate Finishes(config: CsvConfig, members: seq<Comp>, sorted: seq<Comp>, fields: map<string, Cell>) {
    && sorted == SortMembers(members) && sorted != [] && AllLinked(sorted)
    && fields == Harmonized(FromKeys(config.defaults), config, sorted)
  }

  lemma AllSortedLinked(greedy: seq<seq<Comp>>)
    requires forall k :: 0 <= k < |greedy| ==> greedy[k] != [] && AllLinked(greedy[k])
    ensures forall k :: 0 <= k < |greedy| ==> SortMembers(greedy[k]) != [] && AllLinked(SortMembers(greedy[k]))
  {
    forall k | 0 <= k < |greedy| ensures SortMembers(greedy[k]) != [] && AllLinked(SortMembers(greedy[k])) {
      SortMembersLinked(greedy[k]);
    }
  }

  /** For each greedy group, the columns `updateFields` gives it once its members are sorted. */
  ghost function MergedColumns(config: CsvConfig, greedy: seq<seq<Comp>>): (r: seq<map<string, Cell>>)
    requires forall k :: 0 <= k < |greedy| ==> greedy[k] != [] && AllLinked(greedy[k])
    ensures |r| == |greedy|
    ensures forall k :: 0 <= k < |greedy| ==> Finishes(config, greedy[k], SortMembers(greedy[k]), r[k])
  {
    AllSortedLinked(greedy);
    seq(|greedy|, k requires 0 <= k < |greedy| && SortMembers(greedy[k]) != [] && AllLinked(SortMembers(greedy[k])) =>
                    Harmonized(FromKeys(config.defaults), config, SortMembers(greedy[k])))
  }

  /** One group of the second loop of `groupComponents`: members sorted, then columns merged. */
  method FinishGroup(g: ComponentGroup, config: CsvConfig, compareValues: (string, string) -> bool,
                     ghost members: seq<Comp>, ghost sorted: seq<Comp>, ghost fields: map<string, Cell>)
    requires Filling(g, config, compareValues, members) && Finishes(config, members, sorted, fields)
    modifies g
    ensures Holds(g, config, sorted, fields)
  {
    g.SortComponents();
    g.UpdateFields();
  }

  /** One step of the second loop of `groupComponents`: the group at index `j` is finished, the others keep their state. */
  method FinishAt(made: seq<ComponentGroup>, j: nat, config: CsvConfig, compareValues: (string, string) -> bool,
                  ghost greedy: seq<seq<Comp>>, ghost sorted: seq<seq<Comp>>, ghost done: seq<map<string, Cell>>)
    requires j < |made| == |greedy| == |sorted| == |done| && Distinct(made)
    requires forall k :: 0 <= k < j ==> Holds(made[k], config, sorted[k], done[k])
    requires forall k :: j <= k < |made| ==> Filling(made[k], config, compareValues, greedy[k])
    requires Finishes(config, greedy[j], sorted[j], done[j])
    modifies made[j]
    ensures forall k :: 0 <= k < j + 1 ==> Holds(made[k], config, sorted[k], done[k])
    ensures forall k :: j + 1 <= k < |made| ==> Filling(made[k], config, compareValues, greedy[k])
  {
    FinishGroup(made[j], config, compareValues, greedy[j], sorted[j], done[j]);
  }

  /** The second loop of `groupComponents`: every group finished in turn. */
  method SortAndUpdate(made: seq<ComponentGroup>, config: CsvConfig, compareValues: (string, string) -> bool,
                       ghost greedy: seq<seq<Comp>>, ghost sorted: seq<seq<Comp>>, ghost done: seq<map<string, Cell>>)
    requires |made| == |greedy| == |sorted| == |done| && Distinct(made)
    requires forall j :: 0 <= j < |made| ==> Filling(made[j], config, compareValues, greedy[j])
    requires forall j :: 0 <= j < |made| ==> Finishes(config, greedy[j], sorted[j], done[j])
    modifies made
    ensures forall k :: 0 <= k < |made| ==> Holds(made[k], config, sorted[k], done[k])
  {
    for j := 0 to |made|
      invariant forall k :: 0 <= k < j ==> Holds(made[k], config, sorted[k], done[k])
      invariant forall k :: j <= k < |made| ==> Filling(made[k], config, compareValues, greedy[k])
    {
      FinishAt(made, j, config, compareValues, greedy, sorted, done);
    }
  }

  /**
   * The final sort of `groupComponents`, stable, by (prefix, value) of each
   * group's first member; the key of each group is computed once and the
   * indices are sorted by it.
   */
  method SortGroups(made: seq<ComponentGroup>, ghost members: seq<seq<Comp>>)
    returns (groups: seq<ComponentGroup>, ghost order: seq<nat>)
    requires |members| == |made| && forall k :: 0 <= k < |made| ==> made[k].components == members[k]
    ensures |groups| == |made| && |order| == |made|
    ensures forall m :: 0 <= m < |groups| ==> order[m] < |made| && groups[m] == made[order[m]]
    ensures forall m :: 0 <= m < |groups| ==> groups[m].components == Sorting.SortByKey(members, GroupKey, GroupKeyLt)[m]
  {
    var keys: seq<seq<string>> := [];
    for k := 0 to |made|
      invariant |keys| == k && forall t :: 0 <= t < k ==> keys[t] == GroupKey(members[t])
    {
      keys := keys + [GroupKey(made[k].components)];
    }
    var sorted := Sorting.SortIndices(keys, [], GroupKeyLt);
    Sorting.SortIndicesPicks(members, keys, GroupKey, GroupKeyLt, [], []);
    groups := seq(|made|, m requires 0 <= m < |sorted| && sorted[m] < |made| => made[sorted[m]]);
    order := sorted;
  }

  /**
   * `groupComponents(components)` once the components to group are chosen:
   * one fresh group per line of `Grouping.Grouped`, in that order, holding
   * exactly that line's members, with its columns merged as `updateFields`
   * does and its CSV columns untouched.
   */
  method GroupComponents(components: seq<Comp>, config: CsvConfig, compareValues: (string, string) -> bool)
    returns (groups: seq<ComponentGroup>)
    requires AllLinked(components)
    ensures |groups| == |Grouped(components, compareValues)|
    ensures forall m :: 0 <= m < |groups| ==> fresh(groups[m]) && Built(groups[m], config)
    ensures forall m :: 0 <= m < |groups| ==> groups[m].components == Grouped(components, compareValues)[m]
  {
    var made := GreedyGroupsOf(components, config, compareValues);
    ghost var greedy := GreedyGroups(components, compareValues);
    GreedyGroupsShape(components, compareValues);
    ghost var members := Sorting.Map(greedy, SortMembers);
    ghost var done := MergedColumns(config, greedy);
    SortAndUpdate(made, config, compareValues, greedy, members, done);
    ghost var order;
    groups, order := SortGroups(made, members);
    forall m | 0 <= m < |groups| ensures fresh(groups[m]) && Built(groups[m], config) {
      assert Holds(made[order[m]], config, members[order[m]], done[order[m]]);
    }
  }
}
