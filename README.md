# KiCad BOM tools: netlist model, BOM grouping and the PNP cross-check

This project models two Python tools that turn KiCad schematic exports into
fabrication data, and proves properties of the model.

`bomfunk_netlist_reader.py` reads a KiCad generic netlist (an XML file) into
a tree of `xmlElement` nodes. As the tree is built, the reader keeps flat
lists of the `comp`, `libpart`, `net` and `library` elements. When the
document ends, it binds every component to its library part. A BOM script
then asks the netlist for:

- the "interesting" components, meaning those no blacklist excludes;
- groups of equal components, one per BOM line, with their columns merged
  from the members.

`check_pnp.py` cross-checks a bill of materials (a CSV file) against a
pick-and-place file (a KiCad `.pos` file). It reports:

- quantity mismatches;
- parts marked DNF ("do not fit") that are placed anyway;
- parts missing from either file;
- footprint and value disagreements.

It passes the number of issues found to `sys.exit`; the operating system keeps
that number modulo 256 as the process status.

The model is organised as follows.

- **Tree and lookups.**
  - `XmlTree` holds the tree as a value and models the recursive lookup `get`.
  - `XmlArena.Document` holds the same elements as a mutable arena, with child and parent handles.
  - `KicadNetlist.Netlist` is the builder. It keeps the cursor, the element lists and the library-part bindings.
- **Component and library-part views.**
  - `Views`, `LibParts` and `Comps` are the read-only accessors over a subtree.
  - `Comps` also holds the fitted test and the equality `==` that grouping uses.
- **Exclusion filter.** `Exclusion` models the blacklists of `getInterestingComponents`.
- **Grouping.**
  - `GreedyGrouping` states the grouping loop generically.
  - `Grouping` specifies on values the groups, their order, the quantity and the field merging.
  - `ComponentGroups.ComponentGroup` is the mutable BOM line. `ComponentGroups.GroupComponents` builds the lines.
- **Shared helpers.** `NaturalSort` models `natural_sort`. `Sorting` models Python's stable `sorted` and list `<`. `Text` holds the string helpers.
- **Cross-check.** `CheckPnp` models `check_pnp.py`:
  - the `.pos` line loop;
  - the BOM row loop;
  - the reconciliation loops;
  - the report and exit status.
  Dictionaries keep Python's insertion order: each is a list of keys together with a map.

Python's exceptions become error results:

- a lookup `get` cannot answer;
- a malformed line;
- a row longer than the header;
- a missing column;
- an unreadable quantity.

Where the Python dereferences a library part that may be `None`, the model
requires that part to be bound.

## Model

| member | source | states |
|---|---|---|
| XmlTree.GetChild | bomfunk_netlist_reader.py:215-223 | None exactly when no child has the name; otherwise the first child with that name |
| XmlTree.NamedPositions | bomfunk_netlist_reader.py:227-233 | the positions of the children with the name: each in range and named, strictly increasing, and none of the named positions is missed |
| XmlTree.AllNamedAt | bomfunk_netlist_reader.py:227-233 | the filter keeps exactly the children at those positions, in order |
| XmlTree.GetChildren | bomfunk_netlist_reader.py:225-234 | with no name, every child; with a name, the children of that name in their order and with their multiplicity: entry j is the child at the j-th position of `NamedPositions` |
| XmlTree.Get | bomfunk_netlist_reader.py:236-259 | `get` fails only when an attribute was asked for, and then with a missing-attribute error for the looked-up name and attribute |
| XmlTree.GetIsFirstHit | bomfunk_netlist_reader.py:236-259 | `get` is the first decisive answer of a pre-order walk: an error or non-empty text. An element of the looked-up name answers for its whole subtree. Its children are searched only when its own answer is empty, for example when an `attrmatch` filter failed |
| XmlTree.GetInChildrenIsFirstHit | bomfunk_netlist_reader.py:254-259 | the loop over the children returns the first decisive answer of the children's walks, in order |
| XmlTree.FirstHitAppend | bomfunk_netlist_reader.py:254-257 | the search of a concatenation answers from the first part when that part is decisive, and otherwise from the second |
| XmlTree.GetSucceeds | bomfunk_netlist_reader.py:240-248 | a lookup never raises when it asks for text only, or when every element of that name carries the attribute. A missing attribute raises KeyError, which `except AttributeError` does not catch |
| XmlTree.GetInChildrenSucceeds | bomfunk_netlist_reader.py:254-257 | the same for the loop over the children |
| XmlTree.GetAbsent | bomfunk_netlist_reader.py:259 | a tree with no element of the looked-up name answers "" |
| XmlTree.GetInChildrenAbsent | bomfunk_netlist_reader.py:254-259 | children with no element of that name answer "" |
| XmlArena.Opened | bomfunk_netlist_reader.py:99-104 | a new element: no attributes, no text, no children, the given parent, and it becomes the parent's last child. Every other element is unchanged |
| XmlArena.Document.constructor | bomfunk_netlist_reader.py:648 | an empty document |
| XmlArena.Document.NewRoot | bomfunk_netlist_reader.py:666-667 | a new element with no parent, appended at the next handle |
| XmlArena.Document.AddChild | bomfunk_netlist_reader.py:206-209 | a new element, appended as the last child of `parent`; its handle is returned |
| XmlArena.Document.AddAttribute | bomfunk_netlist_reader.py:187-196 | `addAttribute`/`setAttribute`: only that attribute of that element changes, and a later value replaces an earlier one |
| XmlArena.Document.AddAttributes | bomfunk_netlist_reader.py:967-968 | the loop of `startElement` over the attributes: only that element's map changes, and it becomes the `addAttribute` fold of the pairs |
| XmlArena.Assigned | bomfunk_netlist_reader.py:967-968 | the attribute names after the `addAttribute` calls are the old ones plus every name given |
| XmlArena.AssignedUntouched | bomfunk_netlist_reader.py:967-968 | a name that no pair gives keeps its old value |
| XmlArena.AssignedLastWins | bomfunk_netlist_reader.py:967-968 | a name takes the value of its last `addAttribute` |
| XmlArena.Document.SetChars | bomfunk_netlist_reader.py:198-200 | only the text of that element is replaced |
| XmlArena.Document.AddChars | bomfunk_netlist_reader.py:202-204 | the chunk is appended to the text of that element, and the old text is a prefix of the new one |
| XmlArena.Document.GetParent | bomfunk_netlist_reader.py:211-213 | the parent comes earlier in the document and lists the element as a child |
| XmlArena.Document.ToNode | bomfunk_netlist_reader.py:94-104 | the subtree as a value: the element's name, attributes and text, and child k is the subtree below the k-th child handle, which comes later in the document |
| XmlArena.Document.SubtreeCarries | bomfunk_netlist_reader.py:236-248 | if every element of a name carries an attribute, so does every such element of every subtree |
| XmlArena.Document.WellFormedSubtree | bomfunk_netlist_reader.py:267-269 | in a document whose elements carry the attributes the accessors read, every subtree is a view on which no lookup raises |
| Views.Lookup | bomfunk_netlist_reader.py:236-259 | on a well-formed view, the text `get` returns without raising |
| Views.FieldNames | bomfunk_netlist_reader.py:296-297 | the `name` attribute of each `field` element, in order |
| Views.FieldNamesOf | bomfunk_netlist_reader.py:290-298 | no `fields` child gives no names; otherwise one name per child of the first `fields` child, in order |
| LibParts.LibName | bomfunk_netlist_reader.py:275-276 | the `lib` attribute of the `libpart` element |
| LibParts.PartName | bomfunk_netlist_reader.py:278-279 | the `part` attribute of the `libpart` element |
| LibParts.Description | bomfunk_netlist_reader.py:281-282 | the text of the first `description` element |
| LibParts.Docs | bomfunk_netlist_reader.py:284-285 | the text of the first `docs` element |
| LibParts.Field | bomfunk_netlist_reader.py:287-288 | the text of the first `field` element whose `name` is the given name |
| LibParts.FieldNames | bomfunk_netlist_reader.py:290-298 | no `fields` child gives no names; otherwise name k is the `name` attribute of the k-th child of the first `fields` child |
| LibParts.Datasheet | bomfunk_netlist_reader.py:300-310 | a non-empty Datasheet field wins. Otherwise the docs text is used exactly when it contains "http" or ".pdf" anywhere; if not, "" |
| LibParts.Footprint | bomfunk_netlist_reader.py:312-313 | the Footprint field |
| LibParts.AliasTexts | bomfunk_netlist_reader.py:322-323 | the text of each alias element, in order |
| LibParts.Aliases | bomfunk_netlist_reader.py:315-325 | None exactly when there is no `aliases` child; otherwise the text of each of its children, in order |
| Comps.Ref | bomfunk_netlist_reader.py:455-456 | the `ref` attribute of the `comp` element |
| Comps.Value | bomfunk_netlist_reader.py:422-423 | the text of the first `value` element |
| Comps.PartName | bomfunk_netlist_reader.py:410-411 | the `part` of the `libsource` element |
| Comps.LibName | bomfunk_netlist_reader.py:413-414 | the `lib` of the `libsource` element |
| Comps.OwnField | bomfunk_netlist_reader.py:437 | the component's own field of that name (`libraryToo=False`) |
| Comps.Field | bomfunk_netlist_reader.py:425-440 | the own field when it is non-empty, else the bound library part's field. It is "" exactly when both are empty |
| Comps.FieldNames | bomfunk_netlist_reader.py:442-453 | no `fields` child gives no names; otherwise name k is the `name` attribute of the k-th child of the first `fields` child |
| Comps.OwnFootprint | bomfunk_netlist_reader.py:469 | the component's own `footprint` text |
| Comps.Footprint | bomfunk_netlist_reader.py:468-472 | the own footprint when it is non-empty, else the library part's Footprint field |
| Comps.Datasheet | bomfunk_netlist_reader.py:474-475 | always the bound library part's datasheet |
| Comps.Description | bomfunk_netlist_reader.py:480-481 | always the bound library part's description |
| Comps.AlphaPrefix | bomfunk_netlist_reader.py:399-405 | the longest prefix made of letters |
| Comps.Prefix | bomfunk_netlist_reader.py:397-405 | `getPrefix`: a prefix of the reference, all letters, and followed by a non-letter or by the end |
| Comps.IsFitted | bomfunk_netlist_reader.py:459-466 | not fitted exactly when some DNF marker occurs, in any case, in the value or in the Notes field |
| Comps.ContainsAnyMarked | bomfunk_netlist_reader.py:461-465 | the lower-cased text contains a marker exactly when some window of the text lower-cases to that marker |
| Comps.SameAliasClass | bomfunk_netlist_reader.py:376-378 | true exactly when some alias class holds both names |
| Comps.ComparePartName | bomfunk_netlist_reader.py:368-380 | true exactly when the lower-cased part names are equal, or both lie in one ALIASES class |
| Comps.Equal | bomfunk_netlist_reader.py:382-392 | `__eq__` is defined on bound components and holds between a component and itself |
| Comps.LinkedEqualDefined | bomfunk_netlist_reader.py:382-392 | two bound components can be compared either way round without a lookup failing |
| Comps.EqualReflexive | bomfunk_netlist_reader.py:382-392 | a bound component equals itself |
| Comps.EqualSymmetric | bomfunk_netlist_reader.py:382-392 | when neither is a connector and `compareValues` is symmetric, `c == d` and `d == c` agree |
| Comps.ConnectorExemptionIsOneSided | bomfunk_netlist_reader.py:386-390 | a connector can equal a non-connector whose value differs, while the reverse comparison is false: `==` is not symmetric |
| Comps.EqualSameFitted | bomfunk_netlist_reader.py:392 | equal components have the same fitted state |
| Comps.UpperCaseMarkerNotFitted | bomfunk_netlist_reader.py:459-466 | the value "DNF" marks a part as not fitted, whatever its case |
| Comps.AliasedPartNamesMatch | bomfunk_netlist_reader.py:368-380 | "C" and "C_Small" match in both directions |
| NaturalSort.NonDigitPrefix | bomfunk_netlist_reader.py:32-33 | the leading run of non-digits: maximal, and followed by a digit or by the end |
| NaturalSort.DigitPrefix | bomfunk_netlist_reader.py:32-33 | the leading run of digits: maximal, and followed by a non-digit or by the end |
| NaturalSort.NaturalKey | bomfunk_netlist_reader.py:32-33 | the natural key alternates text and number, starting and ending with text, so a text is never compared with a number; no text chunk holds a digit |
| NaturalSort.ChunkLtIsStrictOrder | bomfunk_netlist_reader.py:32-33 | `<` on key elements is irreflexive and transitive |
| NaturalSort.KeyLtIsStrictOrder | bomfunk_netlist_reader.py:32-33 | `<` on natural keys is irreflexive and transitive |
| NaturalSort.KeyOfR2 | bomfunk_netlist_reader.py:32-33 | the key of "R2" is text "R", number 2, text "" |
| NaturalSort.KeyOfR10 | bomfunk_netlist_reader.py:32-33 | the key of "R10" is text "R", number 10, text "" |
| NaturalSort.NaturalOrderOfDesignators | bomfunk_netlist_reader.py:32-33 | "R2" sorts before "R10" naturally, although plain string order puts "R10" first |
| Sorting.SeqLtIrreflexive | bomfunk_netlist_reader.py:886 | Python's list `<` is irreflexive when the element order is |
| Sorting.SeqLtTransitive | bomfunk_netlist_reader.py:886 | Python's list `<` is transitive when the element order is |
| Sorting.SeqLtIsStrictOrder | bomfunk_netlist_reader.py:886 | list `<` is a strict order whenever the element `<` is |
| Sorting.Insert | bomfunk_netlist_reader.py:571 | inserting adds exactly one element |
| Sorting.SortByKey | bomfunk_netlist_reader.py:571 | `sorted(key=...)` keeps the length |
| Sorting.InsertPermutes | bomfunk_netlist_reader.py:571 | inserting adds the element to the multiset and changes nothing else |
| Sorting.SortByKeyPermutes | bomfunk_netlist_reader.py:571 | sorting yields a permutation of its input |
| Sorting.InsertSorted | bomfunk_netlist_reader.py:571 | inserting into a sorted list keeps it sorted, under a strict order |
| Sorting.SortByKeySorted | bomfunk_netlist_reader.py:571 | the result is sorted: no later element's key is below an earlier one's |
| Sorting.InsertLowerBound | bomfunk_netlist_reader.py:571 | when neither the new key nor any key of the list is below a bound, no key of the result is below it |
| Sorting.InsertWithKey | bomfunk_netlist_reader.py:571 | inserting into a sorted list keeps, for every key, the elements with that key in order, the new one after the old ones |
| Sorting.SortByKeyStable | bomfunk_netlist_reader.py:571 | the sort is stable: for every key, the elements with that key keep their relative order |
| Sorting.Map | bomfunk_netlist_reader.py:567 | a list comprehension: the same length, and f applied at every position |
| Sorting.InsertMapCommutes | bomfunk_netlist_reader.py:886 | inserting then projecting equals projecting then inserting, when the key factors through the projection |
| Sorting.SortMapCommutes | bomfunk_netlist_reader.py:886 | sorting then projecting equals projecting then sorting, when the key factors through the projection |
| Sorting.Indices | bomfunk_netlist_reader.py:886 | the list 0, 1, ..., n-1 |
| Sorting.SortIndices | bomfunk_netlist_reader.py:886 | one index per key |
| Sorting.SortIndicesPicks | bomfunk_netlist_reader.py:886 | sorting the indices by precomputed keys and then picking elements equals sorting the elements by key |
| Text.Lower | check_pnp.py:147 | lower-casing keeps the length |
| Text.LowerSlice | bomfunk_netlist_reader.py:461-465 | lower-casing commutes with taking a slice |
| Text.LowerAppend | bomfunk_netlist_reader.py:583-587 | lower-casing distributes over concatenation |
| Text.ContainsSelf | bomfunk_netlist_reader.py:583 | every string contains itself |
| Text.SkipSpace | check_pnp.py:64 | the first non-whitespace position at or after `i`, with only whitespace skipped |
| Text.SkipSpaceBack | check_pnp.py:64 | the position just past the last non-whitespace character before `j`, with only whitespace skipped |
| Text.Strip | check_pnp.py:64 | `str.strip` never lengthens its input and leaves no whitespace at either end |
| Text.StripRemovesSpace | check_pnp.py:64 | the stripped text is the slice starting at the first non-whitespace character, and only whitespace lies before and after it |
| Text.StripFixed | check_pnp.py:64 | a string with no whitespace at either end is its own strip |
| Text.StripStrip | check_pnp.py:69 | stripping twice is stripping once |
| Text.SplitOn | check_pnp.py:125 | `str.split(sep)` always yields at least one piece |
| Text.JoinExtendFirst | bomfunk_netlist_reader.py:567 | prefixing a character to the first piece prefixes it to the join |
| Text.JoinEmptyFirst | bomfunk_netlist_reader.py:567 | an empty first piece contributes nothing before the first separator |
| Text.JoinSplitOn | check_pnp.py:125 | joining the split pieces with the same separator gives back the string |
| Text.SplitOnSeparated | check_pnp.py:125 | splitting text that contains a separator splits off the piece before it |
| Text.SplitOnPlain | check_pnp.py:125 | a string without the separator splits into itself alone |
| Text.SplitOnJoin | bomfunk_netlist_reader.py:567 | splitting a join of separator-free pieces gives back the pieces, empty ones included |
| Text.SplitWhitespace | check_pnp.py:69 | `re.split('\s+', s)` yields at least one piece, no piece holds whitespace, and a string that neither starts nor ends with whitespace gives only non-empty pieces |
| Text.PiecesNoSpace | check_pnp.py:69 | no piece of a suffix holds whitespace |
| Text.PiecesInnerNonEmpty | check_pnp.py:69 | every piece but the last is non-empty, and so is the first when the suffix starts with a non-whitespace character |
| Text.PiecesLastNonEmpty | check_pnp.py:69 | the last piece is non-empty when the string ends with a non-whitespace character |
| Text.PiecesKeepText | check_pnp.py:69 | the pieces, concatenated, are exactly the non-whitespace characters of the suffix, in order |
| Text.SplitWhitespaceKeepsText | check_pnp.py:69 | splitting on whitespace loses no other character and adds none |
| Text.DecimalString | bomfunk_netlist_reader.py:601 | `str(n)` is all decimal digits with no leading zero (except "0" itself), and reading them back gives n |
| Text.ParseInt | check_pnp.py:127 | `int(s)`: a stripped decimal string gives its value; a leading "+" or "-" before decimal digits gives the value or its negation; anything else fails, so a blank string fails |
| Text.ParseIntDecimalString | check_pnp.py:127 | `int(str(n))` is n, with any whitespace around the digits |
| Text.ParseIntNegative | check_pnp.py:127 | `int("-" + str(n))` is -n |
| Text.StringLtIsStrictOrder | bomfunk_netlist_reader.py:845 | Python's string `<` is irreflexive and transitive |
| Exclusion.MatchesAny | bomfunk_netlist_reader.py:820-833 | the loop over the patterns finds a match exactly when some pattern matches at the start |
| Exclusion.IsExcluded | bomfunk_netlist_reader.py:817-840 | the tests in the code's order: reference, value, footprint, then "Installed" == "NU". The result is the exclusion predicate |
| Exclusion.Keep | bomfunk_netlist_reader.py:813-842 | the loop appends exactly the kept components, in order |
| Exclusion.KeptExactly | bomfunk_netlist_reader.py:817-842 | a component is kept exactly when it is an input and no blacklist fires on it |
| Exclusion.KeptShrinks | bomfunk_netlist_reader.py:817-842 | the filter never adds anything, and it keeps everything when nothing is excluded |
| Exclusion.KeptInOrder | bomfunk_netlist_reader.py:817-842 | the kept components are the passing inputs in their input order: kept component j is the input at an increasing position, and every passing position is used |
| Exclusion.InterestingSortedPermutation | bomfunk_netlist_reader.py:817-847 | the result is sorted by plain string order of references, is a permutation of the kept components, and holds exactly the inputs not excluded |
| Exclusion.TestPointsExcluded | bomfunk_netlist_reader.py:820-823 | a reference "TP" followed by a digit is excluded |
| Exclusion.TestPointNeedsDigit | bomfunk_netlist_reader.py:59 | "TP12" matches the reference blacklist and "TPX1" does not |
| Exclusion.SolderBridgesExcluded | bomfunk_netlist_reader.py:825-828 | any value starting with SOLDER_BRIDGE is excluded |
| Exclusion.WithoutExcluded | bomfunk_netlist_reader.py:758-768 | exactly the names of the set that no `excluded_fields` pattern matches |
| Exclusion.Union | bomfunk_netlist_reader.py:753-755 | exactly the names occurring in some list |
| KicadNetlist.NamedExactly | bomfunk_netlist_reader.py:664-693 | a kind's list holds exactly the elements of that name, in document order |
| KicadNetlist.NamedAppend | bomfunk_netlist_reader.py:672-691 | a new element extends the list of its own name and no other |
| KicadNetlist.NamedSameNames | bomfunk_netlist_reader.py:664-693 | changing attributes, text or children leaves every list as it is |
| KicadNetlist.StateSameNames | bomfunk_netlist_reader.py:660-662 | the builder's invariant survives any change that keeps the element names |
| KicadNetlist.ListsExtended | bomfunk_netlist_reader.py:672-691 | the new last element joins the list of its kind; a `design` element becomes the design |
| KicadNetlist.StateExtended | bomfunk_netlist_reader.py:664-693 | the builder's invariant holds after an element is added and registered |
| KicadNetlist.UnboundComp | bomfunk_netlist_reader.py:334-336 | `comp(element)` views the subtree, with no library part yet |
| KicadNetlist.PartView | bomfunk_netlist_reader.py:267-269 | `libpart(element)` views the subtree |
| KicadNetlist.PartViews | bomfunk_netlist_reader.py:774 | one view per library part, in order |
| KicadNetlist.FirstLinkable | bomfunk_netlist_reader.py:699-710 | the first part, in document order, whose library name equals the component's and whose part name equals the component's or lists it as an alias. None exactly when no part qualifies |
| KicadNetlist.BoundComp | bomfunk_netlist_reader.py:703-709 | the component's view, bound to the chosen part, or unbound when none was chosen |
| KicadNetlist.LinkOf | bomfunk_netlist_reader.py:699-710 | the chosen part is one of the library parts |
| KicadNetlist.FirstLinkableAt | bomfunk_netlist_reader.py:700-710 | a part that qualifies, with no qualifying part before it, is the one the linker picks |
| KicadNetlist.FindPart | bomfunk_netlist_reader.py:700-710 | the inner loop of the linker finds the first qualifying part |
| KicadNetlist.Qualifies | bomfunk_netlist_reader.py:701-709 | one part is tested: the same library, then the exact part name, then an alias |
| KicadNetlist.AliasMatch | bomfunk_netlist_reader.py:716-720 | true exactly when the name is in the alias list |
| KicadNetlist.GetGroupField | bomfunk_netlist_reader.py:892-901 | the first non-empty own field of a member; when there is none, the first member's library part field |
| KicadNetlist.GetGroupFootprint | bomfunk_netlist_reader.py:903-912 | the first non-empty member footprint; "" exactly when every member's footprint is empty |
| KicadNetlist.GetGroupDatasheet | bomfunk_netlist_reader.py:914-928 | the first non-empty member datasheet; "" exactly when every member's datasheet is empty, so also for an empty group |
| KicadNetlist.Netlist.constructor | bomfunk_netlist_reader.py:634-658 | an empty netlist: no elements, no open element, no design, and every list empty |
| KicadNetlist.Netlist.AddElement | bomfunk_netlist_reader.py:664-693 | a new root when nothing is open, otherwise the open element's new last child. It becomes the open element and joins exactly the list of its kind; `design` is replaced by a new design element |
| KicadNetlist.Netlist.StartElement | bomfunk_netlist_reader.py:963-968 | the parser's `startElement`: a new element opened as by `addElement`, joining only its own list, with the attribute map that `addAttribute` builds from the parser's pairs in order |
| KicadNetlist.Netlist.Register | bomfunk_netlist_reader.py:672-691 | the bookkeeping half of `addElement`: the lists grow by the new element of their kind, and the invariant holds |
| KicadNetlist.Netlist.EndElement | bomfunk_netlist_reader.py:722-724 | the open element's parent becomes the open one, and no list changes |
| KicadNetlist.Netlist.AddChars | bomfunk_netlist_reader.py:660-662 | the text is appended to the open element's text, and nothing else changes |
| KicadNetlist.Netlist.Characters | bomfunk_netlist_reader.py:973-977 | a whitespace-only chunk changes nothing; any other chunk is appended to the open element |
| KicadNetlist.Netlist.EndDocument | bomfunk_netlist_reader.py:695-714 | every component is bound to the first qualifying part, or to none, and no list changes |
| KicadNetlist.Netlist.BindAt | bomfunk_netlist_reader.py:699-710 | one step of the linker: component k is bound, and the earlier ones keep their bindings |
| KicadNetlist.Netlist.Components | bomfunk_netlist_reader.py:672-674 | each listed component with the part the linker bound it to |
| KicadNetlist.Netlist.GetVersion | bomfunk_netlist_reader.py:734-745 | the NoDesign error exactly when no `design` element has been read (the AttributeError of `self.design.getChild`); "" when the design has no `sheet` child; otherwise `get("rev")` on the first sheet: the first non-empty `rev` text in pre-order, else "" |
| KicadNetlist.Netlist.GatherComponentFieldUnion | bomfunk_netlist_reader.py:747-768 | exactly the field names of the given components (all of them when none are given) that no excluded-field pattern matches |
| KicadNetlist.Netlist.GatherLibPartFieldUnion | bomfunk_netlist_reader.py:770-788 | exactly the field names of all library parts that no excluded-field pattern matches |
| KicadNetlist.Netlist.GetInterestingComponents | bomfunk_netlist_reader.py:790-847 | the kept components, sorted by plain string order of reference |
| KicadNetlist.Netlist.GroupComponents | bomfunk_netlist_reader.py:850-890 | an empty input means every component. One finished line per group of `Grouping.Grouped`, in that order, holding exactly that group's members |
| GreedyGrouping.AddTo | bomfunk_netlist_reader.py:551-558 | `addComponent` either leaves the group as it is or appends the component |
| GreedyGrouping.FirstMatch | bomfunk_netlist_reader.py:868-872 | the first group the component matches; the number of groups when it matches none |
| GreedyGrouping.AddToKeepsGroup | bomfunk_netlist_reader.py:542-558 | adding a matching component keeps the first member, keeps every later member equal to the first, never duplicates a reference, and leaves the reference present |
| GreedyGrouping.PlaceKeepsWellGrouped | bomfunk_netlist_reader.py:865-877 | placing one component keeps every group non-empty, coherent and free of repeated references |
| GreedyGrouping.PlaceGrows | bomfunk_netlist_reader.py:865-877 | placing adds at most one group, only extends existing groups, and adds no element other than the component |
| GreedyGrouping.PlaceCoversKey | bomfunk_netlist_reader.py:865-877 | after placing, some group holds the component's reference |
| GreedyGrouping.PlaceKeepsCover | bomfunk_netlist_reader.py:865-877 | placing loses no reference already present |
| GreedyGrouping.GreedyStep | bomfunk_netlist_reader.py:865-877 | grouping one more component places it into the grouping of the earlier ones |
| GreedyGrouping.PlaceKeepsHeads | bomfunk_netlist_reader.py:865-877 | every first member is kept, and a new group starts with the component |
| GreedyGrouping.GreedyWellGrouped | bomfunk_netlist_reader.py:865-877 | the grouping loop always yields non-empty, coherent groups without repeated references |
| GreedyGrouping.GreedyMembersFromInput | bomfunk_netlist_reader.py:865-877 | every member of every group is an input component |
| GreedyGrouping.GreedyCoversKeys | bomfunk_netlist_reader.py:865-877 | every input reference turns up in some group: a component is dropped only when its reference is already there |
| Grouping.GreedyGroupsShape | bomfunk_netlist_reader.py:865-877 | the groups are well formed and hold only bound components |
| Grouping.GreedyGroupsProperties | bomfunk_netlist_reader.py:865-877 | every group is non-empty without repeated references, every later member `==` the first, and every input reference is covered |
| Grouping.CoherentQuantity | bomfunk_netlist_reader.py:531-534 | in a coherent group all members share the first's fitted state. The count is "0" exactly when the first is not fitted, and the number of members otherwise |
| Grouping.QuantityPermutation | bomfunk_netlist_reader.py:531-534 | reordering the members changes neither their binding nor the quantity |
| Grouping.SortMembers | bomfunk_netlist_reader.py:570-571 | sorting keeps the number of members |
| Grouping.GroupKeyLtIsStrictOrder | bomfunk_netlist_reader.py:886 | the (prefix, value) order of groups is strict |
| Grouping.GroupedInGroupOrder | bomfunk_netlist_reader.py:884-886 | the returned groups are sorted by the prefix and value of their first member |
| Grouping.GroupedMembers | bomfunk_netlist_reader.py:879-886 | every returned group is a greedy group whose members are in natural reference order |
| Grouping.GroupedQuantity | bomfunk_netlist_reader.py:531-534 | a returned group's quantity is "0" exactly when no member is fitted, and the number of members otherwise |
| Grouping.FromKeys | bomfunk_netlist_reader.py:487-488 | `dict.fromkeys`: exactly the given keys, each None |
| Grouping.CellText | bomfunk_netlist_reader.py:491-493 | `str` of a cell is non-empty exactly when the cell is truthy |
| Grouping.Updated | bomfunk_netlist_reader.py:574-587 | `updateField` leaves every column other than the named one as it was, present or absent |
| Grouping.ContainsExtended | bomfunk_netlist_reader.py:583-587 | text contained in a value stays contained after appending to it |
| Grouping.UpdatedExtends | bomfunk_netlist_reader.py:574-587 | `updateField` changes at most one column, and the old value is a prefix of the new one. Nothing changes for a protected column, an empty name or empty data. Otherwise the column afterwards contains the data, ignoring case |
| Grouping.MergeField | bomfunk_netlist_reader.py:594-596 | merging one column from the members never stores a number |
| Grouping.MergeFields | bomfunk_netlist_reader.py:591-596 | merging every default column never stores a number |
| Grouping.KeepsTransitive | bomfunk_netlist_reader.py:574-587 | keeping earlier text composes across successive merges |
| Grouping.KeepsRecords | bomfunk_netlist_reader.py:583-587 | data already recorded in a column stays recorded |
| Grouping.MergeFieldKeepsAll | bomfunk_netlist_reader.py:594-596 | merging a column loses no earlier text and records every member's non-empty value for that column, ignoring case |
| Grouping.MergeFieldsKeepsAll | bomfunk_netlist_reader.py:591-596 | after the merge loop, every member's non-empty value of every unprotected default column is recorded in it, and nothing earlier is lost |
| Grouping.RefsTextRoundTrip | bomfunk_netlist_reader.py:564-567 | splitting the References column on spaces gives back the members' references, when none contains a space |
| ComponentGroups.AnyFitted | bomfunk_netlist_reader.py:560-561 | true exactly when some member is fitted |
| ComponentGroups.FittedIffCounted | bomfunk_netlist_reader.py:531-534 | when members share their fitted state, the group is fitted exactly when its count is not "0" |
| ComponentGroups.ComponentGroup.constructor | bomfunk_netlist_reader.py:485-488 | no members; both column maps hold every default column, set to None |
| ComponentGroups.ComponentGroup.GetField | bomfunk_netlist_reader.py:490-493 | non-empty exactly when the column is present and truthy, and then it is its text |
| ComponentGroups.ComponentGroup.GetCSVField | bomfunk_netlist_reader.py:495-502 | "" for a protected column; otherwise non-empty exactly when the CSV column is present and truthy |
| ComponentGroups.ComponentGroup.GetHarmonizedField | bomfunk_netlist_reader.py:504-517 | a protected column comes from the netlist; otherwise the netlist text when non-empty, else the CSV text |
| ComponentGroups.ComponentGroup.CompareCSVLine | bomfunk_netlist_reader.py:520-529 | a match means every match column is in the line and the group holds that column as text equal to the line's. A line holding every match column with the group's text matches. A match column the group lacks, or holds as None or as a number, means no match, even against an empty cell |
| ComponentGroups.ComponentGroup.GetCount | bomfunk_netlist_reader.py:531-534 | the loop returns "0" at the first unfitted member, and the number of members otherwise |
| ComponentGroups.ComponentGroup.MatchComponent | bomfunk_netlist_reader.py:537-539 | an empty group takes anything; otherwise the component must `==` the first member |
| ComponentGroups.ComponentGroup.ContainsComponent | bomfunk_netlist_reader.py:542-548 | true exactly when a member has the same reference; the `== False` guard never fires |
| ComponentGroups.ComponentGroup.AddComponent | bomfunk_netlist_reader.py:551-558 | the members become `GreedyGrouping.AddTo` of the old members, and the columns are unchanged |
| ComponentGroups.ComponentGroup.IsFitted | bomfunk_netlist_reader.py:560-561 | true exactly when some member is fitted |
| ComponentGroups.ComponentGroup.GetRefs | bomfunk_netlist_reader.py:564-567 | splitting the result on spaces gives back the members' references, when none contains a space |
| ComponentGroups.ComponentGroup.SortComponents | bomfunk_netlist_reader.py:570-571 | the members become a permutation of the old ones, sorted by the natural key of their reference |
| ComponentGroups.ComponentGroup.UpdateField | bomfunk_netlist_reader.py:574-587 | the columns become `Updated` (see Grouping.UpdatedExtends), and nothing else changes |
| ComponentGroups.ComponentGroup.MergeColumn | bomfunk_netlist_reader.py:594-596 | the inner loop of `updateFields`: one column merged from every member in turn |
| ComponentGroups.ComponentGroup.SetGroupColumns | bomfunk_netlist_reader.py:598-611 | References, Quantity, Value, Part, Description, Datasheet and Footprint (after its last colon) are set from the group and its first member |
| ComponentGroups.ComponentGroup.UpdateFields | bomfunk_netlist_reader.py:589-611 | the columns become `Harmonized` of the old ones, and the members are unchanged |
| ComponentGroups.ComponentGroup.CsvRow | bomfunk_netlist_reader.py:614-616 | one CSV cell per requested column |
| ComponentGroups.ComponentGroup.KicadRow | bomfunk_netlist_reader.py:619-622 | one netlist cell per requested column |
| ComponentGroups.ComponentGroup.HarmonizedRow | bomfunk_netlist_reader.py:625-626 | one harmonized cell per requested column |
| ComponentGroups.FindGroup | bomfunk_netlist_reader.py:868-872 | the search over the groups returns the first group the component matches |
| ComponentGroups.AddToGroup | bomfunk_netlist_reader.py:869-870 | the matched group takes the component, and every group holds the placed grouping |
| ComponentGroups.NewGroup | bomfunk_netlist_reader.py:874-877 | a fresh group holding only the component is appended |
| ComponentGroups.PlaceComponent | bomfunk_netlist_reader.py:866-877 | one step of the grouping loop equals `Place` on the members |
| ComponentGroups.GreedyGroupsOf | bomfunk_netlist_reader.py:863-877 | one fresh group per greedy group, holding exactly its members |
| ComponentGroups.SortMembersLinked | bomfunk_netlist_reader.py:571 | sorting keeps a group non-empty and bound |
| ComponentGroups.AllSortedLinked | bomfunk_netlist_reader.py:880-881 | the same for every group |
| ComponentGroups.MergedColumns | bomfunk_netlist_reader.py:880-882 | for every group, the columns `updateFields` yields once its members are sorted |
| ComponentGroups.FinishGroup | bomfunk_netlist_reader.py:881-882 | the members are sorted, then the columns are merged |
| ComponentGroups.FinishAt | bomfunk_netlist_reader.py:880-882 | one step of the second loop: group j is finished, and the others are unchanged |
| ComponentGroups.SortAndUpdate | bomfunk_netlist_reader.py:880-882 | every group is finished |
| ComponentGroups.SortGroups | bomfunk_netlist_reader.py:886 | the groups are reordered so that their members follow the (prefix, value) order |
| ComponentGroups.GroupComponents | bomfunk_netlist_reader.py:850-890 | the groups hold exactly the groups of `Grouping.Grouped`, in order, each finished with its columns merged |
| CheckPnp.Put | check_pnp.py:88 | `d[k] = v` keeps the dictionary consistent and extends the key order |
| CheckPnp.PutAll | check_pnp.py:132-133 | every listed key maps to the value, every other key is unchanged, and no other key appears |
| CheckPnp.Assign | check_pnp.py:132-133 | the loop stores the row under every reference |
| CheckPnp.Tokens | check_pnp.py:58-69 | one token per line |
| CheckPnp.TokensAt | check_pnp.py:58-69 | token k is what the reader makes of line k |
| CheckPnp.AddToken | check_pnp.py:71-88 | one line is read into the table, keeping it consistent |
| CheckPnp.ParseTokens | check_pnp.py:58-88 | the table after the lines is consistent |
| CheckPnp.ParseTokensStops | check_pnp.py:71-77 | the first error is the one reported; later lines change nothing |
| CheckPnp.PnpStep | check_pnp.py:61-88 | the loop body: one line skipped, rejected or stored |
| CheckPnp.ReadPnp | check_pnp.py:58-88 | the loop over the lines yields the specified table or error |
| CheckPnp.AllPartsAppend | check_pnp.py:69-72 | one more line keeps seven fields everywhere exactly when that line has seven fields or is skipped |
| CheckPnp.TokensKeys | check_pnp.py:74-88 | the table's references are those of the part lines, in file order |
| CheckPnp.TokensEntries | check_pnp.py:74-88 | every kept line is a part, and its reference maps to its own placement: Value, Footprint, X, Y, Rotation, Side from fields 1-6. No entry is overwritten |
| CheckPnp.WellFormedPrefix | check_pnp.py:58-88 | dropping the last line of a well-formed file leaves a well-formed file |
| CheckPnp.WellFormedExtended | check_pnp.py:69-77 | one more line keeps the file well formed exactly when the reader accepts it |
| CheckPnp.TokensAccepted | check_pnp.py:58-88 | the lines are accepted exactly when every non-skipped line has seven fields and no reference repeats |
| CheckPnp.PnpAccepted | check_pnp.py:58-88 | the same for the file, and then the keys are the references of the part lines, in order |
| CheckPnp.ReadHeaders | check_pnp.py:105-112 | one header per column; any header starting with "Quantity" becomes "Quantity" and the others are kept |
| CheckPnp.RowMap | check_pnp.py:118-122 | the row's cells by column: exactly the headers of its cells |
| CheckPnp.RowMapLastWins | check_pnp.py:120-122 | a column name that occurs twice keeps the last cell |
| CheckPnp.FillRow | check_pnp.py:118-122 | the loop fails exactly when the row is longer than the header row; otherwise it yields the row's cells by column |
| CheckPnp.Reads | check_pnp.py:118-127 | one read per row |
| CheckPnp.ReadsAt | check_pnp.py:118-127 | read k is what the checker makes of row k |
| CheckPnp.AddRow | check_pnp.py:129-133 | a read row is taken exactly when it could be read, keeping the table consistent |
| CheckPnp.RowOutcome | check_pnp.py:129-133 | a row adds exactly one quantity-mismatch issue when its reference count differs from its quantity, and none otherwise. Every reference maps to the row, and other references keep their rows |
| CheckPnp.ParseRow | check_pnp.py:118-127 | the lookups and conversions of one row, up to the error they raise |
| CheckPnp.TakeRow | check_pnp.py:129-133 | the quantity check and the storing of one read row |
| CheckPnp.ProcessRows | check_pnp.py:102-133 | the table after the rows is consistent |
| CheckPnp.ProcessRowsStops | check_pnp.py:102-133 | the first error is the one reported; later rows change nothing |
| CheckPnp.FirstEmpty | check_pnp.py:114-116 | where reading stops lies between the start and the end |
| CheckPnp.FirstEmptyIs | check_pnp.py:114-116 | reading stops at the first empty row, or at the end, and every row before it is non-empty |
| CheckPnp.DataReads | check_pnp.py:102-116 | one read per row between the header and the first empty row |
| CheckPnp.ParseBom | check_pnp.py:102-133 | the table after reading the BOM is consistent |
| CheckPnp.ParseBomReads | check_pnp.py:102-116 | reading the BOM is processing the reads of the rows before the first empty row |
| CheckPnp.BomStep | check_pnp.py:118-133 | the loop body: one row read, checked and stored |
| CheckPnp.StopsBefore | check_pnp.py:102-133 | rows after a failed one change nothing |
| CheckPnp.BeforeEmpty | check_pnp.py:115-116 | a non-empty row does not end the reading |
| CheckPnp.AtEmpty | check_pnp.py:115-116 | an empty row, or the end, is where the reading ends |
| CheckPnp.ReadRows | check_pnp.py:102-133 | the row loop yields the specified BOM or error |
| CheckPnp.ReadBom | check_pnp.py:96-133 | the header row and then the data rows yield `ParseBom` |
| CheckPnp.AllReadAppend | check_pnp.py:118-127 | one more row keeps every row read exactly when it could be read |
| CheckPnp.ProcessRowsAccepted | check_pnp.py:102-133 | the rows are taken without error exactly when each one could be read |
| CheckPnp.ListedAppend | check_pnp.py:132-133 | one more row lists a reference exactly when it or an earlier row does |
| CheckPnp.BomKeys | check_pnp.py:132-133 | the BOM's references are exactly those some row lists |
| CheckPnp.BomLastRowWins | check_pnp.py:132-133 | a reference listed by several rows maps to the last of them |
| CheckPnp.RaisedByAppend | check_pnp.py:129-130 | one more row raises an issue exactly when it or an earlier row does |
| CheckPnp.BomIssues | check_pnp.py:129-130 | the BOM issues are exactly the quantity mismatches of the rows, at most one per row |
| CheckPnp.DataReadsAt | check_pnp.py:102-116 | data read j is the read of row 1 + j, which is non-empty |
| CheckPnp.BomAccepted | check_pnp.py:102-133 | the BOM is read without error exactly when every data row before the first empty row could be read |
| CheckPnp.Verdicts | check_pnp.py:142-185 | one verdict per BOM reference |
| CheckPnp.VerdictsAt | check_pnp.py:142-185 | verdict k judges reference k |
| CheckPnp.TalliedStops | check_pnp.py:142-185 | a failed lookup ends the cross-check; later references change nothing |
| CheckPnp.HasMemberAppend | check_pnp.py:150-157 | one more verdict adds a group member exactly when it falls in the group |
| CheckPnp.MembersExactly | check_pnp.py:150-157 | a reference is listed in a group exactly when one of its verdicts falls in the group |
| CheckPnp.TallyGroups | check_pnp.py:147-157 | the DNF count is the number of DNF references. The DNF-but-placed list and the missing-from-PNP list are exactly those references, in BOM order |
| CheckPnp.SomeDisagreesAppend | check_pnp.py:162-185 | one more verdict raises a mismatch exactly when it disagrees |
| CheckPnp.TallyMismatches | check_pnp.py:162-185 | the mismatch errors are exactly the unequal footprints and the unequal values of placed, fitted parts, as a set; TallyMismatchesOnce gives the count |
| CheckPnp.MismatchRefs | check_pnp.py:162-185 | a mismatch error is a footprint or value mismatch naming the reference of one of the judged parts |
| CheckPnp.TallyMismatchesOnce | check_pnp.py:162-185 | when the judged references are distinct, no mismatch error appears twice, so with TallyMismatches there is exactly one error per unequal footprint and one per unequal value |
| CheckPnp.DistinctPairwise | check_pnp.py:139 | the keys of a dictionary are pairwise distinct |
| CheckPnp.BomMismatchesOnce | check_pnp.py:142-185 | the cross-check of a BOM raises each mismatch error at most once, since each BOM reference is judged once |
| CheckPnp.AllCountedAppend | check_pnp.py:144-175 | one more verdict keeps every lookup successful exactly when its own lookups succeed |
| CheckPnp.TallyAccepted | check_pnp.py:144-175 | the cross-check completes exactly when no Quantity, Footprint or Value lookup fails |
| CheckPnp.TallyStep | check_pnp.py:144-185 | the loop body: one reference judged and counted, or the KeyError it raises |
| CheckPnp.Reconcile | check_pnp.py:142-185 | the loop over the BOM references yields the specified tally |
| CheckPnp.UnlistedExactly | check_pnp.py:188-190 | a reference is missing from the BOM exactly when it is placed and not listed |
| CheckPnp.ListUnlisted | check_pnp.py:188-190 | the loop lists the placed references absent from the BOM, in PNP order |
| CheckPnp.ExitStatus | check_pnp.py:192-220 | the argument passed to `sys.exit` is 0 exactly when no issue of either kind was gathered |
| CheckPnp.ProcessStatus | check_pnp.py:220 | the status the process ends with is below 256; below 256 issues it is the issue count, and then 0 exactly when the report is clean |
| CheckPnp.NoEmptyRow | check_pnp.py:114-116 | with no empty row after the header, reading goes on to the last row |
| CheckPnp.AddMismatchRow | check_pnp.py:125-133 | one more row listing "R1" against a quantity of 0 keeps "R1" as the one BOM reference and appends one quantity issue |
| CheckPnp.RepeatedMismatch | check_pnp.py:125-133 | rows that each list "R1" against a quantity of 0 keep "R1" as the one BOM reference and raise one quantity issue per row |
| CheckPnp.MismatchData | check_pnp.py:118-122 | the row "R1", "0" under the columns References and Quantity holds those two cells |
| CheckPnp.MismatchRowRead | check_pnp.py:118-127 | that row reads as the one reference "R1" with quantity 0 |
| CheckPnp.MismatchBomReads | check_pnp.py:102-127 | every data row of the n-row BOM is read, and reads as "R1" with quantity 0 |
| CheckPnp.MismatchBomParsed | check_pnp.py:102-133 | the n-row BOM is read without error, has "R1" as its one reference, and has n quantity issues |
| CheckPnp.JudgeMismatch | check_pnp.py:142-151 | "R1" with quantity "0" is not do-not-fit, so against an empty PNP file it is unplaced |
| CheckPnp.TallyUnplaced | check_pnp.py:150-157 | one unplaced reference is counted as missing from the PNP file and as nothing else |
| CheckPnp.MismatchTally | check_pnp.py:142-157 | against an empty PNP file, "R1" is fitted and missing from the PNP file |
| CheckPnp.MismatchBomOutcome | check_pnp.py:56-220 | an empty PNP file and the n-row BOM give n quantity issues and one missing-from-PNP issue, so the `sys.exit` argument is n + 1 |
| CheckPnp.WrappedStatusLooksClean | check_pnp.py:220 | an empty PNP file and a BOM of 255 rows that each list one reference against quantity 0 give 256 issues, and the process ends with status 0 |
| CheckPnp.SaturatedStatus | check_pnp.py:220 | a status below 256 that is 0 exactly when the report is clean, and equals the process status below 256 issues |
| CheckPnp.DisagreementRaised | check_pnp.py:147-185 | a reference that is placed but DNF, fitted but unplaced, or mismatched shows up in some list |
| CheckPnp.RaisedDisagrees | check_pnp.py:147-185 | every entry of the lists comes from such a reference |
| CheckPnp.TallyClean | check_pnp.py:147-185 | the lists are all empty exactly when every reference agrees |
| CheckPnp.Check | check_pnp.py:56-199 | reading the PNP file, then the BOM, then both cross-checks yields `Outcome` |
| CheckPnp.VerdictsAgree | check_pnp.py:142-185 | every verdict agrees exactly when every BOM entry agrees with its placement |
| CheckPnp.ReportClean | check_pnp.py:188-220 | the `sys.exit` argument is 0 exactly when three things hold: the BOM has no quantity issue, every placed reference is in the BOM, and every BOM reference is either DNF and unplaced, or fitted and placed with equal footprint and value |
| CheckPnp.CleanExit | check_pnp.py:56-220 | the same for whole files: a `sys.exit` argument of 0 means exactly that the BOM and the PNP file agree |
| CheckPnp.CleanProcessExit | check_pnp.py:56-220 | for whole files, the saturated status is 0 exactly when the files agree; the process status is, below 256 issues |

## Left out

- XML loading: the SAX parser and `load` (bomfunk_netlist_reader.py:938-952) are a foreign library plus file I/O. The builder receives its begin, text and end events directly. `_gNetReader.startElement` is `Netlist.StartElement`; its `characters` is `Netlist.Characters`, and its `endElement` and `endDocument` are the netlist's.
- `bomfunk_units.compareValues` is not part of this model. It is a parameter, an arbitrary predicate on two strings.
- The CSV configuration (`CSV_DEFAULT`, `CSV_PROTECTED`, `CSV_MATCH`) is not part of this model. It is the `CsvConfig` parameter.
- The regular-expression engine: the blacklists are written as the two pattern shapes they use, a literal prefix or a literal prefix followed by a digit. Both are matched at the start of the string, as `re.match` does.
- Rendering: `formatXML`, `formatHTML`, `__str__` and `netlist.formatXML/formatHTML` produce output only.
- Diagnostics: the `print` calls (conflicts in `updateField`, missing library parts, "NULL!") have no effect on the results.
- `compareRating` is an unfinished stub that returns nothing.
- `comp.setValue`, `getTimestamp`, `getLibPart`, `netlist.getDate`, `getSource`, `getTool` and `getSheet` are plain accessors that nothing else in the core relies on. `getSheet` is used inside `GetVersion`, which returns NoDesign where `self.design` is still None. `getLibPart` is the `libpart` component of a view.
- The `grouped` flag of `comp` is never read.
- Python's `sorted` and `list.sort` are modelled as a stable insertion sort. Stable sorts agree on every input, so only the result is modelled, not Timsort's steps.
- In `check_pnp.py`, argparse, the file-name and existence checks, `open`, `readlines`, `csv.reader`, all printing and `sys.exit` are left out. The model takes the lines of the `.pos` file and the rows of the CSV file as sequences of strings, and returns the report and the exit status.
- The issue messages are datatypes, not formatted strings. `Report` keeps the BOM and PNP item counts and the DNF count that the summary prints.
- Text.ParseInt: `int()` is modelled on ASCII. Surrounding whitespace and an optional sign are accepted, as are decimal digits. Python also accepts underscores between digits and Unicode digits and whitespace; these are not modelled.
- Text.Lower: lower-cases ASCII letters only. Python's `str.lower` also folds non-ASCII letters.
- Comps.Field, Comps.Footprint, Comps.Datasheet, Comps.Description: where the Python dereferences `self.libpart` and would raise on an unbound component, the model requires the component to be bound. Consequently `GetInterestingComponents` and `GroupComponents` require every component they reach to be bound, or to answer from its own fields.
- KicadNetlist.GetGroupField, KicadNetlist.GetGroupFootprint: on an empty group the Python raises IndexError at `group[0]` (bomfunk_netlist_reader.py:901 and 912); the model requires a non-empty group instead of modelling that error. Nothing else in the core calls them, and `getGroupDatasheet`, which guards with `len(group) > 0`, is modelled with its "" result.
- XmlTree.GetSucceeds: a lookup of an attribute that a matching element lacks raises `KeyError` in the Python, which the `except AttributeError` there does not catch. `Get` returns that error. The views require their subtree to carry the attributes they read, so their accessors never meet it.
- Comps.AlphaPrefix: letters are the ASCII letters. Python's `isalpha` also accepts non-ASCII letters, so the prefix of "Ω1" is "Ω" in Python and "" here.
- Comps.Prefix: inherits the ASCII-only letters of Comps.AlphaPrefix.
- NaturalSort.NonDigitPrefix: digits are the ASCII digits. Python's `\d` also matches other Unicode decimal digits, which the model treats as text.
- NaturalSort.DigitPrefix: the same ASCII-only digits as NaturalSort.NonDigitPrefix.
- CheckPnp.ExitStatus: this is the argument to `sys.exit`. The status the process ends with is that number modulo 256 (CheckPnp.ProcessStatus).
- Text.SplitWhitespace and Text.IsWhitespace: "whitespace" is Python's ASCII whitespace set; Unicode spaces are not modelled.

Where the code and its documented intent differ, the model follows the code:

- An unresolved component is not skipped by `getInterestingComponents`: asking for its "Installed" field dereferences the missing library part.
- `getCount` is "0" as soon as any member is not fitted. On the groups grouping builds, this is the same as "the first member is not fitted" (`Grouping.CoherentQuantity`).
- The connector exemption of `==` looks only at the receiver's description (`Comps.ConnectorExemptionIsOneSided`).
- The interesting components are sorted by plain string order of reference. Only group members are sorted naturally.
- The linker makes a single pass over the library parts. On each part with the same library name it tries the exact part name, then the aliases.

## Findings

| source | as written | input that shows it | evidently intended | confidence | as-written member | corrected member |
|---|---|---|---|---|---|---|
| check_pnp.py:220 | `sys.exit(len(bom_errors) + len(pnp_errors))`; the process status keeps the count modulo 256 | an empty PNP file and a BOM of 255 rows `R1,0` under `References,Quantity`: 255 quantity issues plus one part missing from the PNP file, status 0, the status of a clean run | a non-zero status whenever any issue was found | not executed | CheckPnp.WrappedStatusLooksClean | CheckPnp.CleanProcessExit |
