/**
 * The blacklists of the netlist reader: `excluded_references`,
 * `excluded_values`, `excluded_footprints` and `excluded_fields`, each a list
 * of patterns tried with `re.match` (a match at the start of the string), and
 * the test `getInterestingComponents` puts every component through.
 */
module Exclusion {
  import opened Text
  import opened Comps
  import Sorting

  /**
   * The two pattern shapes the blacklists use: a literal prefix
   * (`MOUNTHOLE`, and `SOLDER_BRIDGE.*`, whose tail matches anything), and a
   * literal prefix followed by at least one digit (`TP[0-9]+`).
   */
  datatype Pattern = Prefix(text: string) | PrefixThenDigit(text: string)

  /** `re.match(pattern, s)` succeeds. */
  predicate Matches(p: Pattern, s: string) {
    match p
    case Prefix(t) => StartsWith(s, t)
    case PrefixThenDigit(t) => StartsWith(s, t) && |t| < |s| && IsDigit(s[|t|])
  }

  /** Some pattern of the list matches. */
  predicate AnyMatches(ps: seq<Pattern>, s: string) {
    exists i :: 0 <= i < |ps| && Matches(ps[i], s)
  }

  const EXCLUDED_FIELDS: seq<Pattern> := []
  const EXCLUDED_REFERENCES: seq<Pattern> := [PrefixThenDigit("TP")]
  const EXCLUDED_VALUES: seq<Pattern> := [Prefix("MOUNTHOLE"), Prefix("SCOPETEST"), Prefix("MOUNT_HOLE"), Prefix("SOLDER_BRIDGE")]
  const EXCLUDED_FOOTPRINTS: seq<Pattern> := []

  /** The three component blacklists together. */
  datatype Exclusions = Exclusions(references: seq<Pattern>, values: seq<Pattern>, footprints: seq<Pattern>)

  const EXCLUSIONS := Exclusions(EXCLUDED_REFERENCES, EXCLUDED_VALUES, EXCLUDED_FOOTPRINTS)

  /** The `for rex in ...: if re.match(rex, s): ... break` loop. */
  method MatchesAny(ps: seq<Pattern>, s: string) returns (r: bool)
    ensures r == AnyMatches(ps, s)
  {
    for i := 0 to |ps|
      invariant forall j :: 0 <= j < i ==> !Matches(ps[j], s)
    {
      if Matches(ps[i], s) {
        return true;
      }
    }
    return false;
  }

  /**
   * The lookups the test makes can be made: the footprint is looked up (only
   * when there are footprint patterns) once reference and value passed, and
   * the "Installed" field once the footprint passed as well; either may fall
   * back on the library part, which must then be bound.
   */
  predicate Evaluable(c: Comp, ex: Exclusions) {
    !AnyMatches(ex.references, Ref(c)) && !AnyMatches(ex.values, Value(c)) ==>
      && (ex.footprints != [] ==> FootprintDefined(c))
      && ((ex.footprints == [] || !AnyMatches(ex.footprints, Footprint(c))) ==> FieldDefined(c, "Installed"))
  }

  /** A component stays out of the BOM: a pattern fires on its reference, value or footprint, or it is "NU". */
  predicate Excluded(c: Comp, ex: Exclusions)
    requires Evaluable(c, ex)
  {
    || AnyMatches(ex.references, Ref(c))
    || AnyMatches(ex.values, Value(c))
    || (ex.footprints != [] && AnyMatches(ex.footprints, Footprint(c)))
    || Field(c, "Installed") == "NU"
  }

  /** The test of one component, in the order `getInterestingComponents` makes it. */
  method IsExcluded(c: Comp, ex: Exclusions) returns (r: bool)
    requires Evaluable(c, ex)
    ensures r == Excluded(c, ex)
  {
    r := MatchesAny(ex.references, Ref(c));
    if !r {
      r := MatchesAny(ex.values, Value(c));
    }
    if !r && ex.footprints != [] {
      r := MatchesAny(ex.footprints, Footprint(c));
    }
    if !r {
      r := Field(c, "Installed") == "NU";
    }
  }

  /** The components that pass, in their order. */
  function Kept(cs: seq<Comp>, ex: Exclusions): (r: seq<Comp>)
    requires forall k :: 0 <= k < |cs| ==> Evaluable(cs[k], ex)
    decreases |cs|
  {
    if cs == [] then []
    else
      var n := |cs| - 1;
      Kept(cs[..n], ex) + (if Excluded(cs[n], ex) then [] else [cs[n]])
  }

  /** The loop of `getInterestingComponents`: each component in turn is tested and appended when it passes. */
  method Keep(cs: seq<Comp>, ex: Exclusions) returns (kept: seq<Comp>)
    requires forall k :: 0 <= k < |cs| ==> Evaluable(cs[k], ex)
    ensures kept == Kept(cs, ex)
  {
    kept := [];
    for k := 0 to |cs|
      invariant kept == Kept(cs[..k], ex)
    {
      assert cs[..k + 1][..k] == cs[..k];
      var exclude := IsExcluded(cs[k], ex);
      if !exclude {
        kept := kept + [cs[k]];
      }
    }
    assert cs[..|cs|] == cs;
  }

  /** A component is kept exactly when it is one of the input and passes the test. */
  lemma {:induction false} KeptExactly(cs: seq<Comp>, ex: Exclusions)
    requires forall k :: 0 <= k < |cs| ==> Evaluable(cs[k], ex)
    ensures forall c :: c in Kept(cs, ex) <==> c in cs && !Excluded(c, ex)
    decreases |cs|
  {
    if cs != [] {
      var n := |cs| - 1;
      KeptExactly(cs[..n], ex);
      assert cs == cs[..n] + [cs[n]];
    }
  }

  /** The input positions of the kept components, in increasing order. */
  function KeptPositions(cs: seq<Comp>, ex: Exclusions): (ps: seq<nat>)
    requires forall k :: 0 <= k < |cs| ==> Evaluable(cs[k], ex)
    ensures forall j :: 0 <= j < |ps| ==> ps[j] < |cs|
    decreases |cs|
  {
    if cs == [] then []
    else
      var n := |cs| - 1;
      if Excluded(cs[n], ex) then KeptPositions(cs[..n], ex) else KeptPositions(cs[..n], ex) + [n]
  }

  /**
   * Kept components keep their relative order: kept component j is the input
   * at position j of `KeptPositions`, those positions increase, and every
   * position whose component passes is among them.
   */
  lemma {:induction false} KeptInOrder(cs: seq<Comp>, ex: Exclusions)
    requires forall k :: 0 <= k < |cs| ==> Evaluable(cs[k], ex)
    ensures |KeptPositions(cs, ex)| == |Kept(cs, ex)|
    ensures forall j :: 0 <= j < |KeptPositions(cs, ex)| ==> Kept(cs, ex)[j] == cs[KeptPositions(cs, ex)[j]]
    ensures forall i, j :: 0 <= i < j < |KeptPositions(cs, ex)| ==> KeptPositions(cs, ex)[i] < KeptPositions(cs, ex)[j]
    ensures forall p :: 0 <= p < |cs| && !Excluded(cs[p], ex) ==> p in KeptPositions(cs, ex)
    decreases |cs|
  {
    if cs != [] {
      var n := |cs| - 1;
      var pre := cs[..n];
      KeptInOrder(pre, ex);
      var ps0 := KeptPositions(pre, ex);
      var k0 := Kept(pre, ex);
      assert forall j :: 0 <= j < |ps0| ==> ps0[j] < n && cs[ps0[j]] == pre[ps0[j]];
      if !Excluded(cs[n], ex) {
        var ps := ps0 + [n];
        var kept := k0 + [cs[n]];
        assert KeptPositions(cs, ex) == ps && Kept(cs, ex) == kept;
        assert forall j :: 0 <= j < |ps0| ==> ps[j] == ps0[j] && kept[j] == k0[j];
      }
    }
  }

  /** The filter never adds components, and keeps all of them when none is excluded. */
  lemma {:induction false} KeptShrinks(cs: seq<Comp>, ex: Exclusions)
    requires forall k :: 0 <= k < |cs| ==> Evaluable(cs[k], ex)
    ensures |Kept(cs, ex)| <= |cs|
    ensures (forall k :: 0 <= k < |cs| ==> !Excluded(cs[k], ex)) ==> Kept(cs, ex) == cs
    decreases |cs|
  {
    if cs != [] {
      var n := |cs| - 1;
      var pre := cs[..n];
      KeptShrinks(pre, ex);
      if forall k :: 0 <= k < |cs| ==> !Excluded(cs[k], ex) {
        assert forall k :: 0 <= k < |pre| ==> !Excluded(pre[k], ex) by {
          forall k | 0 <= k < |pre| ensures !Excluded(pre[k], ex) {
            assert pre[k] == cs[k];
          }
        }
        assert pre + [cs[n]] == cs;
      }
    }
  }

  /**
   * The interesting components: the kept ones sorted by plain string order of
   * their references, which is a permutation of them sorted.
   */
  lemma InterestingSortedPermutation(cs: seq<Comp>, ex: Exclusions)
    requires forall k :: 0 <= k < |cs| ==> Evaluable(cs[k], ex)
    ensures Sorting.SortedByKey(Sorting.SortByKey(Kept(cs, ex), Ref, StringLt), Ref, StringLt)
    ensures multiset(Sorting.SortByKey(Kept(cs, ex), Ref, StringLt)) == multiset(Kept(cs, ex))
    ensures forall c :: c in Sorting.SortByKey(Kept(cs, ex), Ref, StringLt) <==> c in cs && !Excluded(c, ex)
  {
    var kept := Kept(cs, ex);
    StringLtIsStrictOrder();
    Sorting.SortByKeySorted(kept, Ref, StringLt);
    Sorting.SortByKeyPermutes(kept, Ref, StringLt);
    KeptExactly(cs, ex);
    var r := Sorting.SortByKey(kept, Ref, StringLt);
    forall c ensures c in r <==> c in kept {
      assert c in r <==> c in multiset(r);
      assert c in kept <==> c in multiset(kept);
    }
  }

  /** Test points: a reference "TP" followed by a digit is blacklisted, whatever follows. */
  lemma TestPointsExcluded(c: Comp)
    requires Evaluable(c, EXCLUSIONS)
    requires StartsWith(Ref(c), "TP") && |Ref(c)| > 2 && IsDigit(Ref(c)[2])
    ensures Excluded(c, EXCLUSIONS)
  {
    assert Matches(EXCLUDED_REFERENCES[0], Ref(c));
  }

  /** A reference "TP" followed by no digit is not a test point: "TPX1" passes the reference test. */
  lemma TestPointNeedsDigit()
    ensures !AnyMatches(EXCLUDED_REFERENCES, "TPX1") && AnyMatches(EXCLUDED_REFERENCES, "TP12")
  {
    assert "TP12"[..2] == "TP";
    assert Matches(EXCLUDED_REFERENCES[0], "TP12");
  }

  /** `SOLDER_BRIDGE.*`: any value that starts with SOLDER_BRIDGE is blacklisted. */
  lemma SolderBridgesExcluded(c: Comp)
    requires Evaluable(c, EXCLUSIONS) && StartsWith(Value(c), "SOLDER_BRIDGE")
    ensures Excluded(c, EXCLUSIONS)
  {
    assert Matches(EXCLUDED_VALUES[3], Value(c));
  }

  /** The `excluded_fields` loop over a set of field names: those no pattern matches. */
  method WithoutExcluded(s: set<string>, ps: seq<Pattern>) returns (r: set<string>)
    ensures forall f :: f in r <==> f in s && !AnyMatches(ps, f)
  {
    r := {};
    var rest := s;
    while rest != {}
      invariant rest <= s
      invariant forall f :: f in r <==> f in s && f !in rest && !AnyMatches(ps, f)
      decreases |rest|
    {
      var f :| f in rest;
      var exclude := MatchesAny(ps, f);
      if !exclude {
        r := r + {f};
      }
      rest := rest - {f};
    }
  }

  /** `s.update(names)` for every list in turn: every name of every list. */
  method Union(lists: seq<seq<string>>) returns (s: set<string>)
    ensures forall f :: f in s <==> exists k :: 0 <= k < |lists| && f in lists[k]
  {
    s := {};
    for k := 0 to |lists|
      invariant forall f :: f in s <==> exists j :: 0 <= j < k && f in lists[j]
    {
      s := s + set f | f in lists[k];
    }
  }
}
