/**
 * `matches(_:)` of MediaType.swift, stated through the accessors and the
 * subscript of the receiver and the template: equal raw values match;
 * otherwise the lowercased type and facet must be equal, the template's
 * subtype and suffix constrain only when present, and every parameter the
 * template reads back with a non-blank value must read back the same from
 * the receiver.
 */
module Matching {
  import opened Wrappers
  import opened Strings
  import TopLevelTypes
  import opened MediaTypes
  import opened Construction
  import opened Rebuilding
  import opened Normalization

  /** Every parameter of `t` with a non-blank value is what the subscript of `m` returns for its name. */
  ghost predicate Agrees(m: MediaType, t: MediaType) {
    forall name :: Lookup(Params(t), name).Some? && Lookup(Params(t), name).value != "" ==>
      Lookup(Params(m), name) == Lookup(Params(t), name)
  }

  // ---------------------------------------------------------------------
  // The pairs the constructor writes
  // ---------------------------------------------------------------------

  /** A pair read back from the constructor's text comes from a key with a non-empty value. */
  lemma {:induction false} PairOf(keys: seq<string>, d: map<string, string>, p: Param) returns (k: string)
    requires forall k :: k in keys ==> k in d
    requires p in Pairs(keys, d)
    ensures k in keys && d[k] != "" && p == Param(Trim(k), Trim(d[k]))
    decreases |keys|
  {
    assert keys != [];
    var n := |keys| - 1;
    var prefix := keys[..n];
    assert forall x :: x in prefix ==> x in keys;
    if p in Pairs(prefix, d) {
      k := PairOf(prefix, d, p);
    } else {
      k := keys[n];
    }
  }

  /** ... and every such key gives its pair. */
  lemma {:induction false} PairIn(keys: seq<string>, d: map<string, string>, k: string)
    requires forall k :: k in keys ==> k in d
    requires k in keys && d[k] != ""
    ensures Param(Trim(k), Trim(d[k])) in Pairs(keys, d)
    decreases |keys|
  {
    var n := |keys| - 1;
    if keys[n] != k {
      var i :| 0 <= i < |keys| && keys[i] == k;
      assert keys[..n][i] == k;
      PairIn(keys[..n], d, k);
    }
  }

  /** The pairs of a normalized value are those of the dictionary `normalized()` builds. */
  lemma NormalParams(m: MediaType)
    requires HasType(m)
    ensures var d := FirstByLowerName(Params(m));
      Params(Normalize(m)) == Pairs(SortedKeys(d.Keys), d)
  {
    var c := Parse(m.rawValue);
    NormalComposable(m);
    ByLowerNameMap(Params(m));
    ParamsOfMake(NormalType(m), LowerTrimmed(c.facet), LowerTrimmed(c.subtype), LowerTrimmed(c.suffix),
                 Some(FirstByLowerName(Params(m))));
  }

  // ---------------------------------------------------------------------
  // The parameter loop
  // ---------------------------------------------------------------------

  /** Agreement makes every pair of the normalized template the receiver's first match. */
  lemma ContainsIfAgrees(m: MediaType, t: MediaType)
    requires HasType(m) && HasType(t) && Agrees(m, t)
    ensures Contains(Params(Normalize(m)), Params(Normalize(t)))
  {
    var ps := Params(t);
    var d := FirstByLowerName(ps);
    var keys := SortedKeys(d.Keys);
    var p1, p2 := Params(Normalize(m)), Params(Normalize(t));
    NormalParams(t);
    ByLowerNameMap(ps);
    FirstByLowerNameSpec(ps);
    forall i | 0 <= i < |p2| ensures Lookup(p1, p2[i].name) == Some(p2[i].value) {
      var k := PairOf(keys, d, p2[i]);
      TrimNoEdgeSpace(d[k]);
      NormalizeLookup(m, k);
    }
  }

  /** A name the subscript finds is, lowercased, a key of the first-value dictionary, holding the value found. */
  lemma FirstValueAt(ps: seq<Param>, name: string)
    requires forall i :: 0 <= i < |ps| ==> Clean(ps[i])
    requires Lookup(ps, name).Some?
    ensures var d := FirstByLowerName(ps);
      && Lower(name) in d && d[Lower(name)] == Lookup(ps, name).value
      && Trim(Lower(name)) == Lower(name) && Trim(d[Lower(name)]) == d[Lower(name)]
  {
    var d := FirstByLowerName(ps);
    var k := Lower(name);
    LowerIdempotent(name);
    LookupLower(ps, k, name);
    LowerNamesLookup(ps, k);
    FirstByLowerNameSpec(ps);
    ByLowerNameMap(ps);
    TrimNoEdgeSpace(d[k]);
  }

  /** A non-blank template parameter is a pair of the normalized template, under its lowercased name. */
  lemma TemplatePair(t: MediaType, name: string)
    requires HasType(t)
    requires Lookup(Params(t), name).Some? && Lookup(Params(t), name).value != ""
    ensures Param(Lower(name), Lookup(Params(t), name).value) in Params(Normalize(t))
  {
    var d := FirstByLowerName(Params(t));
    FirstValueAt(Params(t), name);
    NormalParams(t);
    PairIn(SortedKeys(d.Keys), d, Lower(name));
  }

  /** A template parameter the loop checked is one the receiver's subscript agrees with. */
  lemma AgreesAt(m: MediaType, t: MediaType, name: string)
    requires HasType(m) && HasType(t)
    requires Contains(Params(Normalize(m)), Params(Normalize(t)))
    requires Lookup(Params(t), name).Some? && Lookup(Params(t), name).value != ""
    ensures Lookup(Params(m), name) == Lookup(Params(t), name)
  {
    var p2 := Params(Normalize(t));
    var v := Lookup(Params(t), name).value;
    var k := Lower(name);
    TemplatePair(t, name);
    var i :| 0 <= i < |p2| && p2[i] == Param(k, v);
    assert Lookup(Params(Normalize(m)), k) == Some(v);
    NormalizeLookup(m, k);
    LowerIdempotent(name);
    LookupLower(Params(m), k, name);
  }

  /** The loop over the normalized template's pairs succeeds exactly when the receiver agrees. */
  lemma ContainsAgrees(m: MediaType, t: MediaType)
    requires HasType(m) && HasType(t)
    ensures Contains(Params(Normalize(m)), Params(Normalize(t))) <==> Agrees(m, t)
  {
    if Agrees(m, t) {
      ContainsIfAgrees(m, t);
    }
    if Contains(Params(Normalize(m)), Params(Normalize(t))) {
      forall name | Lookup(Params(t), name).Some? && Lookup(Params(t), name).value != ""
        ensures Lookup(Params(m), name) == Lookup(Params(t), name)
      {
        AgreesAt(m, t, name);
      }
    }
  }

  // ---------------------------------------------------------------------
  // matches(_:)
  // ---------------------------------------------------------------------

  /**
   * `matches(_:)`: equal raw values match; otherwise the lowercased type
   * and facet must be equal, the template's subtype and suffix constrain
   * only when present, and the receiver must agree with every non-blank
   * template parameter.
   */
  lemma MatchIff(m: MediaType, t: MediaType)
    requires CanMatch(m, t)
    ensures IsMatch(m, t) <==> (
      || m == t
      || (&& Lower(TopLevelTypes.RawValue(TypeOf(m))) == Lower(TopLevelTypes.RawValue(TypeOf(t)))
          && Lowered(FacetOf(m)) == Lowered(FacetOf(t))
          && (SubtypeOf(t).Some? ==> Lowered(SubtypeOf(m)) == Lowered(SubtypeOf(t)))
          && (SuffixOf(t).Some? ==> Lowered(SuffixOf(m)) == Lowered(SuffixOf(t)))
          && Agrees(m, t)))
  {
    if m != t {
      NormalPieces(m);
      NormalPieces(t);
      ContainsAgrees(m, t);
    }
  }

  /** Two values that normalize alike agree on every non-blank parameter. */
  lemma NormalEqualAgrees(m: MediaType, t: MediaType)
    requires HasType(m) && HasType(t) && Normalize(m) == Normalize(t)
    ensures Agrees(m, t)
  {
    forall name | Lookup(Params(t), name).Some? && Lookup(Params(t), name).value != ""
      ensures Lookup(Params(m), name) == Lookup(Params(t), name)
    {
      NormalizeLookup(m, name);
      NormalizeLookup(t, name);
    }
  }

  /** Two values that normalize alike match each other. */
  lemma NormalEqualMatch(m: MediaType, t: MediaType)
    requires HasType(m) && HasType(t) && Normalize(m) == Normalize(t)
    ensures IsMatch(m, t) && IsMatch(t, m)
  {
    NormalEqualMatchOne(m, t);
    NormalEqualMatchOne(t, m);
  }

  lemma NormalEqualMatchOne(m: MediaType, t: MediaType)
    requires HasType(m) && HasType(t) && Normalize(m) == Normalize(t)
    ensures IsMatch(m, t)
  {
    NormalPieces(m);
    NormalPieces(t);
    NormalEqualAgrees(m, t);
    MatchIff(m, t);
  }

  /** Matching is asymmetric: a receiver without a subtype never matches a different template with one. */
  lemma SubtypeAsymmetry(m: MediaType, t: MediaType)
    requires HasType(m) && HasType(t) && m != t
    requires SubtypeOf(m).None? && SubtypeOf(t).Some?
    ensures !IsMatch(m, t)
  {
    MatchIff(m, t);
  }

  /** A bare-type template matches every receiver of that type without a facet. */
  lemma BareTemplate(m: MediaType, t: MediaType)
    requires HasType(m) && HasType(t)
    requires SubtypeOf(t).None? && Params(t) == []
    requires FacetOf(m).None?
    requires Lower(TopLevelTypes.RawValue(TypeOf(m))) == Lower(TopLevelTypes.RawValue(TypeOf(t)))
    ensures IsMatch(m, t)
  {
    MatchIff(m, t);
  }

  /**
   * The facet is compared even when the template has none, so a vendor
   * subtype does not match its bare type.
   */
  lemma FacetAlwaysCompared(m: MediaType, t: MediaType)
    requires HasType(m) && HasType(t) && m != t
    requires FacetOf(m).Some? && SubtypeOf(t).None?
    ensures !IsMatch(m, t)
  {
    MatchIff(m, t);
  }
}
