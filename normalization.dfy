/**
 * `normalized()` of MediaType.swift: the type, facet, subtype and suffix
 * trimmed and lowercased, and the parameters rebuilt from the first value
 * per lowercased name, then written in ascending name order.
 */
module Normalization {
  import opened Wrappers
  import opened Strings
  import TopLevelTypes
  import opened MediaTypes
  import opened Lexing
  import opened Construction
  import opened Rebuilding

  /** An optional piece, lowercased. */
  function Lowered(o: Option<string>): (r: Option<string>)
    ensures r.Some? <==> o.Some?
    ensures r.Some? ==> |r.value| == |o.value| && IsLower(r.value)
  {
    match o
    case None => None
    case Some(s) => LowerIsLower(s); Some(Lower(s))
  }

  /** The type `normalized()` hands to the constructor. */
  function NormalType(m: MediaType): TopLevelTypes.TopLevelType
    requires HasType(m)
  {
    TopLevelTypes.Of(Lower(Trim(Parse(m.rawValue).typ)))
  }

  // ---------------------------------------------------------------------
  // The pieces
  // ---------------------------------------------------------------------

  /** Trimming and lowercasing keep a delimiter out. */
  lemma LowerTrimKeeps(s: string, c: char)
    requires c !in s && !IsSpace(c) && !IsUpper(c) && !('a' <= c <= 'z')
    ensures c !in Lower(Trim(s))
  {
    TrimKeepsOut(s, c);
    LowerKeeps(Trim(s), c);
  }

  /** A lowercased trimmed piece is already trimmed, and lowercasing and trimming it again changes nothing. */
  lemma LowerTrimStable(s: string)
    ensures NoEdgeSpace(Lower(Trim(s)))
    ensures Trim(Lower(Trim(s))) == Lower(Trim(s))
    ensures Lower(Trim(Lower(Trim(s)))) == Lower(Trim(s))
  {
    LowerNoEdgeSpace(Trim(s));
    TrimNoEdgeSpace(Lower(Trim(s)));
    LowerIdempotent(Trim(s));
  }

  /** `LowerTrimmed` is the lowercased `Trimmed`, and is already trimmed. */
  lemma LowerTrimmedStable(o: Option<string>)
    ensures LowerTrimmed(o) == Lowered(Trimmed(o))
    ensures Trimmed(LowerTrimmed(o)) == LowerTrimmed(o)
    ensures LowerTrimmed(LowerTrimmed(o)) == LowerTrimmed(o)
  {
    if o.Some? {
      LowerTrimStable(o.value);
    }
  }

  /** Lexed pieces stay composable once trimmed and lowercased. */
  lemma NormalLexed(c: Components)
    requires Lexed(c) && Trim(c.typ) != ""
    ensures Composable(TopLevelTypes.Of(Lower(Trim(c.typ))), LowerTrimmed(c.facet), LowerTrimmed(c.subtype),
                       LowerTrimmed(c.suffix))
  {
    var x := Lower(Trim(c.typ));
    assert |x| == |Trim(c.typ)|;
    assert ';' !in x && '/' !in x by {
      LowerTrimKeeps(c.typ, ';');
      LowerTrimKeeps(c.typ, '/');
    }
    assert ';' !in TopLevelTypes.RawValue(TopLevelTypes.Of(x)) by {
      TopLevelTypes.OfKeeps(x, ';');
    }
    assert '/' !in TopLevelTypes.RawValue(TopLevelTypes.Of(x)) by {
      TopLevelTypes.OfKeeps(x, '/');
    }
    if c.subtype.Some? {
      NormalSubtypeLexed(c.facet, c.subtype.value, c.suffix);
    }
  }

  /** The pieces after the `/` stay lexed once trimmed and lowercased. */
  lemma NormalSubtypeLexed(facet: Option<string>, subtype: string, suffix: Option<string>)
    requires SubtypeLexed(facet, subtype, suffix)
    ensures SubtypeLexed(LowerTrimmed(facet), Lower(Trim(subtype)), LowerTrimmed(suffix))
  {
    LowerTrimKeeps(subtype, ';');
    if facet.Some? {
      LowerTrimKeeps(facet.value, ';');
      LowerTrimKeeps(facet.value, '.');
    } else {
      LowerTrimKeeps(subtype, '.');
    }
    if suffix.Some? {
      LowerTrimKeeps(suffix.value, ';');
      LowerTrimKeeps(suffix.value, '+');
      if facet.None? {
        LowerTrimKeeps(suffix.value, '.');
      }
    } else {
      LowerTrimKeeps(subtype, '+');
    }
  }

  /** The pieces `normalized()` passes to the constructor are composable. */
  lemma NormalComposable(m: MediaType)
    requires HasType(m)
    ensures var c := Parse(m.rawValue);
      Composable(NormalType(m), LowerTrimmed(c.facet), LowerTrimmed(c.subtype), LowerTrimmed(c.suffix))
  {
    ParseSpec(m.rawValue);
    NormalLexed(Parse(m.rawValue));
  }

  /** The normalized type is registered, or an `other` whose name `init?(rawValue:)` gives back. */
  lemma NormalTypeCanonical(m: MediaType)
    requires HasType(m)
    ensures var t := NormalType(m);
      && (TopLevelTypes.IsRegistered(t) || TopLevelTypes.CanonicalOther(t.name))
      && TopLevelTypes.RawValue(t) == Lower(Trim(Parse(m.rawValue).typ))
  {
    TopLevelTypes.CanonicalLowerTrim(Parse(m.rawValue).typ);
  }

  /**
   * What `parse()` cuts from the normalized value: the receiver's type,
   * facet, subtype and suffix, each lowercased.
   */
  lemma NormalPieces(m: MediaType)
    requires HasType(m)
    ensures var c := Parse(Normalize(m).rawValue);
      && c.typ == Lower(TopLevelTypes.RawValue(TypeOf(m)))
      && c.facet == Lowered(FacetOf(m))
      && c.subtype == Lowered(SubtypeOf(m))
      && c.suffix == Lowered(SuffixOf(m))
  {
    var c := Parse(m.rawValue);
    var c2 := Parse(Normalize(m).rawValue);
    NormalParsed(m);
    assert c2.typ == Lower(TopLevelTypes.RawValue(TypeOf(m))) by {
      NormalTypeCanonical(m);
      LowerTrimStable(c.typ);
      TopLevelTypes.LowerRawValueOf(Trim(c.typ));
    }
    ParseSpec(m.rawValue);
    assert c2.facet == Lowered(FacetOf(m)) by {
      LowerTrimmedStable(c.facet);
    }
    assert c2.subtype == Lowered(SubtypeOf(m)) by {
      LowerTrimmedStable(c.subtype);
    }
    assert c2.suffix == Lowered(SuffixOf(m)) by {
      LowerTrimmedStable(c.suffix);
    }
  }

  /** The normalized value parses to the pieces it was built from. */
  lemma NormalParsed(m: MediaType)
    requires HasType(m)
    ensures var c := Parse(m.rawValue);
      Parse(Normalize(m).rawValue)
      == MadeComponents(NormalType(m), LowerTrimmed(c.facet), LowerTrimmed(c.subtype), LowerTrimmed(c.suffix),
                        Some(FirstByLowerName(Params(m))))
  {
    var c := Parse(m.rawValue);
    var t := NormalType(m);
    var f, s, x := LowerTrimmed(c.facet), LowerTrimmed(c.subtype), LowerTrimmed(c.suffix);
    var params := Some(FirstByLowerName(Params(m)));
    NormalComposable(m);
    ComposableLexed(t, f, s, x, params);
    MakeParses(t, f, s, x, params);
  }

  /**
   * `normalized()` lowercases the type, facet, subtype and suffix: a
   * registered type stays, an `other` name is lowercased, and each piece
   * is present exactly when it was.
   */
  lemma NormalizeParts(m: MediaType)
    requires HasType(m)
    ensures var n := Normalize(m);
      && HasType(n)
      && (!TypeOf(m).Other? ==> TypeOf(n) == TypeOf(m))
      && (TypeOf(m).Other? ==> TypeOf(n) == TopLevelTypes.Other(Lower(TypeOf(m).name)))
      && FacetOf(n) == Lowered(FacetOf(m))
      && SubtypeOf(n) == Lowered(SubtypeOf(m))
      && SuffixOf(n) == Lowered(SuffixOf(m))
  {
    var c := Parse(m.rawValue);
    var t := NormalType(m);
    var f, s, x := LowerTrimmed(c.facet), LowerTrimmed(c.subtype), LowerTrimmed(c.suffix);
    var params := Some(FirstByLowerName(Params(m)));
    NormalComposable(m);
    NormalTypeCanonical(m);
    MadeType(t, f, s, x, params);
    TopLevelTypes.LowerOf(Trim(c.typ));
    MadeAccessors(t, f, s, x, params);
    ParseSpec(m.rawValue);
    LowerTrimmedStable(c.facet);
    LowerTrimmedStable(c.subtype);
    LowerTrimmedStable(c.suffix);
  }

  // ---------------------------------------------------------------------
  // The parameters
  // ---------------------------------------------------------------------

  /**
   * The subscript of the normalized value returns what the receiver's
   * returns for every name, except that a blank first value reads back nil.
   */
  lemma NormalizeLookup(m: MediaType, name: string)
    requires HasType(m)
    ensures var l := Lookup(Params(m), name);
      Lookup(Params(Normalize(m)), name) == if l == Some("") then None else l
  {
    var c := Parse(m.rawValue);
    NormalComposable(m);
    MadeFirstValues(NormalType(m), LowerTrimmed(c.facet), LowerTrimmed(c.subtype), LowerTrimmed(c.suffix),
                    Params(m), name);
  }

  /** A lowercase name is among the lowercased names exactly when the subscript finds it. */
  lemma LowerNamesLookup(ps: seq<Param>, k: string)
    ensures k in LowerNames(ps) <==> Lower(k) == k && Lookup(ps, k).Some?
  {
    LookupNone(ps, k);
    if k in LowerNames(ps) {
      var i :| 0 <= i < |ps| && Lower(ps[i].name) == k;
      LowerIdempotent(ps[i].name);
      assert NameIs(ps[i], k);
    }
    if Lower(k) == k && Lookup(ps, k).Some? {
      var i :| 0 <= i < |ps| && NameIs(ps[i], k);
      assert Lower(ps[i].name) == k;
    }
  }

  /** No parameter reads back with a blank value. */
  predicate NoBlankValues(m: MediaType) {
    forall i :: 0 <= i < |Params(m)| ==> Params(m)[i].value != ""
  }

  /** Without blank values, the normalized value's subscript agrees with the receiver's everywhere. */
  lemma NoBlankLookup(m: MediaType, name: string)
    requires HasType(m) && NoBlankValues(m)
    ensures Lookup(Params(Normalize(m)), name) == Lookup(Params(m), name)
  {
    NormalizeLookup(m, name);
    if Lookup(Params(m), name).Some? {
      LookupValue(Params(m), name);
    }
  }

  /** ... so each key of the dictionary `normalized()` builds is kept, with its value. */
  lemma SameFirstValueAt(m: MediaType, k: string)
    requires HasType(m) && NoBlankValues(m)
    ensures var d, e := FirstByLowerName(Params(m)), FirstByLowerName(Params(Normalize(m)));
      (k in e <==> k in d) && (k in d ==> e[k] == d[k])
  {
    var ps, qs := Params(m), Params(Normalize(m));
    FirstByLowerNameSpec(ps);
    FirstByLowerNameSpec(qs);
    LowerNamesLookup(ps, k);
    LowerNamesLookup(qs, k);
    NoBlankLookup(m, k);
  }

  /** Without blank values, normalizing again builds the same dictionary. */
  lemma SameFirstValues(m: MediaType)
    requires HasType(m) && NoBlankValues(m)
    ensures FirstByLowerName(Params(Normalize(m))) == FirstByLowerName(Params(m))
  {
    var d, e := FirstByLowerName(Params(m)), FirstByLowerName(Params(Normalize(m)));
    forall k ensures (k in e <==> k in d) && (k in d ==> e[k] == d[k]) {
      SameFirstValueAt(m, k);
    }
    MapExt(d, e);
  }

  /** Two dictionaries with the same keys and the same value at each are equal. */
  lemma MapExt<K, V>(d: map<K, V>, e: map<K, V>)
    requires forall k :: (k in e <==> k in d) && (k in d ==> e[k] == d[k])
    ensures d == e
  {
    assert d.Keys == e.Keys;
  }

  /**
   * `normalized()` is idempotent when no parameter value is blank: the
   * second pass finds the pieces already lowercased and trimmed, and the
   * same first value per name.
   */
  lemma NormalizeIdempotent(m: MediaType)
    requires HasType(m) && NoBlankValues(m)
    ensures HasType(Normalize(m))
    ensures Normalize(Normalize(m)) == Normalize(m)
  {
    var n := Normalize(m);
    var c := Parse(m.rawValue);
    NormalizeParts(m);
    NormalPieces(m);
    ParseSpec(m.rawValue);
    var c2 := Parse(n.rawValue);
    assert Lower(Trim(c2.typ)) == Lower(Trim(c.typ)) by {
      TopLevelTypes.LowerRawValueOf(Trim(c.typ));
      LowerTrimStable(c.typ);
      TrimIdempotent(c.typ);
    }
    assert LowerTrimmed(c2.facet) == LowerTrimmed(c.facet) by {
      LowerTrimmedStable(c.facet);
      LowerTrimmedStable(Trimmed(c.facet));
    }
    assert LowerTrimmed(c2.subtype) == LowerTrimmed(c.subtype) by {
      LowerTrimmedStable(c.subtype);
      LowerTrimmedStable(Trimmed(c.subtype));
    }
    assert LowerTrimmed(c2.suffix) == LowerTrimmed(c.suffix) by {
      LowerTrimmedStable(c.suffix);
      LowerTrimmedStable(Trimmed(c.suffix));
    }
    SameFirstValues(m);
  }

  // ---------------------------------------------------------------------
  // Blank values
  // ---------------------------------------------------------------------

  /** A name, `=` and only whitespace is read as a pair with a blank value. */
  lemma BlankSegment(name: string, value: string)
    requires '=' !in name && name != "" && value != "" && AllSpace(value)
    ensures Segment(name + "=" + value) == Some(Param(Trim(name), ""))
  {
    SegmentOf(name, value);
    TrimAllSpace(value);
  }

  /** Blank pairs give a dictionary with a key per lowercased name, every value blank. */
  lemma {:induction false} BlankFirstValues(ps: seq<Param>)
    requires forall i :: 0 <= i < |ps| ==> ps[i].value == ""
    ensures var d := FirstByLowerName(ps);
      && (ps != [] ==> d != map[])
      && forall k :: k in d ==> d[k] == ""
    decreases |ps|
  {
    if ps != [] {
      BlankFirstValues(ps[..|ps| - 1]);
    }
  }

  /** Keys whose values are all blank are written, but read back as no pair. */
  lemma {:induction false} BlankPairs(keys: seq<string>, d: map<string, string>)
    requires forall k :: k in keys ==> k in d && d[k] == ""
    ensures Pairs(keys, d) == []
    decreases |keys|
  {
    if keys != [] {
      var prefix := keys[..|keys| - 1];
      assert forall k :: k in prefix ==> k in keys;
      BlankPairs(prefix, d);
    }
  }

  /** ... so normalizing blank pairs writes a parameter text that reads back as no pair. */
  lemma BlankNormalParams(m: MediaType)
    requires HasType(m) && Params(m) != []
    requires forall i :: 0 <= i < |Params(m)| ==> Params(m)[i].value == ""
    ensures Parse(Normalize(m).rawValue).parameters.Some?
    ensures Params(Normalize(m)) == []
  {
    var c := Parse(m.rawValue);
    var d := FirstByLowerName(Params(m));
    BlankFirstValues(Params(m));
    assert Parse(Normalize(m).rawValue).parameters.Some? by {
      NormalParsed(m);
    }
    NormalComposable(m);
    ByLowerNameMap(Params(m));
    ParamsOfMake(NormalType(m), LowerTrimmed(c.facet), LowerTrimmed(c.subtype), LowerTrimmed(c.suffix), Some(d));
    BlankPairs(SortedKeys(d.Keys), d);
  }

  /**
   * `forEach` checks that a value is non-empty before trimming it, so
   * `x= ` yields a blank value. `normalized()` writes such a pair as `x=`,
   * which `forEach` then skips: when every pair is blank, normalizing a
   * second time drops the parameter text the first pass wrote.
   */
  lemma BlankNotIdempotent(m: MediaType)
    requires HasType(m) && Params(m) != []
    requires forall i :: 0 <= i < |Params(m)| ==> Params(m)[i].value == ""
    ensures HasType(Normalize(m))
    ensures Normalize(Normalize(m)) != Normalize(m)
  {
    var n := Normalize(m);
    NormalizeParts(m);
    BlankNormalParams(m);
    assert FirstByLowerName(Params(n)) == map[];
    NormalParsed(n);
  }

}
