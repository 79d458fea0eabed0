/**
 * The rebuilders of MediaType.swift — `adding(parameter:value:)`,
 * `removing(parameter:)`, `removingParameters()`, `adding(suffix:)` and
 * `removingSuffix()` — read back through the accessors and the subscript.
 */
module Rebuilding {
  import opened Wrappers
  import opened Strings
  import TopLevelTypes
  import opened MediaTypes
  import opened Lexing
  import opened Construction

  // ---------------------------------------------------------------------
  // The receiver's components survive the rebuild
  // ---------------------------------------------------------------------

  /**
   * The lexer finds `suffix` again after the receiver's subtype: without a
   * suffix the subtype has no `+`; a suffix has no `;` or `+`, and no `.`
   * unless there is a facet before the subtype.
   */
  predicate SuffixFits(m: MediaType, suffix: Option<string>) {
    SubtypeOf(m).Some? ==>
      match suffix
      case None => '+' !in SubtypeOf(m).value
      case Some(x) => ';' !in x && '+' !in x && (FacetOf(m).None? ==> '.' !in x)
  }

  /** The receiver's own suffix fits. */
  lemma OwnSuffixFits(m: MediaType)
    ensures SuffixFits(m, Parse(m.rawValue).suffix)
  {
    var c := Parse(m.rawValue);
    ParseSpec(m.rawValue);
    if c.subtype.Some? && c.suffix.None? {
      TrimKeeps(c.subtype.value, '+');
    }
  }

  /** With a fitting suffix, the pieces the rebuilders pass to the constructor are composable. */
  lemma RebuildComposable(m: MediaType, suffix: Option<string>)
    requires Rebuildable(m) && SuffixFits(m, suffix)
    ensures var c := Parse(m.rawValue);
      Composable(TopLevelTypes.Of(c.typ), c.facet, c.subtype, suffix)
  {
    var c := Parse(m.rawValue);
    ParseSpec(m.rawValue);
    assert c.subtype.Some? ==>
      (SubtypeOf(m) == Some(Trim(c.subtype.value)) && (FacetOf(m).None? <==> c.facet.None?));
    ComposableOfLexed(c, suffix);
  }

  /** Lexed pieces with a non-empty type and a fitting suffix are composable. */
  lemma ComposableOfLexed(c: Components, suffix: Option<string>)
    requires Lexed(c) && c.typ != ""
    requires c.subtype.Some? ==> (
      match suffix
      case None => '+' !in Trim(c.subtype.value)
      case Some(x) => ';' !in x && '+' !in x && (c.facet.None? ==> '.' !in x))
    ensures Composable(TopLevelTypes.Of(c.typ), c.facet, c.subtype, suffix)
  {
    var raw := TopLevelTypes.RawValue(TopLevelTypes.Of(c.typ));
    assert ';' !in raw && '/' !in raw by {
      TopLevelTypes.OfKeeps(c.typ, ';');
      TopLevelTypes.OfKeeps(c.typ, '/');
    }
    if c.subtype.Some? && suffix.None? {
      TrimKeeps(c.subtype.value, '+');
    }
  }

  /** Rebuilding keeps the facet and the subtype, and puts the trimmed new suffix after a subtype. */
  lemma RebuildPieces(m: MediaType, suffix: Option<string>, parameters: Option<map<string, string>>)
    requires Rebuildable(m) && SuffixFits(m, suffix)
    ensures var r := Rebuild(m, suffix, parameters);
      && FacetOf(r) == FacetOf(m)
      && SubtypeOf(r) == SubtypeOf(m)
      && SuffixOf(r) == (if SubtypeOf(m).Some? then Trimmed(suffix) else None)
  {
    var c := Parse(m.rawValue);
    var t := TopLevelTypes.Of(c.typ);
    var r := Make(t, c.facet, c.subtype, suffix, parameters);
    RebuildComposable(m, suffix);
    assert FacetOf(m) == (if c.subtype.Some? then Trimmed(c.facet) else None);
    assert SubtypeOf(m) == Trimmed(c.subtype);
    MadeAccessors(t, c.facet, c.subtype, suffix, parameters);
    assert FacetOf(r) == FacetOf(m);
    assert SubtypeOf(r) == SubtypeOf(m);
  }

  /** Rebuilding keeps the type, and whether there is one, whatever the suffix. */
  lemma RebuildType(m: MediaType, suffix: Option<string>, parameters: Option<map<string, string>>)
    requires Rebuildable(m)
    ensures var r := Rebuild(m, suffix, parameters);
      && (HasType(r) <==> HasType(m))
      && (HasType(m) ==> TypeOf(r) == TypeOf(m))
  {
    var c := Parse(m.rawValue);
    var raw := TopLevelTypes.RawValue(TopLevelTypes.Of(c.typ));
    RebuildTypeText(m, suffix, parameters);
    TrimIdempotent(raw);
    TopLevelTypes.Reparse(c.typ);
  }

  /** `parse()` finds the trimmed type the rebuilders wrote in front of the first `/`, whatever follows it. */
  lemma RebuildTypeText(m: MediaType, suffix: Option<string>, parameters: Option<map<string, string>>)
    requires Rebuildable(m)
    ensures Parse(Rebuild(m, suffix, parameters).rawValue).typ
            == Trim(TopLevelTypes.RawValue(TopLevelTypes.Of(Parse(m.rawValue).typ)))
  {
    var c := Parse(m.rawValue);
    ParseSpec(m.rawValue);
    TopLevelTypes.OfKeepsTrimmed(c.typ, ';');
    TopLevelTypes.OfKeepsTrimmed(c.typ, '/');
    MadeTypeText(TopLevelTypes.Of(c.typ), c.facet, c.subtype, suffix, parameters);
  }

  /**
   * `parse()` finds the parameter block the rebuilders wrote, for any
   * suffix free of `;`: it follows the first `;`, which no piece in front
   * of it holds.
   */
  lemma RebuildParamsText(m: MediaType, suffix: Option<string>, parameters: Option<map<string, string>>)
    requires Rebuildable(m)
    requires suffix.Some? ==> ';' !in suffix.value
    ensures Parse(Rebuild(m, suffix, parameters).rawValue).parameters
            == MadeComponents(TopLevelTypes.Of(Parse(m.rawValue).typ), None, None, None, parameters).parameters
  {
    var c := Parse(m.rawValue);
    var mc := MadeComponents(TopLevelTypes.Of(c.typ), c.facet, c.subtype, suffix, parameters);
    ParseSpec(m.rawValue);
    TopLevelTypes.OfKeepsTrimmed(c.typ, ';');
    if c.subtype.Some? {
      TrimKeepsOut(c.subtype.value, ';');
      if suffix.Some? {
        TrimKeepsOut(suffix.value, ';');
      }
      SubtypeTextFree(mc.facet, mc.subtype.value, mc.suffix, ';');
    }
    MakeReassembles(TopLevelTypes.Of(c.typ), c.facet, c.subtype, suffix, parameters);
    ReassembledParams(mc);
  }

  /** The pairs read back from a rebuild do not depend on a suffix free of `;`. */
  lemma RebuildParams(m: MediaType, suffix: Option<string>, parameters: Option<map<string, string>>)
    requires Rebuildable(m)
    requires suffix.Some? ==> ';' !in suffix.value
    ensures Params(Rebuild(m, suffix, parameters)) == Params(Rebuild(m, Parse(m.rawValue).suffix, parameters))
  {
    var c := Parse(m.rawValue);
    ParseSpec(m.rawValue);
    RebuildParamsText(m, suffix, parameters);
    RebuildParamsText(m, c.suffix, parameters);
  }

  // ---------------------------------------------------------------------
  // Facts about the subscript
  // ---------------------------------------------------------------------

  /** The subscript depends on the name only up to case. */
  lemma {:induction false} LookupLower(ps: seq<Param>, a: string, b: string)
    requires Lower(a) == Lower(b)
    ensures Lookup(ps, a) == Lookup(ps, b)
  {
    if ps != [] {
      LookupLower(ps[..|ps| - 1], a, b);
    }
  }

  /** The subscript returns one of the pairs' values. */
  lemma {:induction false} LookupValue(ps: seq<Param>, name: string)
    requires Lookup(ps, name).Some?
    ensures exists i :: 0 <= i < |ps| && ps[i].value == Lookup(ps, name).value
  {
    var prefix := ps[..|ps| - 1];
    if Lookup(prefix, name).Some? {
      LookupValue(prefix, name);
      var i :| 0 <= i < |prefix| && prefix[i].value == Lookup(prefix, name).value;
      assert ps[i] == prefix[i];
    }
  }

  /**
   * Every name appears once, case-insensitively, and no value is empty:
   * the receivers whose parameters a rebuild keeps as they were.
   */
  predicate Plain(ps: seq<Param>) {
    && (forall i, j :: 0 <= i < |ps| && 0 <= j < |ps| && Lower(ps[i].name) == Lower(ps[j].name) ==> i == j)
    && (forall i :: 0 <= i < |ps| ==> ps[i].value != "")
  }

  // ---------------------------------------------------------------------
  // The dictionary of `adding(parameter:value:)` and `removing(parameter:)`
  // ---------------------------------------------------------------------

  /** Its keys and values come from clean pairs, and no key matches `key`. */
  lemma UnmatchedWellFormed(ps: seq<Param>, key: string)
    requires forall i :: 0 <= i < |ps| ==> Clean(ps[i])
    ensures WellFormedParams(Unmatched(ps, key))
    ensures forall k :: k in Unmatched(ps, key) ==> NoEdgeSpace(k) && Lower(k) != Lower(key)
    ensures forall k :: k in Unmatched(ps, key) ==> NoEdgeSpace(Unmatched(ps, key)[k])
  {
    UnmatchedKeys(ps, key);
    UnmatchedValues(ps, key);
  }

  /** For plain pairs, every key holds what the subscript returns for it. */
  lemma UnmatchedAgrees(ps: seq<Param>, key: string, k: string)
    requires Plain(ps)
    requires k in Unmatched(ps, key)
    ensures Lookup(ps, k) == Some(Unmatched(ps, key)[k])
    ensures Unmatched(ps, key)[k] != ""
  {
    UnmatchedValues(ps, key);
    var i :| 0 <= i < |ps| && ps[i].name == k && ps[i].value == Unmatched(ps, key)[k]
             && forall j :: i < j < |ps| ==> ps[j].name != k;
    LookupAt(ps, k, i);
  }

  /** Every name other than `key` that the subscript finds is a key. */
  lemma UnmatchedCovers(ps: seq<Param>, key: string, name: string)
    requires Lower(name) != Lower(key)
    requires Lookup(ps, name).Some?
    ensures exists k :: k in Unmatched(ps, key) && Lower(k) == Lower(name)
  {
    LookupNone(ps, name);
    var i :| 0 <= i < |ps| && NameIs(ps[i], name);
    UnmatchedKeys(ps, key);
    assert ps[i].name in Unmatched(ps, key);
  }

  /** For plain pairs, no two keys differ only in case. */
  lemma UnmatchedDistinct(ps: seq<Param>, key: string)
    requires Plain(ps)
    ensures forall k, k' :: k in Unmatched(ps, key) && k' in Unmatched(ps, key) && Lower(k) == Lower(k') ==> k == k'
  {
    UnmatchedKeys(ps, key);
  }

  /**
   * The rebuilt subscript agrees with the receiver's for every name other
   * than `key`, when the dictionary holds the unmatched pairs and nothing
   * else but keys that match `key`.
   */
  lemma RebuiltOthers(m: MediaType, key: string, d: map<string, string>, name: string)
    requires Rebuildable(m) && Plain(Params(m))
    requires WellFormedParams(d) && CaseDistinct(d)
    requires forall k :: k in Unmatched(Params(m), key) ==> k in d && d[k] == Unmatched(Params(m), key)[k]
    requires forall k :: k in d && k !in Unmatched(Params(m), key) ==> Lower(Trim(k)) == Lower(key)
    requires Lower(name) != Lower(key)
    ensures Lookup(Params(Rebuild(m, Parse(m.rawValue).suffix, Some(d))), name) == Lookup(Params(m), name)
  {
    var c := Parse(m.rawValue);
    var ps := Params(m);
    var u := Unmatched(ps, key);
    var t := TopLevelTypes.Of(c.typ);
    OwnSuffixFits(m);
    RebuildComposable(m, c.suffix);
    UnmatchedWellFormed(ps, key);
    if k :| k in u && Lower(k) == Lower(name) {
      TrimNoEdgeSpace(k);
      MadeLookup(t, c.facet, c.subtype, c.suffix, d, k, name);
      UnmatchedAgrees(ps, key, k);
      TrimNoEdgeSpace(u[k]);
      LookupLower(ps, k, name);
    } else {
      forall k | k in d ensures Lower(Trim(k)) != Lower(name) {
        if k in u {
          TrimNoEdgeSpace(k);
        }
      }
      MadeLookupNone(t, c.facet, c.subtype, c.suffix, d, name);
      if Lookup(ps, name).Some? {
        UnmatchedCovers(ps, key, name);
      }
    }
  }

  // ---------------------------------------------------------------------
  // adding(parameter:value:), removing(parameter:), removingParameters()
  // ---------------------------------------------------------------------

  /** The parameter rebuilders keep the type, facet, subtype and suffix. */
  lemma ParameterRebuildKeeps(m: MediaType, parameters: Option<map<string, string>>)
    requires Rebuildable(m)
    ensures var r := Rebuild(m, Parse(m.rawValue).suffix, parameters);
      && FacetOf(r) == FacetOf(m)
      && SubtypeOf(r) == SubtypeOf(m)
      && SuffixOf(r) == SuffixOf(m)
      && (HasType(r) <==> HasType(m))
      && (HasType(m) ==> TypeOf(r) == TypeOf(m))
  {
    var c := Parse(m.rawValue);
    OwnSuffixFits(m);
    RebuildPieces(m, c.suffix, parameters);
    RebuildType(m, c.suffix, parameters);
    assert SuffixOf(m) == (if SubtypeOf(m).Some? then Trimmed(c.suffix) else None) by {
      ParseSpec(m.rawValue);
    }
  }

  /** The name, trimmed, reads back the trimmed value; an empty value leaves no pair. */
  lemma AddParameterSets(m: MediaType, name: string, value: string)
    requires Rebuildable(m)
    requires ';' !in name && '=' !in name && ';' !in value
    ensures Lookup(Params(AddParameter(m, name, value)), Trim(name))
            == if value == "" then None else Some(Trim(value))
  {
    var c := Parse(m.rawValue);
    var ps := Params(m);
    var key := Trim(name);
    var u := Unmatched(ps, key);
    var d := u[name := value];
    AddedKeys(ps, name, value);
    OwnSuffixFits(m);
    RebuildComposable(m, c.suffix);
    MadeLookup(TopLevelTypes.Of(c.typ), c.facet, c.subtype, c.suffix, d, name, key);
  }

  /**
   * Whatever the receiver holds, the dictionary `adding(parameter:value:)`
   * builds is well formed and the new name is its only key that matches
   * the trimmed name.
   */
  lemma AddedKeys(ps: seq<Param>, name: string, value: string)
    requires forall i :: 0 <= i < |ps| ==> Clean(ps[i])
    requires ';' !in name && '=' !in name && ';' !in value
    ensures var d := Unmatched(ps, Trim(name))[name := value];
      && WellFormedParams(d)
      && (forall k :: k in d && Lower(Trim(k)) == Lower(Trim(name)) ==> k == name)
  {
    var key := Trim(name);
    var u := Unmatched(ps, key);
    var d := u[name := value];
    UnmatchedWellFormed(ps, key);
    forall k | k in d && k != name ensures ';' !in k && '=' !in k && ';' !in d[k] && Lower(Trim(k)) != Lower(key) {
      assert k in u;
      TrimNoEdgeSpace(k);
    }
  }

  /**
   * The dictionary `adding(parameter:value:)` builds is well formed and
   * case-distinct, and holds the kept pairs plus the new name.
   */
  lemma AddedMap(ps: seq<Param>, name: string, value: string)
    requires forall i :: 0 <= i < |ps| ==> Clean(ps[i])
    requires Plain(ps)
    requires ';' !in name && '=' !in name && ';' !in value
    ensures var u := Unmatched(ps, Trim(name));
      && WellFormedParams(u[name := value]) && CaseDistinct(u[name := value])
      && (forall k :: k in u ==> k in u[name := value] && u[name := value][k] == u[k])
      && (forall k :: k in u[name := value] && k !in u ==> Lower(Trim(k)) == Lower(Trim(name)))
  {
    var key := Trim(name);
    var u := Unmatched(ps, key);
    var d := u[name := value];
    UnmatchedWellFormed(ps, key);
    NameUnmatched(ps, name);
    assert WellFormedParams(d) by {
      forall k | k in d ensures ';' !in k && '=' !in k && ';' !in d[k] {
        if k != name {
          assert k in u;
        }
      }
    }
    assert CaseDistinct(d) by {
      UnmatchedDistinct(ps, key);
      forall k | k in u ensures Trim(k) == k {
        TrimNoEdgeSpace(k);
      }
      forall k, k' | k in d && k' in d && Lower(Trim(k)) == Lower(Trim(k')) ensures k == k' {
        if k != name && k' != name {
          assert k in u && k' in u;
        }
      }
    }
  }

  /** The name being added is never among the kept spellings, even untrimmed. */
  lemma NameUnmatched(ps: seq<Param>, name: string)
    requires forall i :: 0 <= i < |ps| ==> Clean(ps[i])
    ensures name !in Unmatched(ps, Trim(name))
  {
    if name in Unmatched(ps, Trim(name)) {
      UnmatchedWellFormed(ps, Trim(name));
      TrimNoEdgeSpace(name);
      assert false;
    }
  }

  /** Every other name reads back what it read before. */
  lemma AddParameterKeeps(m: MediaType, name: string, value: string, other: string)
    requires Rebuildable(m) && Plain(Params(m))
    requires ';' !in name && '=' !in name && ';' !in value
    requires Lower(other) != Lower(Trim(name))
    ensures Lookup(Params(AddParameter(m, name, value)), other) == Lookup(Params(m), other)
  {
    var key := Trim(name);
    var u := Unmatched(Params(m), key);
    AddedMap(Params(m), name, value);
    RebuiltOthers(m, key, u[name := value], other);
  }

  /** The removed name reads back nil, whatever the receiver held. */
  lemma RemoveParameterClears(m: MediaType, name: string)
    requires Rebuildable(m)
    ensures Lookup(Params(RemoveParameter(m, name)), Trim(name)) == None
  {
    var c := Parse(m.rawValue);
    var ps := Params(m);
    var u := Unmatched(ps, Trim(name));
    UnmatchedWellFormed(ps, Trim(name));
    forall k | k in u ensures Lower(Trim(k)) != Lower(Trim(name)) {
      TrimNoEdgeSpace(k);
    }
    OwnSuffixFits(m);
    RebuildComposable(m, c.suffix);
    MadeLookupNone(TopLevelTypes.Of(c.typ), c.facet, c.subtype, c.suffix, u, Trim(name));
  }

  /** Every other name reads back what it read before. */
  lemma RemoveParameterKeeps(m: MediaType, name: string, other: string)
    requires Rebuildable(m) && Plain(Params(m))
    requires Lower(other) != Lower(Trim(name))
    ensures Lookup(Params(RemoveParameter(m, name)), other) == Lookup(Params(m), other)
  {
    var ps := Params(m);
    var u := Unmatched(ps, Trim(name));
    UnmatchedWellFormed(ps, Trim(name));
    UnmatchedDistinct(ps, Trim(name));
    forall k | k in u ensures Trim(k) == k {
      TrimNoEdgeSpace(k);
    }
    RebuiltOthers(m, Trim(name), u, other);
  }

  /** No parameter is left. */
  lemma RemoveParametersClears(m: MediaType)
    requires Rebuildable(m)
    ensures Params(RemoveParameters(m)) == []
  {
    var c := Parse(m.rawValue);
    OwnSuffixFits(m);
    RebuildComposable(m, c.suffix);
    ParamsOfMake(TopLevelTypes.Of(c.typ), c.facet, c.subtype, c.suffix, None);
  }

  // ---------------------------------------------------------------------
  // The dictionary of adding(suffix:), removingSuffix() and normalized()
  // ---------------------------------------------------------------------

  /**
   * Its keys are trimmed, lowercase and free of `;` and `=`, and its
   * values trimmed and free of `;`: the constructor writes them as they are.
   */
  lemma ByLowerNameMap(ps: seq<Param>)
    requires forall i :: 0 <= i < |ps| ==> Clean(ps[i])
    ensures var d := FirstByLowerName(ps);
      && WellFormedParams(d) && CaseDistinct(d)
      && (forall k :: k in d ==> Trim(k) == k && Lower(k) == k && NoEdgeSpace(d[k]))
  {
    var d := FirstByLowerName(ps);
    FirstByLowerNameSpec(ps);
    forall k | k in d
      ensures Trim(k) == k && Lower(k) == k && NoEdgeSpace(d[k])
      ensures ';' !in k && '=' !in k && ';' !in d[k]
    {
      var i :| 0 <= i < |ps| && Lower(ps[i].name) == k;
      LowerIdempotent(ps[i].name);
      LowerNoEdgeSpace(ps[i].name);
      TrimNoEdgeSpace(k);
      LowerKeeps(ps[i].name, ';');
      LowerKeeps(ps[i].name, '=');
      LookupValue(ps, k);
    }
  }

  /**
   * Rebuilding from that dictionary keeps what the subscript returns for
   * every name, except that a name whose first value is empty reads back nil.
   */
  lemma ByLowerNameLookup(m: MediaType, suffix: Option<string>, name: string)
    requires Rebuildable(m)
    requires suffix.Some? ==> ';' !in suffix.value
    ensures var l := Lookup(Params(m), name);
      Lookup(Params(Rebuild(m, suffix, Some(FirstByLowerName(Params(m))))), name)
      == if l == Some("") then None else l
  {
    var c := Parse(m.rawValue);
    RebuildParams(m, suffix, Some(FirstByLowerName(Params(m))));
    OwnSuffixFits(m);
    RebuildComposable(m, c.suffix);
    MadeFirstValues(TopLevelTypes.Of(c.typ), c.facet, c.subtype, c.suffix, Params(m), name);
  }

  /**
   * Building from the first value per lowercased name keeps what the
   * subscript returns, except that a blank first value reads back nil.
   */
  lemma MadeFirstValues(typ: TopLevelTypes.TopLevelType, facet: Option<string>, subtype: Option<string>,
                        suffix: Option<string>, ps: seq<Param>, name: string)
    requires Composable(typ, facet, subtype, suffix)
    requires forall i :: 0 <= i < |ps| ==> Clean(ps[i])
    ensures var l := Lookup(ps, name);
      Lookup(Params(Make(typ, facet, subtype, suffix, Some(FirstByLowerName(ps)))), name)
      == if l == Some("") then None else l
  {
    var d := FirstByLowerName(ps);
    ByLowerNameMap(ps);
    FirstByLowerNameSpec(ps);
    LowerIdempotent(name);
    if Lower(name) in d {
      MadeFirstValuesFound(typ, facet, subtype, suffix, ps, name);
    } else {
      MadeLookupNone(typ, facet, subtype, suffix, d, name);
      forall i | 0 <= i < |ps| ensures !NameIs(ps[i], name) {
        assert Lower(ps[i].name) in LowerNames(ps);
      }
      LookupNone(ps, name);
    }
  }

  /** ... for a name that is among the lowercased names. */
  lemma MadeFirstValuesFound(typ: TopLevelTypes.TopLevelType, facet: Option<string>, subtype: Option<string>,
                             suffix: Option<string>, ps: seq<Param>, name: string)
    requires Composable(typ, facet, subtype, suffix)
    requires forall i :: 0 <= i < |ps| ==> Clean(ps[i])
    requires Lower(name) in FirstByLowerName(ps)
    ensures var l := Lookup(ps, name);
      Lookup(Params(Make(typ, facet, subtype, suffix, Some(FirstByLowerName(ps)))), name)
      == if l == Some("") then None else l
  {
    var d := FirstByLowerName(ps);
    var k := Lower(name);
    ByLowerNameMap(ps);
    FirstByLowerNameSpec(ps);
    LowerIdempotent(name);
    MadeLookup(typ, facet, subtype, suffix, d, k, name);
    TrimNoEdgeSpace(d[k]);
    LookupLower(ps, k, name);
  }

  // ---------------------------------------------------------------------
  // adding(suffix:), removingSuffix()
  // ---------------------------------------------------------------------

  /**
   * `adding(suffix:)`: an empty suffix gives the receiver back; otherwise
   * a fitting suffix reads back trimmed after the subtype (and is dropped
   * without one), the type, facet and subtype stay, and so does every
   * parameter except that an empty first value reads back nil.
   */
  lemma AddSuffixSets(m: MediaType, suffix: string)
    requires suffix != "" ==> Rebuildable(m) && SuffixFits(m, Some(suffix))
    ensures var r := AddSuffix(m, suffix);
      && FacetOf(r) == FacetOf(m)
      && SubtypeOf(r) == SubtypeOf(m)
      && SuffixOf(r) == (if suffix == "" then SuffixOf(m)
                         else if SubtypeOf(m).Some? then Some(Trim(suffix)) else None)
      && (HasType(r) <==> HasType(m))
      && (HasType(m) ==> TypeOf(r) == TypeOf(m))
      && (suffix == "" ==> r == m)
  {
    if suffix != "" {
      var params := Some(FirstByLowerName(Params(m)));
      RebuildPieces(m, Some(suffix), params);
      RebuildType(m, Some(suffix), params);
    }
  }

  /** `adding(suffix:)` keeps the parameters, except that an empty first value reads back nil. */
  lemma AddSuffixParams(m: MediaType, suffix: string, name: string)
    requires suffix != "" ==> Rebuildable(m) && ';' !in suffix
    ensures var l := Lookup(Params(m), name);
      Lookup(Params(AddSuffix(m, suffix)), name) == if suffix != "" && l == Some("") then None else l
  {
    if suffix != "" {
      ByLowerNameLookup(m, Some(suffix), name);
    }
  }

  /**
   * `removingSuffix()`: when the subtype has no `+` left to expose, the
   * result has no suffix; the type, facet and subtype stay.
   */
  lemma RemoveSuffixClears(m: MediaType)
    requires Rebuildable(m) && SuffixFits(m, None)
    ensures var r := RemoveSuffix(m);
      && SuffixOf(r).None?
      && FacetOf(r) == FacetOf(m)
      && SubtypeOf(r) == SubtypeOf(m)
      && (HasType(r) <==> HasType(m))
      && (HasType(m) ==> TypeOf(r) == TypeOf(m))
  {
    var params := Some(FirstByLowerName(Params(m)));
    RebuildPieces(m, None, params);
    RebuildType(m, None, params);
  }

  /** `removingSuffix()` keeps the parameters, except that an empty first value reads back nil. */
  lemma RemoveSuffixParams(m: MediaType, name: string)
    requires Rebuildable(m)
    ensures var l := Lookup(Params(m), name);
      Lookup(Params(RemoveSuffix(m)), name) == if l == Some("") then None else l
  {
    ByLowerNameLookup(m, None, name);
  }

  /**
   * ... but when the subtype holds a `+` of its own, as in
   * `image/jpeg+2000+q10`, `removingSuffix()` drops `q10` and the result
   * reads `2000` as its suffix.
   */
  lemma RemoveSuffixReexposes(typ: string, a: string, b: string, x: string)
    requires typ != "" && ';' !in typ && '/' !in typ
    requires ';' !in a && '.' !in a && a != "" && NoEdgeSpace(a)
    requires ';' !in b && '.' !in b && '+' !in b && b != "" && NoEdgeSpace(b)
    requires ';' !in x && '.' !in x && '+' !in x
    ensures var m := MediaType(typ + ['/'] + a + ['+'] + b + ['+'] + x);
      && Rebuildable(m)
      && SuffixOf(m) == Some(Trim(x))
      && SuffixOf(RemoveSuffix(m)) == Some(b)
  {
    var m := MediaType(typ + ['/'] + a + ['+'] + b + ['+'] + x);
    DoublePlusParse(typ, a, b, x);
    RemoveSuffixOfParts(m, typ, a, b, x);
  }

  lemma RemoveSuffixOfParts(m: MediaType, typ: string, a: string, b: string, x: string)
    requires typ != "" && ';' !in typ && '/' !in typ
    requires ';' !in a && '.' !in a && a != "" && NoEdgeSpace(a)
    requires ';' !in b && '.' !in b && '+' !in b && b != "" && NoEdgeSpace(b)
    requires Parse(m.rawValue) == Components(typ, None, Some(a + ['+'] + b), Some(x), None)
    ensures Rebuildable(m) && SuffixOf(RemoveSuffix(m)) == Some(b)
  {
    var head := RemoveSuffixText(m, typ, a, b, x);
    SuffixOfText(RemoveSuffix(m), head, a, b);
  }

  /** With no parameters and no facet, `removingSuffix()` writes the trimmed type, `/` and the subtype. */
  lemma RemoveSuffixText(m: MediaType, typ: string, a: string, b: string, x: string) returns (head: string)
    requires typ != "" && ';' !in typ && '/' !in typ
    requires a != "" && NoEdgeSpace(a) && b != "" && NoEdgeSpace(b)
    requires Parse(m.rawValue) == Components(typ, None, Some(a + ['+'] + b), Some(x), None)
    ensures Rebuildable(m)
    ensures ';' !in head && '/' !in head
    ensures RemoveSuffix(m).rawValue == head + ['/'] + a + ['+'] + b
  {
    var sub := a + ['+'] + b;
    var t := TopLevelTypes.Of(typ);
    head := Trim(TopLevelTypes.RawValue(t));
    TopLevelTypes.OfKeepsTrimmed(typ, ';');
    TopLevelTypes.OfKeepsTrimmed(typ, '/');
    assert RemoveSuffix(m) == Make(t, None, Some(sub), None, Some(map[])) by {
      assert Params(m) == [];
    }
    MadeTypeSubtype(t, sub);
    NoEdgeSpaceJoin(a, '+', b);
    TrimNoEdgeSpace(sub);
    Regroup(head + ['/'], a + ['+'], b);
    Regroup(head + ['/'], a, ['+']);
  }

  /**
   * `removingSuffix()` rebuilds even a receiver without a suffix: for
   * `type/subtype` with no parameters it writes the trimmed raw value of
   * the type, `/` and the subtype.
   */
  lemma RemoveSuffixOfPlain(typ: string, sub: string)
    requires typ != "" && ';' !in typ && '/' !in typ
    requires sub != "" && NoEdgeSpace(sub) && ';' !in sub && '.' !in sub && '+' !in sub
    ensures var m := MediaType(typ + ['/'] + sub);
      && Rebuildable(m) && SuffixOf(m).None?
      && RemoveSuffix(m).rawValue == Trim(TopLevelTypes.RawValue(TopLevelTypes.Of(typ))) + ['/'] + sub
  {
    var m := MediaType(typ + ['/'] + sub);
    var c := Components(typ, None, Some(sub), None, None);
    assert Reassemble(c) == m.rawValue;
    ParseUnique(c);
    assert Params(m) == [];
    assert RemoveSuffix(m) == Make(TopLevelTypes.Of(typ), None, Some(sub), None, Some(map[]));
    MadeTypeSubtype(TopLevelTypes.Of(typ), sub);
    TrimNoEdgeSpace(sub);
  }

  /** Different texts stay different with the same delimiter and text after them. */
  lemma SameTailDiffers(a: string, b: string, d: char, t: string)
    requires a != b
    ensures a + [d] + t != b + [d] + t
  {
    assert (a + [d] + t)[..|a|] == a;
    assert (b + [d] + t)[..|b|] == b;
  }

  /** ... so a receiver without a suffix whose type text is not its own trimmed raw value comes back changed. */
  lemma RemoveSuffixChanges(m: MediaType, typ: string, sub: string)
    requires m.rawValue == typ + ['/'] + sub
    requires typ != "" && ';' !in typ && '/' !in typ
    requires sub != "" && NoEdgeSpace(sub) && ';' !in sub && '.' !in sub && '+' !in sub
    requires Trim(TopLevelTypes.RawValue(TopLevelTypes.Of(typ))) != typ
    ensures Rebuildable(m) && SuffixOf(m).None?
    ensures RemoveSuffix(m).rawValue == Trim(TopLevelTypes.RawValue(TopLevelTypes.Of(typ))) + ['/'] + sub
    ensures RemoveSuffix(m).rawValue != m.rawValue
  {
    var head := Trim(TopLevelTypes.RawValue(TopLevelTypes.Of(typ)));
    RemoveSuffixOfPlain(typ, sub);
    SameTailDiffers(head, typ, '/', sub);
  }

  /**
   * Although `removingSuffix()` is documented to return a receiver without
   * a suffix as it is, `TeXt/plain` comes back as `text/plain`.
   */
  lemma RemoveSuffixRebuilds(m: MediaType)
    requires m.rawValue == "TeXt" + ['/'] + "plain"
    ensures Rebuildable(m) && SuffixOf(m).None?
    ensures RemoveSuffix(m).rawValue == "text" + ['/'] + "plain" != m.rawValue
  {
    TeXtPlainPieces();
    RemoveSuffixChanges(m, "TeXt", "plain");
  }

  /** `TeXt` and `plain` are delimiter-free, and `TeXt` is not the trimmed raw value of its type, `text`. */
  lemma TeXtPlainPieces()
    ensures "TeXt" != "" && ';' !in "TeXt" && '/' !in "TeXt"
    ensures "plain" != "" && NoEdgeSpace("plain") && ';' !in "plain" && '.' !in "plain" && '+' !in "plain"
    ensures Trim(TopLevelTypes.RawValue(TopLevelTypes.Of("TeXt"))) == "text" != "TeXt"
  {
    TopLevelTypes.MixedCaseText();
    TrimNoEdgeSpace("text");
  }

  /** `parse()` cuts `type/a+b+x` at the last `+`: the subtype is `a+b`. */
  lemma DoublePlusParse(typ: string, a: string, b: string, x: string)
    requires ';' !in typ && '/' !in typ
    requires ';' !in a && '.' !in a
    requires ';' !in b && '.' !in b
    requires ';' !in x && '.' !in x && '+' !in x
    ensures Parse(typ + ['/'] + a + ['+'] + b + ['+'] + x)
            == Components(typ, None, Some(a + ['+'] + b), Some(x), None)
  {
    var p := typ + ['/'];
    var sub := a + ['+'] + b;
    var c := Components(typ, None, Some(sub), Some(x), None);
    Regroup(p, a + ['+'], b);
    Regroup(p, a, ['+']);
    Regroup(p, sub + ['+'], x);
    Regroup(p, sub, ['+']);
    ParseUnique(c);
  }

  /** The constructor given only a type and a subtype writes the trimmed type, `/` and the trimmed subtype. */
  lemma MadeTypeSubtype(t: TopLevelTypes.TopLevelType, sub: string)
    ensures Make(t, None, Some(sub), None, Some(map[])).rawValue
            == Trim(TopLevelTypes.RawValue(t)) + ['/'] + Trim(sub)
  {
    var e: map<string, string> := map[];
    MakeReassembles(t, None, Some(sub), None, Some(e));
  }

  lemma SuffixOfText(r: MediaType, head: string, a: string, b: string)
    requires r.rawValue == head + ['/'] + a + ['+'] + b
    requires ';' !in head && '/' !in head
    requires ';' !in a && '.' !in a
    requires ';' !in b && '.' !in b && '+' !in b && NoEdgeSpace(b)
    ensures SuffixOf(r) == Some(b)
  {
    SuffixAtLastPlus(head, a, b);
    TrimNoEdgeSpace(b);
  }
}
