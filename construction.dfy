/**
 * What `init(type:facet:subtype:suffix:parameters:)` (MediaType.swift)
 * builds, read back through `parse()` and `forEach`: the components it
 * was given, trimmed, and one pair per parameter whose value is not empty.
 */
module Construction {
  import opened Wrappers
  import opened Strings
  import TopLevelTypes
  import opened MediaTypes
  import opened Lexing

  /** `map { $0.trimmed() }` on an optional string. */
  function Trimmed(o: Option<string>): Option<string> {
    match o
    case None => None
    case Some(s) => Some(Trim(s))
  }

  // ---------------------------------------------------------------------
  // The serialized parameter block
  // ---------------------------------------------------------------------

  /** One serialized parameter after its `;`: a space, the trimmed name, `=` and the value verbatim. */
  function Entry(k: string, v: string): string {
    " " + Trim(k) + "=" + v
  }

  /** The serialized parameters of `keys`, in order, each without its leading `;`. */
  function Entries(keys: seq<string>, d: map<string, string>): (r: seq<string>)
    requires forall k :: k in keys ==> k in d
    ensures |r| == |keys|
  {
    if keys == [] then []
    else
      var k := keys[|keys| - 1];
      Entries(keys[..|keys| - 1], d) + [Entry(k, d[k])]
  }

  /** Regroups one written entry as its `;` followed by the entry text. */
  lemma SemicolonEntry(t: string, v: string)
    ensures "; " + t + "=" + v == [';'] + (" " + t + "=" + v)
  {
  }

  /** Regroups a `;`-joined prefix, a `;` and one more entry under a single leading `;`. */
  lemma SemicolonJoin(a: string, b: string)
    ensures [';'] + a + ([';'] + b) == [';'] + (a + [';'] + b)
  {
  }

  /** The `reduce` writes a `;` in front of each entry, which makes them `;`-joined after a first `;`. */
  lemma {:induction false} SerializeJoin(keys: seq<string>, d: map<string, string>)
    requires forall k :: k in keys ==> k in d
    requires keys != []
    ensures Serialize(keys, d) == [';'] + Join(Entries(keys, d), ';')
  {
    var n := |keys| - 1;
    var k := keys[n];
    var prefix := keys[..n];
    assert forall j :: j in prefix ==> j in keys;
    var e := Entry(k, d[k]);
    assert Serialize(keys, d) == Serialize(prefix, d) + ([';'] + e) by {
      SemicolonEntry(Trim(k), d[k]);
    }
    var es := Entries(prefix, d);
    assert Entries(keys, d) == es + [e];
    if prefix == [] {
      assert es + [e] == [e];
      assert Serialize(prefix, d) + ([';'] + e) == [';'] + e;
      assert Join([e], ';') == e;
    } else {
      var joined := Join(es, ';');
      SerializeJoin(prefix, d);
      assert Serialize(keys, d) == [';'] + joined + ([';'] + e);
      JoinSnoc(es, e, ';');
      assert Join(Entries(keys, d), ';') == joined + [';'] + e;
      SemicolonJoin(joined, e);
    }
  }

  /** Neither `;` nor `=` in a name, no `;` in a value: the pairs survive being serialized. */
  predicate WellFormedParams(d: map<string, string>) {
    forall k :: k in d ==> ';' !in k && '=' !in k && ';' !in d[k]
  }

  /** The pairs `forEach` reads back from the serialized parameters: empty values are skipped. */
  function Pairs(keys: seq<string>, d: map<string, string>): seq<Param>
    requires forall k :: k in keys ==> k in d
  {
    if keys == [] then []
    else
      var k := keys[|keys| - 1];
      Pairs(keys[..|keys| - 1], d) + (if d[k] == "" then [] else [Param(Trim(k), Trim(d[k]))])
  }

  /** An entry is read back as its trimmed name and value; an empty value makes it no pair. */
  lemma EntrySegment(k: string, v: string)
    requires '=' !in k
    ensures Segment(Entry(k, v)) == if v == "" then None else Some(Param(Trim(k), Trim(v)))
  {
    var name := " " + Trim(k);
    assert '=' !in name by {
      if '=' in Trim(k) { TrimChars(k, '='); }
    }
    assert Trim(name) == Trim(k) by {
      TrimAfterSpace(" ", Trim(k));
      TrimIdempotent(k);
    }
    assert name != "";
    assert Entry(k, v) == name + "=" + v;
    SegmentOf(name, v);
  }

  lemma EntryFree(k: string, v: string)
    requires ';' !in k && ';' !in v
    ensures ';' !in Entry(k, v)
  {
    assert ';' !in Trim(k) by {
      if ';' in Trim(k) { TrimChars(k, ';'); }
    }
    assert Entry(k, v) == " " + Trim(k) + "=" + v;
  }

  /** No serialized entry holds a `;`. */
  lemma {:induction false} EntriesFree(keys: seq<string>, d: map<string, string>)
    requires forall k :: k in keys ==> k in d
    requires forall k :: k in d ==> ';' !in k && ';' !in d[k]
    ensures forall i :: 0 <= i < |keys| ==> ';' !in Entries(keys, d)[i]
  {
    if keys != [] {
      var n := |keys| - 1;
      var k := keys[n];
      var prefix := keys[..n];
      assert forall j :: j in prefix ==> j in keys;
      EntriesFree(prefix, d);
      var es := Entries(keys, d);
      assert es == Entries(prefix, d) + [Entry(k, d[k])];
      forall i | 0 <= i < |keys| ensures ';' !in es[i] {
        if i < n {
          assert es[i] == Entries(prefix, d)[i];
        } else {
          EntryFree(k, d[k]);
        }
      }
    }
  }

  /** Collecting the serialized entries gives the pairs. */
  lemma {:induction false} CollectEntries(keys: seq<string>, d: map<string, string>)
    requires forall k :: k in keys ==> k in d
    requires forall k :: k in d ==> ';' !in k && '=' !in k && ';' !in d[k]
    requires forall i :: 0 <= i < |keys| ==> ';' !in Entries(keys, d)[i]
    ensures Collect(Entries(keys, d)) == Pairs(keys, d)
  {
    if keys != [] {
      var n := |keys| - 1;
      var k := keys[n];
      var prefix := keys[..n];
      assert forall j :: j in prefix ==> j in keys;
      var es := Entries(keys, d);
      var last := Entry(k, d[k]);
      assert es == Entries(prefix, d) + [last];
      assert es[..n] == Entries(prefix, d) && es[n] == last;
      var found := if d[k] == "" then [] else [Param(Trim(k), Trim(d[k]))];
      assert Pairs(keys, d) == Pairs(prefix, d) + found;
      CollectEntries(prefix, d);
      assert Collect(es) == Collect(es[..n]) + found by {
        EntrySegment(k, d[k]);
      }
    }
  }

  // ---------------------------------------------------------------------
  // Parsing what the constructor built
  // ---------------------------------------------------------------------

  /**
   * The components `parse()` finds in what the constructor built: facet
   * and suffix only with a subtype, trimmed subtype and suffix, the facet
   * verbatim, and the entries of a non-empty dictionary.
   */
  function MadeComponents(typ: TopLevelTypes.TopLevelType, facet: Option<string>, subtype: Option<string>,
                          suffix: Option<string>, parameters: Option<map<string, string>>): Components
  {
    Components(
      Trim(TopLevelTypes.RawValue(typ)),
      if subtype.Some? then facet else None,
      Trimmed(subtype),
      if subtype.Some? then Trimmed(suffix) else None,
      match parameters
      case None => None
      case Some(d) =>
        if d == map[] then None
        else Some(Join(Entries(SortedKeys(d.Keys), d), ';')))
  }

  /** The subtype part without facet or suffix is `/` and the subtype. */
  lemma SlashPlain(s: string)
    ensures "/" + "" + s + "" == ['/'] + s
  {
  }

  /** The subtype part with a suffix only is `/` followed by `subtype+suffix`. */
  lemma SlashSuffix(s: string, x: string)
    ensures "/" + "" + s + ("+" + x) == ['/'] + (s + ['+'] + x)
  {
  }

  /** The subtype part with a facet only is `/` followed by `facet.subtype`. */
  lemma SlashFacet(f: string, s: string)
    ensures "/" + (f + ".") + s + "" == ['/'] + (f + ['.'] + s)
  {
  }

  /** The subtype part with facet and suffix is `/` followed by `facet.subtype+suffix`. */
  lemma SlashFacetSuffix(f: string, s: string, x: string)
    ensures "/" + (f + ".") + s + ("+" + x) == ['/'] + (f + ['.'] + (s + ['+'] + x))
  {
  }

  /** The subtype part the constructor writes is `/` and the text the lexer cuts after it. */
  lemma SubtypeTextOfMake(facet: Option<string>, subtype: string, suffix: Option<string>)
    ensures "/" + (if facet.Some? then facet.value + "." else "") + Trim(subtype)
              + (if suffix.Some? then "+" + Trim(suffix.value) else "")
            == ['/'] + SubtypeText(facet, Trim(subtype), Trimmed(suffix))
  {
    match (facet, suffix)
    case (None, None) => SlashPlain(Trim(subtype));
    case (None, Some(x)) => SlashSuffix(Trim(subtype), Trim(x));
    case (Some(f), None) => SlashFacet(f, Trim(subtype));
    case (Some(f), Some(x)) => SlashFacetSuffix(f, Trim(subtype), Trim(x));
  }

  /** Concatenation regrouped to the left, as the reassembly writes it. */
  lemma Regroup(a: string, b: string, c: string)
    ensures a + (b + c) == a + b + c
  {
  }

  /** The type and subtype the constructor writes are the front of the reassembly. */
  lemma MadeFront(typ: TopLevelTypes.TopLevelType, facet: Option<string>, subtype: Option<string>,
                  suffix: Option<string>)
    ensures var c := MadeComponents(typ, facet, subtype, suffix, None);
      Trim(TopLevelTypes.RawValue(typ))
      + (if subtype.None? then ""
         else "/" + (if facet.Some? then facet.value + "." else "") + Trim(subtype.value)
              + (if suffix.Some? then "+" + Trim(suffix.value) else ""))
      == if c.subtype.Some? then c.typ + ['/'] + SubtypeText(c.facet, c.subtype.value, c.suffix) else c.typ
  {
    var c := MadeComponents(typ, facet, subtype, suffix, None);
    var head := Trim(TopLevelTypes.RawValue(typ));
    if subtype.Some? {
      SubtypeTextOfMake(facet, subtype.value, suffix);
      Regroup(head, ['/'], SubtypeText(c.facet, c.subtype.value, c.suffix));
    } else {
      assert head + "" == head;
    }
  }

  /** The constructor's parameter text is empty without a block, and `;` before it with one. */
  lemma MadeParamsText(typ: TopLevelTypes.TopLevelType, facet: Option<string>, subtype: Option<string>,
                       suffix: Option<string>, parameters: Option<map<string, string>>)
    ensures var params :=
        if parameters.None? then ""
        else Serialize(SortedKeys(parameters.value.Keys), parameters.value);
      var block := MadeComponents(typ, facet, subtype, suffix, parameters).parameters;
      && (block.None? ==> params == "")
      && (block.Some? ==> params == [';'] + block.value)
  {
    ParamsBlock(parameters);
  }

  /** A front followed by such a parameter text is the reassembly with that block. */
  lemma FrontParams(front: string, params: string, block: Option<string>)
    requires block.None? ==> params == ""
    requires block.Some? ==> params == [';'] + block.value
    ensures front + params == if block.Some? then front + [';'] + block.value else front
  {
    if block.Some? {
      Regroup(front, [';'], block.value);
    } else {
      assert front + "" == front;
    }
  }

  /** The constructor's text is the reassembly of `MadeComponents`. */
  lemma MakeReassembles(typ: TopLevelTypes.TopLevelType, facet: Option<string>, subtype: Option<string>,
                        suffix: Option<string>, parameters: Option<map<string, string>>)
    ensures Make(typ, facet, subtype, suffix, parameters).rawValue
            == Reassemble(MadeComponents(typ, facet, subtype, suffix, parameters))
  {
    var c := MadeComponents(typ, facet, subtype, suffix, parameters);
    var front := if c.subtype.Some? then c.typ + ['/'] + SubtypeText(c.facet, c.subtype.value, c.suffix) else c.typ;
    var params :=
      if parameters.None? then ""
      else Serialize(SortedKeys(parameters.value.Keys), parameters.value);
    MadeFront(typ, facet, subtype, suffix);
    MadeParamsText(typ, facet, subtype, suffix, parameters);
    FrontParams(front, params, c.parameters);
  }

  /** The constructor's parameter text is empty or a `;` before the parameter block. */
  lemma ParamsBlock(parameters: Option<map<string, string>>)
    ensures var params :=
        if parameters.None? then ""
        else Serialize(SortedKeys(parameters.value.Keys), parameters.value);
      match parameters
      case None => params == ""
      case Some(d) =>
        if d == map[] then params == ""
        else params == [';'] + Join(Entries(SortedKeys(d.Keys), d), ';')
  {
    if parameters.Some? {
      var d := parameters.value;
      if d == map[] {
        assert SortedKeys(d.Keys) == [];
      } else {
        SerializeJoin(SortedKeys(d.Keys), d);
      }
    }
  }

  /** When the pieces are free of the delimiters, `parse()` recovers exactly what the constructor was given. */
  lemma MakeParses(typ: TopLevelTypes.TopLevelType, facet: Option<string>, subtype: Option<string>,
                   suffix: Option<string>, parameters: Option<map<string, string>>)
    requires Lexed(MadeComponents(typ, facet, subtype, suffix, parameters))
    ensures Parse(Make(typ, facet, subtype, suffix, parameters).rawValue)
            == MadeComponents(typ, facet, subtype, suffix, parameters)
  {
    MakeReassembles(typ, facet, subtype, suffix, parameters);
    ParseUnique(MadeComponents(typ, facet, subtype, suffix, parameters));
  }

  /**
   * The pieces handed to the constructor are free of the delimiters that
   * would make `parse()` cut them elsewhere (facet and suffix count only
   * with a subtype, as the constructor ignores them otherwise).
   */
  predicate Composable(typ: TopLevelTypes.TopLevelType, facet: Option<string>, subtype: Option<string>,
                       suffix: Option<string>)
  {
    Lexed(Components(TopLevelTypes.RawValue(typ), if subtype.Some? then facet else None, subtype,
                     if subtype.Some? then suffix else None, None))
  }

  lemma TrimKeepsOut(s: string, c: char)
    requires c !in s
    ensures c !in Trim(s)
  {
    if c in Trim(s) {
      TrimChars(s, c);
    }
  }

  /** Trimming the pieces, as the constructor does, keeps them free of the delimiters. */
  lemma ComposableLexed(typ: TopLevelTypes.TopLevelType, facet: Option<string>, subtype: Option<string>,
                        suffix: Option<string>, parameters: Option<map<string, string>>)
    requires Composable(typ, facet, subtype, suffix)
    ensures Lexed(MadeComponents(typ, facet, subtype, suffix, parameters))
  {
    var raw := TopLevelTypes.RawValue(typ);
    TrimKeepsOut(raw, ';');
    TrimKeepsOut(raw, '/');
    if subtype.Some? {
      var s := subtype.value;
      TrimKeepsOut(s, ';');
      if facet.None? { TrimKeepsOut(s, '.'); }
      if suffix.None? { TrimKeepsOut(s, '+'); }
      if suffix.Some? {
        var x := suffix.value;
        TrimKeepsOut(x, ';');
        TrimKeepsOut(x, '+');
        if facet.None? { TrimKeepsOut(x, '.'); }
      }
    }
  }

  /**
   * The pairs `forEach` reads from what the constructor built: none
   * without parameters, otherwise one per key with a non-empty value, in
   * ascending key order, name and value trimmed.
   */
  lemma ParamsOfMake(typ: TopLevelTypes.TopLevelType, facet: Option<string>, subtype: Option<string>,
                     suffix: Option<string>, parameters: Option<map<string, string>>)
    requires Composable(typ, facet, subtype, suffix)
    requires parameters.Some? ==> WellFormedParams(parameters.value)
    ensures Params(Make(typ, facet, subtype, suffix, parameters))
            == match parameters
               case None => []
               case Some(d) => Pairs(SortedKeys(d.Keys), d)
  {
    ComposableLexed(typ, facet, subtype, suffix, parameters);
    MakeParses(typ, facet, subtype, suffix, parameters);
    if parameters.Some? {
      var d := parameters.value;
      var keys := SortedKeys(d.Keys);
      if d == map[] {
        assert keys == [];
      } else {
        EntriesFree(keys, d);
        SplitJoin(Entries(keys, d), ';');
        CollectEntries(keys, d);
      }
    }
  }

  /** The subscript over one more pair: an earlier match wins, then the new pair if its name matches. */
  lemma LookupSnoc(ps: seq<Param>, p: Param, name: string)
    ensures Lookup(ps + [p], name) ==
      if Lookup(ps, name).Some? then Lookup(ps, name)
      else if NameIs(p, name) then Some(p.value)
      else None
  {
    assert (ps + [p])[..|ps|] == ps;
  }

  /** Pairs over one more key: one more pair unless its value is empty. */
  lemma PairsSnoc(keys: seq<string>, d: map<string, string>)
    requires forall k :: k in keys ==> k in d
    requires keys != []
    ensures forall j :: j in keys[..|keys| - 1] ==> j in keys
    ensures var k := keys[|keys| - 1];
      Pairs(keys, d) == if d[k] == "" then Pairs(keys[..|keys| - 1], d)
                        else Pairs(keys[..|keys| - 1], d) + [Param(Trim(k), Trim(d[k]))]
  {
    var k := keys[|keys| - 1];
    assert forall j :: j in keys[..|keys| - 1] ==> j in keys;
    if d[k] == "" {
      assert Pairs(keys[..|keys| - 1], d) + [] == Pairs(keys[..|keys| - 1], d);
    }
  }

  lemma {:induction false} LookupPairsNone(keys: seq<string>, d: map<string, string>, name: string)
    requires forall k :: k in keys ==> k in d
    requires forall k :: k in keys ==> Lower(Trim(k)) != Lower(name)
    ensures Lookup(Pairs(keys, d), name) == None
  {
    if keys != [] {
      var k := keys[|keys| - 1];
      var prefix := keys[..|keys| - 1];
      PairsSnoc(keys, d);
      LookupPairsNone(prefix, d, name);
      if d[k] != "" {
        LookupSnoc(Pairs(prefix, d), Param(Trim(k), Trim(d[k])), name);
      }
    }
  }

  /** When `k` is the only key that matches, the subscript finds its trimmed value, nil for an empty one. */
  lemma {:induction false} LookupPairsAt(keys: seq<string>, d: map<string, string>, k: string, name: string)
    requires forall j :: j in keys ==> j in d
    requires k in keys && Lower(Trim(k)) == Lower(name)
    requires forall j :: j in keys && Lower(Trim(j)) == Lower(name) ==> j == k
    ensures Lookup(Pairs(keys, d), name) == if d[k] == "" then None else Some(Trim(d[k]))
  {
    var last := keys[|keys| - 1];
    var prefix := keys[..|keys| - 1];
    PairsSnoc(keys, d);
    if k in prefix {
      LookupPairsAt(prefix, d, k, name);
    } else {
      LookupPairsNone(prefix, d, name);
    }
    if d[last] != "" {
      LookupSnoc(Pairs(prefix, d), Param(Trim(last), Trim(d[last])), name);
    }
  }

  /** No two keys name the same parameter once trimmed and lowercased. */
  predicate CaseDistinct(d: map<string, string>) {
    forall k, k' :: k in d && k' in d && Lower(Trim(k)) == Lower(Trim(k')) ==> k == k'
  }

  /** The subscript of a built media type returns the trimmed value of the one matching key, nil for an empty one. */
  lemma MadeLookup(typ: TopLevelTypes.TopLevelType, facet: Option<string>, subtype: Option<string>,
                   suffix: Option<string>, d: map<string, string>, k: string, name: string)
    requires Composable(typ, facet, subtype, suffix)
    requires WellFormedParams(d)
    requires k in d && Lower(Trim(k)) == Lower(name)
    requires forall j :: j in d && Lower(Trim(j)) == Lower(name) ==> j == k
    ensures Lookup(Params(Make(typ, facet, subtype, suffix, Some(d))), name)
            == if d[k] == "" then None else Some(Trim(d[k]))
  {
    ParamsOfMake(typ, facet, subtype, suffix, Some(d));
    LookupPairsAt(SortedKeys(d.Keys), d, k, name);
  }

  /** ... and nil when no key matches. */
  lemma MadeLookupNone(typ: TopLevelTypes.TopLevelType, facet: Option<string>, subtype: Option<string>,
                       suffix: Option<string>, d: map<string, string>, name: string)
    requires Composable(typ, facet, subtype, suffix)
    requires WellFormedParams(d)
    requires forall k :: k in d ==> Lower(Trim(k)) != Lower(name)
    ensures Lookup(Params(Make(typ, facet, subtype, suffix, Some(d))), name) == None
  {
    ParamsOfMake(typ, facet, subtype, suffix, Some(d));
    LookupPairsNone(SortedKeys(d.Keys), d, name);
  }

  /** The accessors read back the trimmed pieces; facet and suffix only with a subtype. */
  lemma MadeAccessors(typ: TopLevelTypes.TopLevelType, facet: Option<string>, subtype: Option<string>,
                      suffix: Option<string>, parameters: Option<map<string, string>>)
    requires Composable(typ, facet, subtype, suffix)
    ensures var m := Make(typ, facet, subtype, suffix, parameters);
      && FacetOf(m) == (if subtype.Some? then Trimmed(facet) else None)
      && SubtypeOf(m) == Trimmed(subtype)
      && SuffixOf(m) == (if subtype.Some? then Trimmed(suffix) else None)
      && (HasType(m) <==> Trim(TopLevelTypes.RawValue(typ)) != "")
  {
    ComposableLexed(typ, facet, subtype, suffix, parameters);
    MakeParses(typ, facet, subtype, suffix, parameters);
    TrimIdempotent(TopLevelTypes.RawValue(typ));
    if subtype.Some? {
      TrimIdempotent(subtype.value);
      if suffix.Some? {
        TrimIdempotent(suffix.value);
      }
    }
  }

  /** `parse()` reads back the constructor's trimmed type, whatever the other pieces hold. */
  lemma MadeTypeText(typ: TopLevelTypes.TopLevelType, facet: Option<string>, subtype: Option<string>,
                     suffix: Option<string>, parameters: Option<map<string, string>>)
    requires ';' !in Trim(TopLevelTypes.RawValue(typ)) && '/' !in Trim(TopLevelTypes.RawValue(typ))
    ensures Parse(Make(typ, facet, subtype, suffix, parameters).rawValue).typ == Trim(TopLevelTypes.RawValue(typ))
  {
    MakeReassembles(typ, facet, subtype, suffix, parameters);
    ReassembledType(MadeComponents(typ, facet, subtype, suffix, parameters));
  }

  /** The type a media type was built with is the type it reports, when its raw value parses back to it. */
  lemma MadeType(typ: TopLevelTypes.TopLevelType, facet: Option<string>, subtype: Option<string>,
                 suffix: Option<string>, parameters: Option<map<string, string>>)
    requires Composable(typ, facet, subtype, suffix)
    requires TopLevelTypes.IsRegistered(typ) || TopLevelTypes.CanonicalOther(typ.name)
    ensures var m := Make(typ, facet, subtype, suffix, parameters);
      HasType(m) && TypeOf(m) == typ
  {
    var raw := TopLevelTypes.RawValue(typ);
    ComposableLexed(typ, facet, subtype, suffix, parameters);
    MakeParses(typ, facet, subtype, suffix, parameters);
    TopLevelTypes.RawValueTrimmed(typ);
    TrimNoEdgeSpace(raw);
    TopLevelTypes.DescriptionRoundTrip(typ);
    assert Trim(Parse(Make(typ, facet, subtype, suffix, parameters).rawValue).typ) == raw;
  }
}
