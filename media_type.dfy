/**
 * `MediaType` (MediaType.swift): an immutable wrapper around one string.
 * Every component is derived from that string on demand by `Parse`, and
 * every transformation rebuilds a new string through the component
 * constructor `Make`.
 *
 * The closures that `forEach` hands its pairs to become loops over the
 * pairs it yields; each such method is proved equal to a function that
 * specifies it, and those functions carry the properties.
 */
module MediaTypes {
  import opened Wrappers
  import opened Strings
  import TopLevelTypes
  import Trees

  datatype MediaType = MediaType(rawValue: string)

  /** `init?(rawValue:)`: any non-empty string is a media type, kept verbatim. */
  function FromRawValue(s: string): (r: Option<MediaType>)
    ensures r.None? <==> s == ""
    ensures r.Some? ==> r.value.rawValue == s
  {
    if |s| == 0 then None else Some(MediaType(s))
  }

  // ---------------------------------------------------------------------
  // Parsing
  // ---------------------------------------------------------------------

  /** The substrings `parse()` returns, untrimmed. */
  datatype Components = Components(
    typ: string,
    facet: Option<string>,
    subtype: Option<string>,
    suffix: Option<string>,
    parameters: Option<string>)

  /** The text after the `/`: the facet and `.`, the subtype, and `+` with the suffix. */
  function SubtypeText(facet: Option<string>, subtype: string, suffix: Option<string>): string {
    var rest := if suffix.Some? then subtype + ['+'] + suffix.value else subtype;
    if facet.Some? then facet.value + ['.'] + rest else rest
  }

  /** Writes components back out with their delimiters. */
  function Reassemble(c: Components): string {
    var head := if c.subtype.Some? then c.typ + ['/'] + SubtypeText(c.facet, c.subtype.value, c.suffix) else c.typ;
    if c.parameters.Some? then head + [';'] + c.parameters.value else head
  }

  /**
   * Components as the lexer cuts them: the parameter block follows the
   * first `;`, the type ends at the first `/`, the facet at the first `.`
   * of the subtype, and the suffix follows the last `+`.
   */
  predicate Lexed(c: Components) {
    && ';' !in c.typ && '/' !in c.typ
    && (c.subtype.None? ==> c.facet.None? && c.suffix.None?)
    && (c.subtype.Some? ==> SubtypeLexed(c.facet, c.subtype.value, c.suffix))
  }

  /** The pieces after the `/`, as the lexer cuts them. */
  predicate SubtypeLexed(facet: Option<string>, subtype: string, suffix: Option<string>) {
    && (facet.Some? ==> ';' !in facet.value && '.' !in facet.value)
    && ';' !in subtype
    && (facet.None? ==> '.' !in subtype)
    && (suffix.None? ==> '+' !in subtype)
    && (suffix.Some? ==> ';' !in suffix.value && '+' !in suffix.value && (facet.None? ==> '.' !in suffix.value))
  }

  /** The facet before the first `.`, the subtype, and the suffix after the last `+`. */
  function ParseSubtype(s: string): (Option<string>, string, Option<string>) {
    var (facet, rest) :=
      match CutFirst(s, '.')
      case (whole, None) => (None, whole)
      case (before, Some(after)) => (Some(before), after);
    var (subtype, suffix) := CutLast(rest, '+');
    (facet, subtype, suffix)
  }

  /** `parse()`: cuts at the first `;`, the first `/`, the first `.` and the last `+`. */
  function Parse(raw: string): Components {
    var (head, parameters) := CutFirst(raw, ';');
    var (typ, rest) := CutFirst(head, '/');
    match rest
    case None => Components(typ, None, None, None, parameters)
    case Some(s) =>
      var (facet, subtype, suffix) := ParseSubtype(s);
      Components(typ, facet, Some(subtype), suffix, parameters)
  }

  /** `parse()` as written: each cut narrows the spans held in local variables. */
  method Lex(raw: string) returns (c: Components)
    ensures c == Parse(raw)
  {
    var typ := raw;
    var facet: Option<string> := None;
    var subtype: Option<string> := None;
    var suffix: Option<string> := None;
    var parameters: Option<string> := None;
    match IndexOf(typ, ';') {
      case Some(i) =>
        parameters := Some(typ[i + 1..]);
        typ := typ[..i];
      case None =>
    }
    assert (typ, parameters) == CutFirst(raw, ';');
    ghost var head := typ;
    match IndexOf(typ, '/') {
      case Some(i) =>
        subtype := Some(typ[i + 1..]);
        typ := typ[..i];
      case None =>
    }
    assert (typ, subtype) == CutFirst(head, '/');
    if subtype.Some? {
      var rest;
      facet, rest, suffix := LexSubtype(subtype.value);
      subtype := Some(rest);
    }
    c := Components(typ, facet, subtype, suffix, parameters);
  }

  /** The two cuts of `parse()` inside the subtype: the first `.`, then the last `+`. */
  method LexSubtype(whole: string) returns (facet: Option<string>, subtype: string, suffix: Option<string>)
    ensures (facet, subtype, suffix) == ParseSubtype(whole)
  {
    facet := None;
    suffix := None;
    subtype := whole;
    match IndexOf(subtype, '.') {
      case Some(i) =>
        facet := Some(subtype[..i]);
        subtype := subtype[i + 1..];
      case None =>
    }
    assert facet.None? ==> CutFirst(whole, '.') == (subtype, None);
    assert facet.Some? ==> CutFirst(whole, '.') == (facet.value, Some(subtype));
    ghost var rest := subtype;
    match LastIndexOf(subtype, '+') {
      case Some(i) =>
        suffix := Some(subtype[i + 1..]);
        subtype := subtype[..i];
      case None =>
    }
    assert (subtype, suffix) == CutLast(rest, '+');
  }

  // ---------------------------------------------------------------------
  // Accessors
  // ---------------------------------------------------------------------

  /** The type part is not blank, so `TopLevelType(_:)` does not abort on it. */
  predicate HasType(m: MediaType) {
    Trim(Parse(m.rawValue).typ) != ""
  }

  /** `type`. */
  function TypeOf(m: MediaType): TopLevelTypes.TopLevelType
    requires HasType(m)
  {
    TopLevelTypes.Of(Trim(Parse(m.rawValue).typ))
  }

  /** `facet`: nil without a subtype. */
  function FacetOf(m: MediaType): Option<string> {
    var c := Parse(m.rawValue);
    if c.subtype.None? then None
    else match c.facet
      case None => None
      case Some(f) => Some(Trim(f))
  }

  /** `tree`: the three reserved facets in any case, `other` with the facet's own case, `standards` without a facet. */
  function TreeOf(m: MediaType): (t: Trees.Tree)
    ensures t.Standards? <==> FacetOf(m).None?
    ensures FacetOf(m).Some? ==> Trees.RawValue(t) == Lower(FacetOf(m).value)
    ensures t.Other? ==> t.name == FacetOf(m).value
  {
    match FacetOf(m)
    case None => Trees.Standards
    case Some(f) => TreeNamed(f)
  }

  /** The `switch` of `tree` over a present facet, which keeps its spelling in `other`. */
  function TreeNamed(f: string): (t: Trees.Tree)
    ensures !t.Standards? && Trees.RawValue(t) == Lower(f)
    ensures t.Other? ==> t.name == f
  {
    var lowered := Lower(f);
    if lowered == "vnd" then Trees.Vendor
    else if lowered == "prs" then Trees.Personal
    else if lowered == "x" then Trees.Unregistered
    else Trees.Other(f)
  }

  /** `subtype`: without facet and suffix; present but empty for `video/`. */
  function SubtypeOf(m: MediaType): Option<string> {
    match Parse(m.rawValue).subtype
    case None => None
    case Some(s) => Some(Trim(s))
  }

  /** `suffix`: after the last `+`; present but empty for `text/plain+`. */
  function SuffixOf(m: MediaType): Option<string> {
    match Parse(m.rawValue).suffix
    case None => None
    case Some(s) => Some(Trim(s))
  }

  // ---------------------------------------------------------------------
  // Reading parameters
  // ---------------------------------------------------------------------

  datatype Param = Param(name: string, value: string)

  /** A pair as `forEach` yields it: trimmed, and cut at the name's first `=`. */
  predicate Clean(p: Param) {
    && NoEdgeSpace(p.name) && NoEdgeSpace(p.value)
    && ';' !in p.name && '=' !in p.name && ';' !in p.value
  }

  /** One `;`-separated segment: a pair when it has an `=` with text on both sides. */
  function Segment(segment: string): (r: Option<Param>)
    ensures r.Some? && ';' !in segment ==> Clean(r.value)
  {
    match CutFirst(segment, '=')
    case (_, None) => None
    case (name, Some(value)) =>
      if |name| > 0 && |value| > 0 then
        var p := Param(Trim(name), Trim(value));
        assert ';' in p.name ==> ';' in name by { if ';' in p.name { TrimChars(name, ';'); } }
        assert '=' in p.name ==> '=' in name by { if '=' in p.name { TrimChars(name, '='); } }
        assert ';' in p.value ==> ';' in value by { if ';' in p.value { TrimChars(value, ';'); } }
        Some(p)
      else
        None
  }

  /**
   * A segment is cut at its first `=`: with text on both sides it is the
   * trimmed pair, otherwise it is skipped.
   */
  lemma SegmentOf(name: string, value: string)
    requires '=' !in name
    ensures Segment(name + "=" + value) ==
      if name != "" && value != "" then Some(Param(Trim(name), Trim(value))) else None
  {
    assert name + "=" + value == name + ['='] + value;
    CutFirstAt(name, value, '=');
  }

  /** A segment without `=` is skipped. */
  lemma SegmentWithoutEquals(segment: string)
    requires '=' !in segment
    ensures Segment(segment) == None
  {
    CutFirstNone(segment, '=');
  }

  /** The pairs of the segments, in order. */
  function Collect(segments: seq<string>): (ps: seq<Param>)
    requires forall i :: 0 <= i < |segments| ==> ';' !in segments[i]
    ensures |ps| <= |segments|
    ensures forall i :: 0 <= i < |ps| ==> Clean(ps[i])
  {
    if segments == [] then []
    else
      var found := match Segment(segments[|segments| - 1]) case None => [] case Some(p) => [p];
      Collect(segments[..|segments| - 1]) + found
  }

  /** The `;`-separated segments of the parameter block; none without one. */
  function Segments(m: MediaType): (segments: seq<string>)
    ensures forall i :: 0 <= i < |segments| ==> ';' !in segments[i]
  {
    match Parse(m.rawValue).parameters
    case None => []
    case Some(block) => Split(block, ';')
  }

  /** Every pair `forEach` yields: in order, duplicates included. */
  function Params(m: MediaType): (ps: seq<Param>)
    ensures forall i :: 0 <= i < |ps| ==> Clean(ps[i])
  {
    Collect(Segments(m))
  }

  /** The loop of `forEach` over the segments: skips each one without a pair. */
  method CollectPairs(segments: seq<string>) returns (pairs: seq<Param>)
    requires forall i :: 0 <= i < |segments| ==> ';' !in segments[i]
    ensures pairs == Collect(segments)
  {
    pairs := [];
    var i := 0;
    while i < |segments|
      invariant 0 <= i <= |segments|
      invariant pairs == Collect(segments[..i])
    {
      assert segments[..i + 1][..i] == segments[..i];
      var (name, value) := CutFirst(segments[i], '=');
      if value.Some? && |name| > 0 && |value.value| > 0 {
        pairs := pairs + [Param(Trim(name), Trim(value.value))];
      }
      i := i + 1;
    }
    assert segments[..|segments|] == segments;
  }

  /** `forEach`: the pairs of the parameter block, in order, duplicates included. */
  method ForEach(m: MediaType) returns (pairs: seq<Param>)
    ensures pairs == Params(m)
  {
    var segments := Segments(m);
    pairs := CollectPairs(segments);
  }

  /** `caseInsensitiveCompare(_:) == .orderedSame`, on ASCII. */
  predicate NameIs(p: Param, name: string) {
    Lower(p.name) == Lower(name)
  }

  /** The value of the first pair whose name matches `name` case-insensitively. */
  function Lookup(ps: seq<Param>, name: string): Option<string> {
    if ps == [] then None
    else
      var r := Lookup(ps[..|ps| - 1], name);
      if r.Some? then r
      else if NameIs(ps[|ps| - 1], name) then Some(ps[|ps| - 1].value)
      else None
  }

  /** The subscript is nil exactly when no name matches. */
  lemma {:induction false} LookupNone(ps: seq<Param>, name: string)
    ensures Lookup(ps, name).None? <==> forall i :: 0 <= i < |ps| ==> !NameIs(ps[i], name)
  {
    if ps != [] {
      var prefix := ps[..|ps| - 1];
      LookupNone(prefix, name);
      assert forall i :: 0 <= i < |prefix| ==> prefix[i] == ps[i];
    }
  }

  /** The subscript returns the value of the first pair whose name matches. */
  lemma {:induction false} LookupAt(ps: seq<Param>, name: string, i: nat)
    requires i < |ps| && NameIs(ps[i], name)
    requires forall j :: 0 <= j < i ==> !NameIs(ps[j], name)
    ensures Lookup(ps, name) == Some(ps[i].value)
  {
    var prefix := ps[..|ps| - 1];
    assert forall j :: 0 <= j < |prefix| ==> prefix[j] == ps[j];
    if i < |ps| - 1 {
      LookupAt(prefix, name, i);
    } else {
      LookupNone(prefix, name);
    }
  }

  /** The loop of `subscript` over the pairs: the first match wins. */
  method FirstMatch(pairs: seq<Param>, name: string) returns (value: Option<string>)
    ensures value == Lookup(pairs, name)
  {
    value := None;
    var i := 0;
    while i < |pairs|
      invariant 0 <= i <= |pairs|
      invariant value == Lookup(pairs[..i], name)
    {
      assert pairs[..i + 1][..i] == pairs[..i];
      if value == None {
        if Lower(pairs[i].name) == Lower(name) {
          value := Some(pairs[i].value);
        }
      }
      i := i + 1;
    }
    assert pairs[..|pairs|] == pairs;
  }

  /** `subscript`: the first value whose name matches case-insensitively, or nil. */
  method Subscript(m: MediaType, name: string) returns (value: Option<string>)
    ensures value == Lookup(Params(m), name)
  {
    var pairs := ForEach(m);
    value := FirstMatch(pairs, name);
  }

  /** The lowercased names of the pairs. */
  function LowerNames(ps: seq<Param>): (r: set<string>)
    ensures forall x :: x in r <==> exists i :: 0 <= i < |ps| && Lower(ps[i].name) == x
  {
    if ps == [] then {}
    else
      var prefix := ps[..|ps| - 1];
      assert forall i :: 0 <= i < |prefix| ==> prefix[i] == ps[i];
      LowerNames(prefix) + {Lower(ps[|ps| - 1].name)}
  }

  /**
   * The dictionary `parameters` builds: the first pair of every
   * case-insensitive name, under that pair's own spelling.
   */
  function FirstNamed(ps: seq<Param>): map<string, string> {
    if ps == [] then map[]
    else
      var p := ps[|ps| - 1];
      var prefix := ps[..|ps| - 1];
      var d := FirstNamed(prefix);
      if Lower(p.name) in LowerNames(prefix) then d else d[p.name := p.value]
  }

  /** The loop of `parameters` over the pairs: the first spelling of each name wins. */
  method FirstSpellings(pairs: seq<Param>) returns (params: map<string, string>)
    ensures params == FirstNamed(pairs)
  {
    params := map[];
    var names: set<string> := {};
    var i := 0;
    while i < |pairs|
      invariant 0 <= i <= |pairs|
      invariant params == FirstNamed(pairs[..i])
      invariant names == LowerNames(pairs[..i])
    {
      assert pairs[..i + 1][..i] == pairs[..i];
      var key := Lower(pairs[i].name);
      if key !in names {
        names := names + {key};
        params := params[pairs[i].name := pairs[i].value];
      }
      i := i + 1;
    }
    assert pairs[..|pairs|] == pairs;
  }

  /** `parameters`. */
  method Parameters(m: MediaType) returns (params: map<string, string>)
    ensures params == FirstNamed(Params(m))
  {
    var pairs := ForEach(m);
    params := FirstSpellings(pairs);
  }

  /**
   * The dictionary the suffix rebuilders and `normalized()` build: the
   * first value of every name, keyed by the lowercased name.
   */
  function FirstByLowerName(ps: seq<Param>): map<string, string> {
    if ps == [] then map[]
    else
      var p := ps[|ps| - 1];
      var d := FirstByLowerName(ps[..|ps| - 1]);
      if Lower(p.name) in d then d else d[Lower(p.name) := p.value]
  }

  /**
   * The dictionary `adding(parameter:value:)` and `removing(parameter:)`
   * build: every pair whose name does not match `key` case-insensitively,
   * under its own spelling; a later pair of the same spelling overwrites.
   */
  function Unmatched(ps: seq<Param>, key: string): map<string, string> {
    if ps == [] then map[]
    else
      var p := ps[|ps| - 1];
      var d := Unmatched(ps[..|ps| - 1], key);
      if Lower(p.name) != Lower(key) then d[p.name := p.value] else d
  }

  /** Every key of `parameters` is spelled as one of the pairs spells it, ... */
  lemma {:induction false} FirstNamedKeys(ps: seq<Param>)
    ensures forall k :: k in FirstNamed(ps) ==> exists i :: 0 <= i < |ps| && ps[i].name == k
  {
    if ps != [] {
      var prefix := ps[..|ps| - 1];
      FirstNamedKeys(prefix);
      var d := FirstNamed(prefix);
      forall k | k in FirstNamed(ps) ensures exists i :: 0 <= i < |ps| && ps[i].name == k {
        if k in d {
          var i :| 0 <= i < |prefix| && prefix[i].name == k;
          assert ps[i].name == k;
        } else {
          assert ps[|ps| - 1].name == k;
        }
      }
    }
  }

  /** ... every name of the pairs has a key, ... */
  lemma {:induction false} FirstNamedCovers(ps: seq<Param>)
    ensures forall x :: x in LowerNames(ps) ==> exists k :: k in FirstNamed(ps) && Lower(k) == x
  {
    if ps != [] {
      var p := ps[|ps| - 1];
      var prefix := ps[..|ps| - 1];
      FirstNamedCovers(prefix);
      assert LowerNames(ps) == LowerNames(prefix) + {Lower(p.name)};
    }
  }

  /** ... and no two keys differ only in case. */
  lemma {:induction false} FirstNamedDistinct(ps: seq<Param>)
    ensures forall k, k' :: k in FirstNamed(ps) && k' in FirstNamed(ps) && Lower(k) == Lower(k') ==> k == k'
  {
    if ps != [] {
      var p := ps[|ps| - 1];
      var prefix := ps[..|ps| - 1];
      FirstNamedDistinct(prefix);
      FirstNamedKeys(prefix);
      forall k | k in FirstNamed(prefix) ensures Lower(k) in LowerNames(prefix) {
        var i :| 0 <= i < |prefix| && prefix[i].name == k;
      }
    }
  }

  /** ... whose value is what the subscript returns for it. */
  lemma {:induction false} FirstNamedValues(ps: seq<Param>)
    ensures forall k :: k in FirstNamed(ps) ==> Lookup(ps, k) == Some(FirstNamed(ps)[k])
  {
    if ps != [] {
      var p := ps[|ps| - 1];
      var prefix := ps[..|ps| - 1];
      FirstNamedValues(prefix);
      FirstNamedKeys(prefix);
      var d := FirstNamed(prefix);
      var r := FirstNamed(ps);
      assert forall i :: 0 <= i < |prefix| ==> prefix[i] == ps[i];
      if Lower(p.name) in LowerNames(prefix) {
        forall k | k in r ensures Lookup(ps, k) == Some(r[k]) {
          assert Lookup(prefix, k) == Some(d[k]);
        }
      } else {
        forall k | k in d ensures Lower(k) in LowerNames(prefix) {
          var i :| 0 <= i < |prefix| && prefix[i].name == k;
        }
        LookupNone(prefix, p.name);
        forall k | k in r ensures Lookup(ps, k) == Some(r[k]) {
          if k != p.name {
            assert Lookup(prefix, k) == Some(d[k]);
          }
        }
      }
    }
  }

  /**
   * The dictionary of `normalized()` and the suffix rebuilders has exactly
   * the lowercased names as keys, each holding what the subscript returns.
   */
  lemma {:induction false} FirstByLowerNameSpec(ps: seq<Param>)
    ensures FirstByLowerName(ps).Keys == LowerNames(ps)
    ensures forall k :: k in FirstByLowerName(ps) ==> Lookup(ps, k) == Some(FirstByLowerName(ps)[k])
  {
    if ps != [] {
      var p := ps[|ps| - 1];
      var prefix := ps[..|ps| - 1];
      FirstByLowerNameSpec(prefix);
      var d := FirstByLowerName(prefix);
      var r := FirstByLowerName(ps);
      var key := Lower(p.name);
      assert forall i :: 0 <= i < |prefix| ==> prefix[i] == ps[i];
      assert LowerNames(ps) == LowerNames(prefix) + {key};
      if key in d {
        forall k | k in r ensures Lookup(ps, k) == Some(r[k]) {
          assert Lookup(prefix, k) == Some(d[k]);
        }
      } else {
        LowerIdempotent(p.name);
        LookupNone(prefix, key);
        assert NameIs(p, key);
        forall k | k in r ensures Lookup(ps, k) == Some(r[k]) {
          if k != key {
            assert Lookup(prefix, k) == Some(d[k]);
          }
        }
      }
    }
  }

  /**
   * The dictionary of `adding(parameter:value:)` and `removing(parameter:)`
   * keeps exactly the spellings that do not match `key` ...
   */
  lemma {:induction false} UnmatchedKeys(ps: seq<Param>, key: string)
    ensures forall k :: k in Unmatched(ps, key) <==> Lower(k) != Lower(key) && exists i :: 0 <= i < |ps| && ps[i].name == k
  {
    if ps != [] {
      var p := ps[|ps| - 1];
      var prefix := ps[..|ps| - 1];
      UnmatchedKeys(prefix, key);
      assert forall i :: 0 <= i < |prefix| ==> prefix[i] == ps[i];
      forall k ensures k in Unmatched(ps, key) <==> Lower(k) != Lower(key) && exists i :: 0 <= i < |ps| && ps[i].name == k {
        if k == p.name {
          assert ps[|ps| - 1].name == k;
        } else if exists i :: 0 <= i < |ps| && ps[i].name == k {
          var i :| 0 <= i < |ps| && ps[i].name == k;
          assert i < |ps| - 1 && prefix[i].name == k;
        }
      }
    }
  }

  /** `ps[i]` is the last pair spelled `k`, and it holds `v`. */
  predicate LastSpelled(ps: seq<Param>, k: string, v: string, i: int) {
    && 0 <= i < |ps| && ps[i].name == k && ps[i].value == v
    && forall j :: i < j < |ps| ==> ps[j].name != k
  }

  /** ... each with the value of its last pair. */
  lemma {:induction false} UnmatchedValues(ps: seq<Param>, key: string)
    ensures forall k :: k in Unmatched(ps, key) ==> exists i :: LastSpelled(ps, k, Unmatched(ps, key)[k], i)
  {
    if ps != [] {
      var n := |ps| - 1;
      var p := ps[n];
      var prefix := ps[..n];
      UnmatchedValues(prefix, key);
      var d := Unmatched(prefix, key);
      var r := Unmatched(ps, key);
      forall k | k in r ensures exists i :: LastSpelled(ps, k, r[k], i) {
        if k == p.name {
          assert Lower(p.name) != Lower(key) by {
            UnmatchedKeys(prefix, key);
          }
          assert LastSpelled(ps, k, r[k], n);
        } else {
          assert k in d && r[k] == d[k];
          var i :| LastSpelled(prefix, k, d[k], i);
          assert forall j :: 0 <= j < n ==> ps[j] == prefix[j];
          assert LastSpelled(ps, k, r[k], i);
        }
      }
    }
  }

  // ---------------------------------------------------------------------
  // Construction
  // ---------------------------------------------------------------------

  /** The `reduce` over the sorted pairs: `; name=value` each, names trimmed, values verbatim. */
  function Serialize(keys: seq<string>, d: map<string, string>): string
    requires forall k :: k in keys ==> k in d
  {
    if keys == [] then ""
    else
      var k := keys[|keys| - 1];
      Serialize(keys[..|keys| - 1], d) + ("; " + Trim(k) + "=" + d[k])
  }

  /** The `reduce` of the constructor: appends `; name=value` for each key in turn. */
  method Fold(keys: seq<string>, d: map<string, string>) returns (acc: string)
    requires forall k :: k in keys ==> k in d
    ensures acc == Serialize(keys, d)
  {
    acc := "";
    var i := 0;
    while i < |keys|
      invariant 0 <= i <= |keys|
      invariant acc == Serialize(keys[..i], d)
    {
      SerializeSnoc(keys, i, d);
      acc := acc + ("; " + Trim(keys[i]) + "=" + d[keys[i]]);
      i := i + 1;
    }
    assert keys[..|keys|] == keys;
  }

  /** One more step of the fold. */
  lemma SerializeSnoc(keys: seq<string>, i: nat, d: map<string, string>)
    requires i < |keys| && forall k :: k in keys ==> k in d
    ensures Serialize(keys[..i + 1], d) == Serialize(keys[..i], d) + ("; " + Trim(keys[i]) + "=" + d[keys[i]])
  {
    assert keys[..i + 1][..i] == keys[..i];
  }

  /**
   * `init(type:facet:subtype:suffix:parameters:)`: the trimmed type; then,
   * only with a subtype, `/`, the facet and `.`, the trimmed subtype and
   * `+` with the trimmed suffix; then the parameters in ascending name order.
   */
  function Make(typ: TopLevelTypes.TopLevelType, facet: Option<string>, subtype: Option<string>,
                suffix: Option<string>, parameters: Option<map<string, string>>): MediaType
  {
    var head := Trim(TopLevelTypes.RawValue(typ));
    var sub :=
      if subtype.None? then ""
      else "/" + (if facet.Some? then facet.value + "." else "") + Trim(subtype.value)
           + (if suffix.Some? then "+" + Trim(suffix.value) else "");
    var params :=
      if parameters.None? then ""
      else Serialize(SortedKeys(parameters.value.Keys), parameters.value);
    MediaType(head + sub + params)
  }

  /** The closure the constructor maps over the subtype: `/`, the facet and `.`, the trimmed subtype, `+` and the trimmed suffix. */
  method SubtypeClosure(facet: Option<string>, subtype: string, suffix: Option<string>) returns (sub: string)
    ensures sub == "/" + (if facet.Some? then facet.value + "." else "") + Trim(subtype)
                   + (if suffix.Some? then "+" + Trim(suffix.value) else "")
  {
    var front := "";
    if facet.Some? {
      front := facet.value + ".";
    }
    var back := "";
    if suffix.Some? {
      back := "+" + Trim(suffix.value);
    }
    sub := "/" + front + Trim(subtype) + back;
  }

  /** The constructor's text is the trimmed type, the subtype part and the parameter text. */
  lemma MakeOfParts(typ: TopLevelTypes.TopLevelType, facet: Option<string>, subtype: Option<string>,
                    suffix: Option<string>, parameters: Option<map<string, string>>, sub: string, params: string)
    requires subtype.None? ==> sub == ""
    requires subtype.Some? ==> sub == "/" + (if facet.Some? then facet.value + "." else "") + Trim(subtype.value)
                                      + (if suffix.Some? then "+" + Trim(suffix.value) else "")
    requires parameters.None? ==> params == ""
    requires parameters.Some? ==> params == Serialize(SortedKeys(parameters.value.Keys), parameters.value)
    ensures Make(typ, facet, subtype, suffix, parameters) == MediaType(Trim(TopLevelTypes.RawValue(typ)) + sub + params)
  {
  }

  /** The constructor as written: appends to `str`, folding the sorted pairs into the parameter text. */
  method Compose(typ: TopLevelTypes.TopLevelType, facet: Option<string>, subtype: Option<string>,
                 suffix: Option<string>, parameters: Option<map<string, string>>) returns (m: MediaType)
    ensures m == Make(typ, facet, subtype, suffix, parameters)
  {
    var str := "";
    str := str + Trim(TopLevelTypes.RawValue(typ));
    assert str == Trim(TopLevelTypes.RawValue(typ));
    var sub := "";
    if subtype.Some? {
      sub := SubtypeClosure(facet, subtype.value, suffix);
    }
    str := str + sub;
    var params := "";
    if parameters.Some? {
      var d := parameters.value;
      params := Fold(SortedKeys(d.Keys), d);
    }
    str := str + params;
    MakeOfParts(typ, facet, subtype, suffix, parameters, sub, params);
    assert str == Trim(TopLevelTypes.RawValue(typ)) + sub + params;
    m := MediaType(str);
  }

  // ---------------------------------------------------------------------
  // Rebuilding
  // ---------------------------------------------------------------------

  /** The type part is not empty, so `TopLevelType(_:)` does not abort on it untrimmed. */
  predicate Rebuildable(m: MediaType) {
    Parse(m.rawValue).typ != ""
  }

  /** The receiver's type, facet and subtype, as the rebuilders pass them to the constructor. */
  function Rebuild(m: MediaType, suffix: Option<string>, parameters: Option<map<string, string>>): MediaType
    requires Rebuildable(m)
  {
    var c := Parse(m.rawValue);
    Make(TopLevelTypes.Of(c.typ), c.facet, c.subtype, suffix, parameters)
  }

  /** `adding(parameter:value:)`. */
  function AddParameter(m: MediaType, name: string, value: string): MediaType
    requires Rebuildable(m)
  {
    Rebuild(m, Parse(m.rawValue).suffix, Some(Unmatched(Params(m), Trim(name))[name := value]))
  }

  /** `removing(parameter:)`. */
  function RemoveParameter(m: MediaType, name: string): MediaType
    requires Rebuildable(m)
  {
    Rebuild(m, Parse(m.rawValue).suffix, Some(Unmatched(Params(m), Trim(name))))
  }

  /** `removingParameters()`. */
  function RemoveParameters(m: MediaType): MediaType
    requires Rebuildable(m)
  {
    Rebuild(m, Parse(m.rawValue).suffix, None)
  }

  /** `adding(suffix:)`: the receiver itself for an empty suffix. */
  function AddSuffix(m: MediaType, suffix: string): MediaType
    requires suffix != "" ==> Rebuildable(m)
  {
    if suffix == "" then m
    else Rebuild(m, Some(suffix), Some(FirstByLowerName(Params(m))))
  }

  /** `removingSuffix()`. */
  function RemoveSuffix(m: MediaType): MediaType
    requires Rebuildable(m)
  {
    Rebuild(m, None, Some(FirstByLowerName(Params(m))))
  }

  /** The loop of `adding(parameter:value:)` and `removing(parameter:)` over the pairs. */
  method OtherNames(pairs: seq<Param>, key: string) returns (params: map<string, string>)
    ensures params == Unmatched(pairs, key)
  {
    params := map[];
    var i := 0;
    while i < |pairs|
      invariant 0 <= i <= |pairs|
      invariant params == Unmatched(pairs[..i], key)
    {
      assert pairs[..i + 1][..i] == pairs[..i];
      if Lower(pairs[i].name) != Lower(key) {
        params := params[pairs[i].name := pairs[i].value];
      }
      i := i + 1;
    }
    assert pairs[..|pairs|] == pairs;
  }

  method Adding(m: MediaType, name: string, value: string) returns (r: MediaType)
    requires Rebuildable(m)
    ensures r == AddParameter(m, name, value)
  {
    var key := Trim(name);
    var c := Parse(m.rawValue);
    var typ := TopLevelTypes.Of(c.typ);
    var pairs := ForEach(m);
    var params := OtherNames(pairs, key);
    params := params[name := value];
    r := Make(typ, c.facet, c.subtype, c.suffix, Some(params));
  }

  method Removing(m: MediaType, name: string) returns (r: MediaType)
    requires Rebuildable(m)
    ensures r == RemoveParameter(m, name)
  {
    var key := Trim(name);
    var c := Parse(m.rawValue);
    var typ := TopLevelTypes.Of(c.typ);
    var pairs := ForEach(m);
    var params := OtherNames(pairs, key);
    r := Make(typ, c.facet, c.subtype, c.suffix, Some(params));
  }

  /** The loop shared by `adding(suffix:)`, `removingSuffix()` and `normalized()`. */
  method FirstValues(pairs: seq<Param>) returns (params: map<string, string>)
    ensures params == FirstByLowerName(pairs)
  {
    params := map[];
    var i := 0;
    while i < |pairs|
      invariant 0 <= i <= |pairs|
      invariant params == FirstByLowerName(pairs[..i])
    {
      assert pairs[..i + 1][..i] == pairs[..i];
      var name := Lower(pairs[i].name);
      if name !in params {
        params := params[name := pairs[i].value];
      }
      i := i + 1;
    }
    assert pairs[..|pairs|] == pairs;
  }

  method AddingSuffix(m: MediaType, suffix: string) returns (r: MediaType)
    requires suffix != "" ==> Rebuildable(m)
    ensures r == AddSuffix(m, suffix)
  {
    if |suffix| == 0 {
      return m;
    }
    var c := Parse(m.rawValue);
    var typ := TopLevelTypes.Of(c.typ);
    var pairs := ForEach(m);
    var params := FirstValues(pairs);
    r := Make(typ, c.facet, c.subtype, Some(suffix), Some(params));
  }

  method RemovingSuffix(m: MediaType) returns (r: MediaType)
    requires Rebuildable(m)
    ensures r == RemoveSuffix(m)
  {
    var c := Parse(m.rawValue);
    var typ := TopLevelTypes.Of(c.typ);
    var pairs := ForEach(m);
    var params := FirstValues(pairs);
    r := Make(typ, c.facet, c.subtype, None, Some(params));
  }

  // ---------------------------------------------------------------------
  // Normalization
  // ---------------------------------------------------------------------

  function LowerTrimmed(o: Option<string>): Option<string> {
    match o
    case None => None
    case Some(s) => Some(Lower(Trim(s)))
  }

  /** `normalized()`. */
  function Normalize(m: MediaType): MediaType
    requires HasType(m)
  {
    var c := Parse(m.rawValue);
    Make(TopLevelTypes.Of(Lower(Trim(c.typ))), LowerTrimmed(c.facet), LowerTrimmed(c.subtype),
         LowerTrimmed(c.suffix), Some(FirstByLowerName(Params(m))))
  }

  method Normalized(m: MediaType) returns (r: MediaType)
    requires HasType(m)
    ensures r == Normalize(m)
  {
    var c := Parse(m.rawValue);
    var typ := TopLevelTypes.Of(Lower(Trim(c.typ)));
    var facet := LowerTrimmed(c.facet);
    var subtype := LowerTrimmed(c.subtype);
    var suffix := LowerTrimmed(c.suffix);
    var pairs := ForEach(m);
    var params := FirstValues(pairs);
    r := Make(typ, facet, subtype, suffix, Some(params));
  }

  // ---------------------------------------------------------------------
  // Matching
  // ---------------------------------------------------------------------

  /** Every pair of `template` is the first match of its name in `ps`. */
  predicate Contains(ps: seq<Param>, template: seq<Param>) {
    forall i :: 0 <= i < |template| ==> Lookup(ps, template[i].name) == Some(template[i].value)
  }

  /** Both sides can be normalized, unless the fast path answers first. */
  predicate CanMatch(m: MediaType, template: MediaType) {
    m == template || (HasType(m) && HasType(template))
  }

  /** `matches(_:)`. */
  predicate IsMatch(m: MediaType, template: MediaType)
    requires CanMatch(m, template)
  {
    if m == template then true
    else
      var n1 := Normalize(m);
      var n2 := Normalize(template);
      var c1 := Parse(n1.rawValue);
      var c2 := Parse(n2.rawValue);
      && c1.typ == c2.typ
      && c1.facet == c2.facet
      && (c2.subtype.Some? ==> c1.subtype == c2.subtype)
      && (c2.suffix.Some? ==> c1.suffix == c2.suffix)
      && Contains(Params(n1), Params(n2))
  }

  /** The loop of `matches(_:)` over the template's pairs: each must be what the subscript returns. */
  method AllFound(pairs: seq<Param>, template: seq<Param>) returns (found: bool)
    ensures found == Contains(pairs, template)
  {
    found := true;
    var i := 0;
    while i < |template|
      invariant 0 <= i <= |template|
      invariant found == Contains(pairs, template[..i])
    {
      assert forall j :: 0 <= j < i ==> template[..i + 1][j] == template[..i][j];
      if found {
        var value := FirstMatch(pairs, template[i].name);
        found := value == Some(template[i].value);
      }
      i := i + 1;
    }
    assert template[..|template|] == template;
  }

  method Matches(m: MediaType, template: MediaType) returns (matched: bool)
    requires CanMatch(m, template)
    ensures matched == IsMatch(m, template)
  {
    if m == template {
      return true;
    }
    var t1 := Normalized(m);
    var t2 := Normalized(template);
    var c1 := Parse(t1.rawValue);
    var c2 := Parse(t2.rawValue);
    if c1.typ != c2.typ || c1.facet != c2.facet {
      return false;
    }
    if c2.subtype.Some? && c1.subtype != c2.subtype {
      return false;
    }
    if c2.suffix.Some? && c1.suffix != c2.suffix {
      return false;
    }
    var mine := ForEach(t1);
    var theirs := ForEach(t2);
    matched := AllFound(mine, theirs);
  }
}
