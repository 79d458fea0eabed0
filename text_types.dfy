/**
 * The `text` extension of `MediaType` (Types/Text.swift): the registered
 * text subtypes, the `text` factories and constant, the Markdown variants
 * with their case-insensitive lookup table, the `variant` parameter's
 * getter and setter, and the normalization of a variant name.
 */
module TextTypes {
  import opened Wrappers
  import opened Strings
  import TopLevelTypes
  import opened MediaTypes
  import opened Construction
  import opened Rebuilding
  import Matching

  // ---------------------------------------------------------------------
  // Text subtypes
  // ---------------------------------------------------------------------

  /** `TextSubtype`. */
  datatype TextSubtype =
    | Calendar | Css | Csv | Directory | Dns | EcmaScript | Html | Javascript | MarkdownText
    | Parameters | Plain | Richtext | Rtf | Sgml | StringsTable | Vcard | Xml

  /** Its raw value: the lowercase token, except `SGML`, which is upper case. */
  function SubtypeRawValue(s: TextSubtype): string {
    match s
    case Calendar => "calendar"
    case Css => "css"
    case Csv => "csv"
    case Directory => "directory"
    case Dns => "dns"
    case EcmaScript => "ecmascript"
    case Html => "html"
    case Javascript => "javascript"
    case MarkdownText => "markdown"
    case Parameters => "parameters"
    case Plain => "plain"
    case Richtext => "richtext"
    case Rtf => "rtf"
    case Sgml => "SGML"
    case StringsTable => "strings"
    case Vcard => "vcard"
    case Xml => "xml"
  }

  /** The synthesized `init?(rawValue:)` of a `String` enum: an exact, case-sensitive match. */
  function SubtypeNamed(s: string): (r: Option<TextSubtype>)
    ensures r.Some? ==> SubtypeRawValue(r.value) == s
  {
    match s
    case "calendar" => Some(Calendar)
    case "css" => Some(Css)
    case "csv" => Some(Csv)
    case "directory" => Some(Directory)
    case "dns" => Some(Dns)
    case "ecmascript" => Some(EcmaScript)
    case "html" => Some(Html)
    case "javascript" => Some(Javascript)
    case "markdown" => Some(MarkdownText)
    case "parameters" => Some(Parameters)
    case "plain" => Some(Plain)
    case "richtext" => Some(Richtext)
    case "rtf" => Some(Rtf)
    case "SGML" => Some(Sgml)
    case "strings" => Some(StringsTable)
    case "vcard" => Some(Vcard)
    case "xml" => Some(Xml)
    case _ => None
  }

  /** Every subtype is recovered from its raw value, so no two share one. */
  lemma SubtypeRoundTrip(s: TextSubtype)
    ensures SubtypeNamed(SubtypeRawValue(s)) == Some(s)
  {
  }

  /** A non-empty run of ASCII letters, digits and hyphens. */
  predicate Token(r: string) {
    r != "" && forall i :: 0 <= i < |r| ==> 'a' <= r[i] <= 'z' || 'A' <= r[i] <= 'Z' || '0' <= r[i] <= '9' || r[i] == '-'
  }

  /** A token holds none of the delimiters of a media type, nor edge whitespace. */
  lemma TokenClean(r: string)
    requires Token(r)
    ensures NoEdgeSpace(r) && Trim(r) == r
    ensures ';' !in r && '.' !in r && '+' !in r && '/' !in r && '=' !in r
  {
    TrimNoEdgeSpace(r);
  }

  /** The raw values are tokens. */
  lemma SubtypeRawValueToken(s: TextSubtype)
    ensures Token(SubtypeRawValue(s))
  {
    match s
    case Calendar =>
    case Css =>
    case Csv =>
    case Directory =>
    case Dns =>
    case EcmaScript =>
    case Html =>
    case Javascript =>
    case MarkdownText =>
    case Parameters =>
    case Plain =>
    case Richtext =>
    case Rtf =>
    case Sgml =>
    case StringsTable =>
    case Vcard =>
    case Xml =>
  }

  /** The raw values hold none of the delimiters of the subtype text, nor edge whitespace. */
  lemma SubtypeRawValueClean(s: TextSubtype)
    ensures var r := SubtypeRawValue(s);
      && r != "" && NoEdgeSpace(r)
      && ';' !in r && '.' !in r && '+' !in r && '/' !in r
  {
    SubtypeRawValueToken(s);
    TokenClean(SubtypeRawValue(s));
  }

  // ---------------------------------------------------------------------
  // text(_:) and the text constant
  // ---------------------------------------------------------------------

  /** `text(_: String)`: the constructor with the type named `"text"` and the given subtype. */
  function TextNamed(subtype: string): MediaType {
    Make(TopLevelTypes.Of("text"), None, Some(subtype), None, None)
  }

  /** `text(_: TextSubtype)`. */
  function TextOf(s: TextSubtype): MediaType {
    TextNamed(SubtypeRawValue(s))
  }

  /** The `text` constant: the constructor with the `text` case and nothing else. */
  const BareText: MediaType := Make(TopLevelTypes.Text, None, None, None, None)

  /** The type name `"text"` is the registered `text` case. */
  lemma TextTypeName()
    ensures TopLevelTypes.Of("text") == TopLevelTypes.Text
    ensures TopLevelTypes.RawValue(TopLevelTypes.Text) == "text"
  {
    assert Lower("text") == "text";
  }

  /** Its raw value is a token. */
  lemma TextTypeToken()
    ensures Token(TopLevelTypes.RawValue(TopLevelTypes.Text))
  {
  }

  /** The constructor with only a type and a subtype writes them out around a `/`. */
  lemma MadeWithSubtype(typ: TopLevelTypes.TopLevelType, subtype: string)
    ensures Make(typ, None, Some(subtype), None, None).rawValue
            == Trim(TopLevelTypes.RawValue(typ)) + ['/'] + Trim(subtype)
  {
    MakeReassembles(typ, None, Some(subtype), None, None);
  }

  /** The constructor with a registered type named by a token, and nothing else, writes that name alone. */
  lemma TypeOnlyParts(typ: TopLevelTypes.TopLevelType)
    requires TopLevelTypes.IsRegistered(typ) && Token(TopLevelTypes.RawValue(typ))
    ensures var m := Make(typ, None, None, None, None);
      && m.rawValue == TopLevelTypes.RawValue(typ)
      && HasType(m) && TypeOf(m) == typ
      && FacetOf(m) == None && SubtypeOf(m) == None && SuffixOf(m) == None
      && Params(m) == []
  {
    var r := TopLevelTypes.RawValue(typ);
    TokenClean(r);
    assert r + "" + "" == r;
    assert Composable(typ, None, None, None);
    MadeAccessors(typ, None, None, None, None);
    MadeType(typ, None, None, None, None);
    ParamsOfMake(typ, None, None, None, None);
  }

  /**
   * With such a type and a subtype without the delimiters of the subtype
   * text, the constructor writes `type/subtype`, which reads back the type,
   * the trimmed subtype, and no facet, suffix or parameter.
   */
  lemma TypeSubtypeParts(typ: TopLevelTypes.TopLevelType, subtype: string)
    requires TopLevelTypes.IsRegistered(typ) && Token(TopLevelTypes.RawValue(typ))
    requires ';' !in subtype && '.' !in subtype && '+' !in subtype
    ensures var m := Make(typ, None, Some(subtype), None, None);
      && m.rawValue == TopLevelTypes.RawValue(typ) + "/" + Trim(subtype)
      && HasType(m) && TypeOf(m) == typ
      && FacetOf(m) == None && SubtypeOf(m) == Some(Trim(subtype)) && SuffixOf(m) == None
      && Params(m) == []
  {
    var r := TopLevelTypes.RawValue(typ);
    TokenClean(r);
    MadeWithSubtype(typ, subtype);
    assert r + ['/'] + Trim(subtype) == r + "/" + Trim(subtype);
    assert Composable(typ, None, Some(subtype), None);
    MadeAccessors(typ, None, Some(subtype), None, None);
    MadeType(typ, None, Some(subtype), None, None);
    ParamsOfMake(typ, None, Some(subtype), None, None);
  }

  /** `text(s)` is `text/` followed by the trimmed `s`. */
  lemma TextNamedRawValue(subtype: string)
    ensures TextNamed(subtype).rawValue == "text" + "/" + Trim(subtype)
  {
    TextTypeName();
    TextTypeToken();
    TokenClean(TopLevelTypes.RawValue(TopLevelTypes.Text));
    MadeWithSubtype(TopLevelTypes.Text, subtype);
  }

  /**
   * A subtype without the delimiters of the subtype text reads back
   * trimmed, under the type `text`, with no facet, suffix or parameter.
   */
  lemma TextNamedParts(subtype: string)
    requires ';' !in subtype && '.' !in subtype && '+' !in subtype
    ensures var m := TextNamed(subtype);
      && HasType(m) && TypeOf(m) == TopLevelTypes.Text
      && FacetOf(m) == None && SubtypeOf(m) == Some(Trim(subtype)) && SuffixOf(m) == None
      && Params(m) == []
  {
    TextTypeName();
    TextTypeToken();
    TypeSubtypeParts(TopLevelTypes.Text, subtype);
  }

  /** `text(s)` for a registered subtype reads back that subtype's raw value verbatim, `SGML` included. */
  lemma TextOfParts(s: TextSubtype)
    ensures var m := TextOf(s);
      && m.rawValue == "text" + "/" + SubtypeRawValue(s)
      && HasType(m) && TypeOf(m) == TopLevelTypes.Text
      && FacetOf(m) == None && SubtypeOf(m) == Some(SubtypeRawValue(s)) && SuffixOf(m) == None
      && Params(m) == []
  {
    SubtypeRawValueClean(s);
    TrimNoEdgeSpace(SubtypeRawValue(s));
    TextNamedRawValue(SubtypeRawValue(s));
    TextNamedParts(SubtypeRawValue(s));
  }

  /** The `text` constant is `text`: the `text` type with no subtype, facet, suffix or parameter. */
  lemma BareTextParts()
    ensures BareText.rawValue == "text"
    ensures HasType(BareText) && TypeOf(BareText) == TopLevelTypes.Text
    ensures FacetOf(BareText) == None && SubtypeOf(BareText) == None && SuffixOf(BareText) == None
    ensures Params(BareText) == []
  {
    TextTypeName();
    TextTypeToken();
    TypeOnlyParts(TopLevelTypes.Text);
  }

  /** Every registered text subtype matches the `text` constant, and the constant matches none of them. */
  lemma TextOfMatchesBare(s: TextSubtype)
    ensures CanMatch(TextOf(s), BareText) && IsMatch(TextOf(s), BareText)
    ensures CanMatch(BareText, TextOf(s)) && !IsMatch(BareText, TextOf(s))
  {
    TextOfParts(s);
    BareTextParts();
    Matching.BareTemplate(TextOf(s), BareText);
    Matching.SubtypeAsymmetry(BareText, TextOf(s));
  }

  // ---------------------------------------------------------------------
  // Markdown variants
  // ---------------------------------------------------------------------

  /** `MarkdownVariant`. */
  datatype MarkdownVariant =
    | Markdown | MultiMarkdown | Gfm | Pandoc | Pandoc2Rfc | Fountain | CommonMark | Kramdown | MarkdownExtra

  /** Its raw value, with the case the declaration gives it. */
  function VariantRawValue(v: MarkdownVariant): string {
    match v
    case Markdown => "markdown"
    case MultiMarkdown => "MultiMarkdown"
    case Gfm => "GFM"
    case Pandoc => "pandoc"
    case Pandoc2Rfc => "rfc7328"
    case Fountain => "Fountain"
    case CommonMark => "CommonMark"
    case Kramdown => "kramdown-rfc2629"
    case MarkdownExtra => "Extra"
  }

  /** `allCases`, in declaration order. */
  const AllVariants: seq<MarkdownVariant> :=
    [Markdown, MultiMarkdown, Gfm, Pandoc, Pandoc2Rfc, Fountain, CommonMark, Kramdown, MarkdownExtra]

  /** The lowercased raw value of each variant. */
  function Key(v: MarkdownVariant): (k: string)
    ensures k == Lower(VariantRawValue(v))
  {
    match v
    case Markdown => "markdown"
    case MultiMarkdown =>
      assert Lower("MultiMarkdown") == "multimarkdown";
      "multimarkdown"
    case Gfm =>
      assert Lower("GFM") == "gfm";
      "gfm"
    case Pandoc => "pandoc"
    case Pandoc2Rfc => "rfc7328"
    case Fountain =>
      assert Lower("Fountain") == "fountain";
      "fountain"
    case CommonMark =>
      assert Lower("CommonMark") == "commonmark";
      "commonmark"
    case Kramdown => "kramdown-rfc2629"
    case MarkdownExtra =>
      assert Lower("Extra") == "extra";
      "extra"
  }

  /** No two variants share a lowercased raw value. */
  lemma KeysDistinct(v: MarkdownVariant, w: MarkdownVariant)
    requires Lower(VariantRawValue(v)) == Lower(VariantRawValue(w))
    ensures v == w
  {
    var kv, kw := Key(v), Key(w);
  }

  /** The `reduce(into:)` of the table: each case in turn, under its lowercased raw value. */
  function Table(cases: seq<MarkdownVariant>): (t: map<string, MarkdownVariant>)
    ensures forall k :: k in t ==> t[k] in cases && Lower(VariantRawValue(t[k])) == k
  {
    if cases == [] then map[]
    else
      var v := cases[|cases| - 1];
      Table(cases[..|cases| - 1])[Lower(VariantRawValue(v)) := v]
  }

  /** Different variants have different lowercased raw values. */
  lemma KeysDiffer(v: MarkdownVariant, w: MarkdownVariant)
    requires v != w
    ensures Lower(VariantRawValue(v)) != Lower(VariantRawValue(w))
  {
    if Lower(VariantRawValue(v)) == Lower(VariantRawValue(w)) {
      KeysDistinct(v, w);
    }
  }

  /** Every case of the fold is found under its lowercased raw value. */
  lemma {:induction false} TableAt(cases: seq<MarkdownVariant>, v: MarkdownVariant)
    requires v in cases
    ensures Lower(VariantRawValue(v)) in Table(cases)
    ensures Table(cases)[Lower(VariantRawValue(v))] == v
    decreases |cases|
  {
    var n := |cases| - 1;
    var w := cases[n];
    if w != v {
      var prefix := cases[..n];
      assert v in prefix by {
        var i :| 0 <= i < |cases| && cases[i] == v;
        assert prefix[i] == v;
      }
      TableAt(prefix, v);
      KeysDiffer(v, w);
    }
  }

  /** The static `map`, built once from `allCases`. */
  const VariantTable: map<string, MarkdownVariant> := Table(AllVariants)

  /** The table holds every variant under its lowercased raw value, and nothing else. */
  lemma VariantTableSpec(v: MarkdownVariant)
    ensures Lower(VariantRawValue(v)) in VariantTable
    ensures VariantTable[Lower(VariantRawValue(v))] == v
  {
    assert v in AllVariants by {
      match v
      case Markdown => assert AllVariants[0] == v;
      case MultiMarkdown => assert AllVariants[1] == v;
      case Gfm => assert AllVariants[2] == v;
      case Pandoc => assert AllVariants[3] == v;
      case Pandoc2Rfc => assert AllVariants[4] == v;
      case Fountain => assert AllVariants[5] == v;
      case CommonMark => assert AllVariants[6] == v;
      case Kramdown => assert AllVariants[7] == v;
      case MarkdownExtra => assert AllVariants[8] == v;
    }
    TableAt(AllVariants, v);
  }

  /** `init?(string:)`: the table entry of the lowercased input, nil without one. */
  function VariantFromString(s: string): (r: Option<MarkdownVariant>)
    ensures r.Some? ==> Lower(VariantRawValue(r.value)) == Lower(s)
  {
    var l := Lower(s);
    if l in VariantTable then Some(VariantTable[l]) else None
  }

  /** A string names a variant exactly when it equals that variant's raw value up to case. */
  lemma VariantFromStringIff(s: string, v: MarkdownVariant)
    ensures VariantFromString(s) == Some(v) <==> Lower(s) == Lower(VariantRawValue(v))
  {
    if Lower(s) == Lower(VariantRawValue(v)) {
      VariantTableSpec(v);
    }
  }

  /** A string that is no variant's raw value up to case gives nil. */
  lemma VariantFromStringNone(s: string)
    ensures VariantFromString(s) == None <==> forall v :: Lower(s) != Lower(VariantRawValue(v))
  {
    if VariantFromString(s) == None {
      forall v ensures Lower(s) != Lower(VariantRawValue(v)) {
        VariantFromStringIff(s, v);
      }
    }
  }

  /** Every variant is recovered from its raw value, in any case. */
  lemma VariantRoundTrip(v: MarkdownVariant)
    ensures VariantFromString(VariantRawValue(v)) == Some(v)
    ensures VariantFromString(Lower(VariantRawValue(v))) == Some(v)
  {
    LowerIdempotent(VariantRawValue(v));
    VariantFromStringIff(VariantRawValue(v), v);
    VariantFromStringIff(Lower(VariantRawValue(v)), v);
  }

  /** `gfm` names `GFM` and `commonmark` names `CommonMark`. */
  lemma VariantExamples()
    ensures VariantFromString("gfm") == Some(Gfm)
    ensures VariantFromString("commonmark") == Some(CommonMark)
  {
    assert Lower("gfm") == Key(Gfm) && Lower("commonmark") == Key(CommonMark);
    VariantFromStringIff("gfm", Gfm);
    VariantFromStringIff("commonmark", CommonMark);
  }

  /** `unknown` names no variant. */
  lemma UnknownVariant()
    ensures VariantFromString("unknown") == None
  {
    assert Lower("unknown") == "unknown";
    forall v ensures Lower("unknown") != Lower(VariantRawValue(v)) {
      var k := Key(v);
    }
    VariantFromStringNone("unknown");
  }

  // ---------------------------------------------------------------------
  // The `variant` parameter
  // ---------------------------------------------------------------------

  /** The getter of `markdownVariant`: the `variant` parameter, mapped through `init?(string:)`. */
  function MarkdownVariantOf(m: MediaType): Option<MarkdownVariant> {
    match Lookup(Params(m), "variant")
    case None => None
    case Some(s) => VariantFromString(s)
  }

  /** The getter names `v` exactly when the `variant` parameter is present and is `v`'s raw value up to case. */
  lemma MarkdownVariantOfIff(m: MediaType, v: MarkdownVariant)
    ensures MarkdownVariantOf(m) == Some(v) <==>
      (Lookup(Params(m), "variant").Some? && Lower(Lookup(Params(m), "variant").value) == Lower(VariantRawValue(v)))
  {
    if Lookup(Params(m), "variant").Some? {
      VariantFromStringIff(Lookup(Params(m), "variant").value, v);
    }
  }

  /** `markdownVariant(_:)`: `adding(parameter: "variant", value: v.rawValue)`. */
  function WithMarkdownVariant(m: MediaType, v: MarkdownVariant): MediaType
    requires Rebuildable(m)
  {
    AddParameter(m, "variant", VariantRawValue(v))
  }

  /** The raw values are tokens. */
  lemma VariantRawValueToken(v: MarkdownVariant)
    ensures Token(VariantRawValue(v))
  {
    match v
    case Markdown =>
    case MultiMarkdown =>
    case Gfm =>
    case Pandoc =>
    case Pandoc2Rfc =>
    case Fountain =>
    case CommonMark =>
    case Kramdown =>
    case MarkdownExtra =>
  }

  /** The parameter name is a lowercase token. */
  lemma VariantName()
    ensures Token("variant") && Lower("variant") == "variant"
  {
  }

  /** Setting a variant makes the getter return it. */
  lemma WithMarkdownVariantSets(m: MediaType, v: MarkdownVariant)
    requires Rebuildable(m)
    ensures MarkdownVariantOf(WithMarkdownVariant(m, v)) == Some(v)
  {
    var raw := VariantRawValue(v);
    assert Lookup(Params(WithMarkdownVariant(m, v)), "variant") == Some(raw) by {
      VariantRawValueToken(v);
      TokenClean(raw);
      VariantName();
      TokenClean("variant");
      AddParameterSets(m, "variant", raw);
    }
    VariantRoundTrip(v);
  }

  /** Setting a variant leaves every other parameter, and the type, facet, subtype and suffix, as they were. */
  lemma WithMarkdownVariantKeeps(m: MediaType, v: MarkdownVariant, other: string)
    requires Rebuildable(m) && Rebuilding.Plain(Params(m))
    requires Lower(other) != "variant"
    ensures var r := WithMarkdownVariant(m, v);
      && Lookup(Params(r), other) == Lookup(Params(m), other)
      && FacetOf(r) == FacetOf(m) && SubtypeOf(r) == SubtypeOf(m) && SuffixOf(r) == SuffixOf(m)
      && (HasType(m) ==> HasType(r) && TypeOf(r) == TypeOf(m))
  {
    var raw := VariantRawValue(v);
    var r := WithMarkdownVariant(m, v);
    assert Lookup(Params(r), other) == Lookup(Params(m), other) by {
      VariantRawValueToken(v);
      TokenClean(raw);
      VariantName();
      TokenClean("variant");
      AddParameterKeeps(m, "variant", raw, other);
    }
    ParameterRebuildKeeps(m, Some(Unmatched(Params(m), Trim("variant"))["variant" := raw]));
  }

  // ---------------------------------------------------------------------
  // normalize(markdownVariant:)
  // ---------------------------------------------------------------------

  /** `normalize(markdownVariant:)`: the declared spelling of a recognised variant, the input otherwise. */
  function NormalizeVariant(s: string): (r: string)
    ensures Lower(r) == Lower(s)
    ensures VariantFromString(r) == VariantFromString(s)
    ensures VariantFromString(s).None? ==> r == s
  {
    match VariantFromString(s)
    case Some(v) =>
      VariantRoundTrip(v);
      VariantRawValue(v)
    case None => s
  }

  /** A recognised name becomes the raw value of the variant it names. */
  lemma NormalizeVariantCanonical(s: string, v: MarkdownVariant)
    requires Lower(s) == Lower(VariantRawValue(v))
    ensures NormalizeVariant(s) == VariantRawValue(v)
  {
    VariantFromStringIff(s, v);
  }

  /** Normalizing twice is normalizing once. */
  lemma NormalizeVariantIdempotent(s: string)
    ensures NormalizeVariant(NormalizeVariant(s)) == NormalizeVariant(s)
  {
    if VariantFromString(s).Some? {
      VariantRoundTrip(VariantFromString(s).value);
    }
  }
}
