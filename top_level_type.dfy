/**
 * `MediaType.TopLevelType` (TopLevelType.swift): the eleven registered
 * top-level types plus `other(String)` for any other name.
 */
module TopLevelTypes {
  import opened Wrappers
  import opened Strings

  datatype TopLevelType =
    | Application | Audio | Example | Font | Haptics | Image
    | Message | Model | Multipart | Text | Video
    | Other(name: string)

  /** One of the eleven registered cases. */
  predicate IsRegistered(t: TopLevelType) {
    !t.Other?
  }

  /** `rawValue`: the lowercase token of a registered case, the name of `other` verbatim. */
  function RawValue(t: TopLevelType): string {
    match t
    case Application => "application"
    case Audio => "audio"
    case Example => "example"
    case Font => "font"
    case Haptics => "haptics"
    case Image => "image"
    case Message => "message"
    case Model => "model"
    case Multipart => "multipart"
    case Text => "text"
    case Video => "video"
    case Other(s) => s
  }

  /** The `switch rawValue.lowercased()` of `init?(rawValue:)`. */
  function RegisteredNamed(lowered: string): (r: Option<TopLevelType>)
    ensures r.Some? ==> IsRegistered(r.value) && RawValue(r.value) == lowered
    ensures r.None? ==> Unregistered(lowered)
  {
    match lowered
    case "application" => Some(Application)
    case "audio" => Some(Audio)
    case "example" => Some(Example)
    case "font" => Some(Font)
    case "haptics" => Some(Haptics)
    case "image" => Some(Image)
    case "message" => Some(Message)
    case "model" => Some(Model)
    case "multipart" => Some(Multipart)
    case "text" => Some(Text)
    case "video" => Some(Video)
    case _ => None
  }

  /** No registered token equals `s`. */
  predicate Unregistered(s: string) {
    && s != "application" && s != "audio" && s != "example" && s != "font"
    && s != "haptics" && s != "image" && s != "message" && s != "model"
    && s != "multipart" && s != "text" && s != "video"
  }

  /**
   * `init?(rawValue:)`: nil for the empty string; a registered case when
   * the lowercased input is its token; otherwise `other` of the trimmed
   * input, case preserved.
   */
  function FromRawValue(s: string): (r: Option<TopLevelType>)
    ensures r.None? <==> s == ""
    ensures r.Some? && !r.value.Other? ==> IsRegistered(r.value) && RawValue(r.value) == Lower(s)
    ensures r.Some? && r.value.Other? ==> r.value.name == Trim(s) && Unregistered(Lower(s))
  {
    if |s| == 0 then None
    else match RegisteredNamed(Lower(s))
      case Some(t) => Some(t)
      case None => Some(Other(Trim(s)))
  }

  /** `init(_:)`: the same as `init?(rawValue:)`, with a precondition failure on the empty string. */
  function Of(s: string): (t: TopLevelType)
    requires s != ""
    ensures Some(t) == FromRawValue(s)
  {
    FromRawValue(s).value
  }

  /** `description`. */
  function Description(t: TopLevelType): string {
    RawValue(t)
  }

  /** An `other` name that `init?(rawValue:)` gives back unchanged. */
  predicate CanonicalOther(s: string) {
    s != "" && NoEdgeSpace(s) && Unregistered(Lower(s))
  }

  /** Parsing the raw value of a registered case gives the case back. */
  lemma RegisteredRoundTrip(t: TopLevelType)
    requires IsRegistered(t)
    ensures FromRawValue(RawValue(t)) == Some(t)
  {
    LowerOfLower(RawValue(t));
    match t
    case Application => assert RegisteredNamed("application") == Some(t);
    case Audio => assert RegisteredNamed("audio") == Some(t);
    case Example => assert RegisteredNamed("example") == Some(t);
    case Font => assert RegisteredNamed("font") == Some(t);
    case Haptics => assert RegisteredNamed("haptics") == Some(t);
    case Image => assert RegisteredNamed("image") == Some(t);
    case Message => assert RegisteredNamed("message") == Some(t);
    case Model => assert RegisteredNamed("model") == Some(t);
    case Multipart => assert RegisteredNamed("multipart") == Some(t);
    case Text => assert RegisteredNamed("text") == Some(t);
    case Video => assert RegisteredNamed("video") == Some(t);
  }

  /** Parsing the raw value of a canonical `other(s)` gives it back. */
  lemma OtherRoundTrip(s: string)
    requires CanonicalOther(s)
    ensures FromRawValue(RawValue(Other(s))) == Some(Other(s))
  {
    UnregisteredNamed(Lower(s));
    TrimNoEdgeSpace(s);
  }

  /** An unregistered lowercased name is not looked up as a registered case. */
  lemma UnregisteredNamed(lowered: string)
    requires Unregistered(lowered)
    ensures RegisteredNamed(lowered) == None
  {
  }

  /** ... and only a canonical one: padding, emptiness or a registered spelling is lost. */
  lemma OtherRoundTripOnlyIfCanonical(s: string)
    requires FromRawValue(RawValue(Other(s))) == Some(Other(s))
    ensures CanonicalOther(s)
  {
  }

  /** A raw value that parses back is not empty and carries no edge whitespace. */
  lemma RawValueTrimmed(t: TopLevelType)
    requires IsRegistered(t) || CanonicalOther(t.name)
    ensures RawValue(t) != "" && NoEdgeSpace(RawValue(t))
  {
    if t.Other? {
      assert RawValue(t) == t.name;
    }
  }

  /**
   * Rebuilding from the raw value of `TopLevelType(s)`: its trimmed raw
   * value is empty exactly when `s` is all whitespace, and otherwise
   * parses to the type of the trimmed `s`.
   */
  lemma Reparse(s: string)
    requires s != ""
    ensures Trim(RawValue(Of(s))) == "" <==> Trim(s) == ""
    ensures Trim(s) != "" ==> Of(Trim(RawValue(Of(s)))) == Of(Trim(s))
  {
    var t := Of(s);
    if IsRegistered(t) {
      RawValueTrimmed(t);
      LowerNoEdgeSpace(s);
      TrimNoEdgeSpace(s);
      TrimNoEdgeSpace(RawValue(t));
      RegisteredRoundTrip(t);
    } else {
      TrimIdempotent(s);
    }
  }

  /** The raw value of `TopLevelType(s)` holds no punctuation that `s` does not. */
  lemma OfKeeps(s: string, c: char)
    requires s != "" && c !in s
    requires !IsSpace(c) && !IsUpper(c) && !('a' <= c <= 'z')
    ensures c !in RawValue(Of(s))
  {
    var t := Of(s);
    if t.Other? {
      TrimKeeps(s, c);
    } else {
      LowerKeeps(s, c);
    }
  }

  /** ... and neither does its trimmed raw value. */
  lemma OfKeepsTrimmed(s: string, c: char)
    requires s != "" && c !in s
    requires !IsSpace(c) && !IsUpper(c) && !('a' <= c <= 'z')
    ensures c !in Trim(RawValue(Of(s)))
  {
    OfKeeps(s, c);
    if c in Trim(RawValue(Of(s))) {
      TrimChars(RawValue(Of(s)), c);
    }
  }

  /**
   * Lowercasing the input first changes nothing for a registered name,
   * which already matches case-insensitively, and lowercases an `other` name.
   */
  lemma LowerOf(s: string)
    requires s != ""
    ensures Lower(s) != ""
    ensures !Of(s).Other? ==> Of(Lower(s)) == Of(s)
    ensures Of(s).Other? ==> Of(Lower(s)) == Other(Lower(Of(s).name))
  {
    var l := Lower(s);
    assert |l| == |s|;
    LowerIdempotent(s);
    assert RegisteredNamed(Lower(l)) == RegisteredNamed(Lower(s));
    if Of(s).Other? {
      TrimLower(s);
    }
  }

  /** A lowercase name without edge whitespace is its own raw value, and parses back. */
  lemma CanonicalOf(s: string)
    requires s != "" && NoEdgeSpace(s) && Lower(s) == s
    ensures RawValue(Of(s)) == s
    ensures IsRegistered(Of(s)) || CanonicalOther(Of(s).name)
  {
    if Of(s).Other? {
      TrimNoEdgeSpace(s);
    }
  }

  /** The type of a lowercased, trimmed, non-blank name is canonical, with that name as its raw value. */
  lemma CanonicalLowerTrim(s: string)
    requires Trim(s) != ""
    ensures Lower(Trim(s)) != ""
    ensures RawValue(Of(Lower(Trim(s)))) == Lower(Trim(s))
    ensures IsRegistered(Of(Lower(Trim(s)))) || CanonicalOther(Of(Lower(Trim(s))).name)
  {
    var x := Lower(Trim(s));
    assert |x| == |Trim(s)|;
    LowerNoEdgeSpace(Trim(s));
    LowerIdempotent(Trim(s));
    CanonicalOf(x);
  }

  /** The lowercased raw value of `TopLevelType(s)` is the lowercased `s`. */
  lemma LowerRawValueOf(s: string)
    requires s != "" && NoEdgeSpace(s)
    ensures Lower(RawValue(Of(s))) == Lower(s)
  {
    if Of(s).Other? {
      TrimNoEdgeSpace(s);
    } else {
      LowerIdempotent(s);
    }
  }

  /** The description parses back to the value it describes. */
  lemma DescriptionRoundTrip(t: TopLevelType)
    requires IsRegistered(t) || (t.Other? && CanonicalOther(t.name))
    ensures FromRawValue(Description(t)) == Some(t)
  {
    if IsRegistered(t) { RegisteredRoundTrip(t); } else { OtherRoundTrip(t.name); }
  }

  /** Registered names match case-insensitively: `TeXt` is `.text`, whose raw value is `text`. */
  lemma MixedCaseText()
    ensures FromRawValue("TeXt") == Some(Text) && RawValue(Of("TeXt")) == "text"
  {
    assert Lower("TeXt") == "text";
  }

  /** Matching uses the untrimmed input, so `" text"` is not `.text` but `.other("text")`. */
  lemma PaddedText()
    ensures FromRawValue(" text") == Some(Other("text"))
  {
    assert Lower(" text") == " text";
    assert RegisteredNamed(" text") == None;
    assert " " + "text" + "" == " text";
    TrimUnique(" ", "text", "");
  }
}
