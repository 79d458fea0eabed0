/**
 * `Type` (Type.swift): the older top-level type enumeration that
 * `TopLevelType` superseded. It has the same shape, without `haptics`.
 */
module LegacyTypes {
  import opened Wrappers
  import opened Strings

  datatype Type =
    | Application | Audio | Example | Font | Image
    | Message | Model | Multipart | Text | Video
    | Other(name: string)

  predicate IsRegistered(t: Type) {
    !t.Other?
  }

  /** `rawValue`. */
  function RawValue(t: Type): string {
    match t
    case Application => "application"
    case Audio => "audio"
    case Example => "example"
    case Font => "font"
    case Image => "image"
    case Message => "message"
    case Model => "model"
    case Multipart => "multipart"
    case Text => "text"
    case Video => "video"
    case Other(s) => s
  }

  /** No registered token equals `s`. */
  predicate Unregistered(s: string) {
    && s != "application" && s != "audio" && s != "example" && s != "font"
    && s != "image" && s != "message" && s != "model"
    && s != "multipart" && s != "text" && s != "video"
  }

  /** The `switch rawValue.lowercased()` of `init?(rawValue:)`. */
  function RegisteredNamed(lowered: string): (r: Option<Type>)
    ensures r.Some? ==> IsRegistered(r.value) && RawValue(r.value) == lowered
    ensures r.None? ==> Unregistered(lowered)
  {
    match lowered
    case "application" => Some(Application)
    case "audio" => Some(Audio)
    case "example" => Some(Example)
    case "font" => Some(Font)
    case "image" => Some(Image)
    case "message" => Some(Message)
    case "model" => Some(Model)
    case "multipart" => Some(Multipart)
    case "text" => Some(Text)
    case "video" => Some(Video)
    case _ => None
  }

  /** `init?(rawValue:)`: nil for the empty string, else a registered case or `other` of the trimmed input. */
  function FromRawValue(s: string): (r: Option<Type>)
    ensures r.None? <==> s == ""
    ensures r.Some? && IsRegistered(r.value) ==> RawValue(r.value) == Lower(s)
    ensures r.Some? && r.value.Other? ==> r.value.name == Trim(s) && Unregistered(Lower(s))
  {
    if |s| == 0 then None
    else match RegisteredNamed(Lower(s))
      case Some(t) => Some(t)
      case None => Some(Other(Trim(s)))
  }

  /** `init(_:)`: a precondition failure on the empty string. */
  function Of(s: string): (t: Type)
    requires s != ""
    ensures Some(t) == FromRawValue(s)
  {
    FromRawValue(s).value
  }

  /** Parsing the raw value of a registered case gives the case back. */
  lemma RegisteredRoundTrip(t: Type)
    requires IsRegistered(t)
    ensures FromRawValue(RawValue(t)) == Some(t)
  {
    LowerOfLower(RawValue(t));
    match t
    case Application => assert RegisteredNamed("application") == Some(t);
    case Audio => assert RegisteredNamed("audio") == Some(t);
    case Example => assert RegisteredNamed("example") == Some(t);
    case Font => assert RegisteredNamed("font") == Some(t);
    case Image => assert RegisteredNamed("image") == Some(t);
    case Message => assert RegisteredNamed("message") == Some(t);
    case Model => assert RegisteredNamed("model") == Some(t);
    case Multipart => assert RegisteredNamed("multipart") == Some(t);
    case Text => assert RegisteredNamed("text") == Some(t);
    case Video => assert RegisteredNamed("video") == Some(t);
  }

  /** `Haptics` lowercases to `haptics`. */
  lemma HapticsLower()
    ensures Lower("Haptics") == "haptics"
  {
    assert "Haptics" == ['H'] + "aptics";
    LowerConcat(['H'], "aptics");
  }

  /** Without a `haptics` case, `Haptics` is an `other` type here. */
  lemma HapticsIsOther()
    ensures FromRawValue("Haptics") == Some(Other("Haptics"))
  {
    HapticsLower();
    assert RegisteredNamed("haptics") == None;
    TrimNoEdgeSpace("Haptics");
  }
}
