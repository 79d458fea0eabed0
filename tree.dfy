/**
 * `Tree` (Tree.swift): the registration tree named by a subtype facet.
 * The standards tree has no facet; `vnd`, `prs` and `x` name the vendor,
 * personal and unregistered trees; any other facet is `other`.
 */
module Trees {
  import opened Wrappers
  import opened Strings

  datatype Tree = Standards | Vendor | Personal | Unregistered | Other(name: string)

  /** Neither empty nor one of the three reserved facets. */
  predicate Unreserved(s: string) {
    s != "" && s != "vnd" && s != "prs" && s != "x"
  }

  /** `rawValue`: the facet of the tree; an `other` name is lowercased. */
  function RawValue(t: Tree): (r: string)
    ensures IsLower(r)
  {
    match t
    case Standards => ""
    case Vendor => "vnd"
    case Personal => "prs"
    case Unregistered => "x"
    case Other(s) => LowerIsLower(s); Lower(s)
  }

  /**
   * `init?(rawValue:)`: matches the lowercased facet and never returns nil;
   * the empty facet is the standards tree.
   */
  function FromRawValue(s: string): (r: Option<Tree>)
    ensures r.Some?
    ensures r.value.Standards? <==> s == ""
    ensures !r.value.Other? ==> RawValue(r.value) == Lower(s)
    ensures r.value.Other? ==> r.value.name == Lower(s) && Unreserved(Lower(s))
  {
    var tree := Lower(s);
    match tree
    case "" => Some(Standards)
    case "vnd" => Some(Vendor)
    case "prs" => Some(Personal)
    case "x" => Some(Unregistered)
    case _ => Some(Other(tree))
  }

  /**
   * `init(_:)`. Its precondition failure is unreachable, since
   * `init?(rawValue:)` never returns nil, so it has no precondition here.
   */
  function Of(s: string): (t: Tree)
    ensures Some(t) == FromRawValue(s)
  {
    FromRawValue(s).value
  }

  /** `description`: a placeholder for the standards tree, the raw value otherwise. */
  function Description(t: Tree): string {
    match t
    case Standards => "[standards]"
    case _ => RawValue(t)
  }

  /** The raw value of every tree parses back to it, `other` names once lowercased. */
  lemma RoundTrip(t: Tree)
    requires t.Other? ==> IsLower(t.name) && Unreserved(t.name)
    ensures FromRawValue(RawValue(t)) == Some(t)
  {
    match t
    case Standards =>
    case Vendor => LowerOfLower("vnd");
    case Personal => LowerOfLower("prs");
    case Unregistered => LowerOfLower("x");
    case Other(s) =>
      LowerOfLower(s);
      assert RawValue(t) == s;
  }

  /** Parsing is case-insensitive: `VND` is the vendor tree. */
  lemma UpperCaseVendor()
    ensures Of("VND") == Vendor
  {
    assert Lower("VND") == "vnd";
  }

  /** The description parses back to the tree, except for the standards placeholder. */
  lemma DescriptionRoundTrip(t: Tree)
    requires t.Other? ==> IsLower(t.name) && Unreserved(t.name)
    ensures t != Standards ==> FromRawValue(Description(t)) == Some(t)
    ensures t == Standards ==> Description(t) == "[standards]" && Of(Description(t)) == Other("[standards]")
  {
    if t == Standards {
      LowerOfLower("[standards]");
    } else {
      RoundTrip(t);
    }
  }
}
