/**
 * Properties of the lexer `parse()` and of the accessors built on it
 * (MediaType.swift): the components it returns are the only lexed
 * components that reassemble to the raw value, and the test fixtures of
 * the accessors follow.
 */
module Lexing {
  import opened Wrappers
  import opened Strings
  import TopLevelTypes
  import Trees
  import opened MediaTypes

  lemma SubtypeTextFree(facet: Option<string>, subtype: string, suffix: Option<string>, c: char)
    requires facet.Some? ==> c !in facet.value
    requires c !in subtype
    requires suffix.Some? ==> c !in suffix.value
    requires c != '.' && c != '+'
    ensures c !in SubtypeText(facet, subtype, suffix)
  {
  }

  /** The cuts after the `/` are lexed pieces that reassemble to the text. */
  lemma ParseSubtypeSpec(s: string)
    requires ';' !in s
    ensures var (facet, subtype, suffix) := ParseSubtype(s);
      SubtypeLexed(facet, subtype, suffix) && SubtypeText(facet, subtype, suffix) == s
  {
    var (facet, rest) :=
      match CutFirst(s, '.')
      case (whole, None) => (None, whole)
      case (before, Some(after)) => (Some(before), after);
    assert ';' !in rest;
    var (subtype, suffix) := CutLast(rest, '+');
    assert ';' !in subtype && (suffix.Some? ==> ';' !in suffix.value);
    assert facet.None? ==> '.' !in subtype && (suffix.Some? ==> '.' !in suffix.value);
  }

  /** `parse()` cuts the raw value into lexed components that reassemble to it. */
  lemma ParseSpec(raw: string)
    ensures Lexed(Parse(raw))
    ensures Reassemble(Parse(raw)) == raw
  {
    var (head, parameters) := CutFirst(raw, ';');
    var (typ, rest) := CutFirst(head, '/');
    if rest.Some? {
      assert ';' !in rest.value;
      ParseSubtypeSpec(rest.value);
    }
  }

  /** The pieces after the `/` are the only lexed pieces whose text `ParseSubtype` cuts that way. */
  lemma ParseSubtypeUnique(facet: Option<string>, subtype: string, suffix: Option<string>)
    requires SubtypeLexed(facet, subtype, suffix)
    ensures ';' !in SubtypeText(facet, subtype, suffix)
    ensures ParseSubtype(SubtypeText(facet, subtype, suffix)) == (facet, subtype, suffix)
  {
    SubtypeTextFree(facet, subtype, suffix, ';');
    var rest := if suffix.Some? then subtype + ['+'] + suffix.value else subtype;
    if suffix.Some? {
      CutLastAt(subtype, suffix.value, '+');
    } else {
      CutLastNone(subtype, '+');
    }
    if facet.Some? {
      CutFirstAt(facet.value, rest, '.');
    } else {
      CutFirstNone(rest, '.');
    }
  }

  /**
   * `parse()` is determined by its contract: the lexed components that
   * reassemble to a raw value are the ones it returns.
   */
  lemma ParseUnique(c: Components)
    requires Lexed(c)
    ensures Parse(Reassemble(c)) == c
  {
    var head := if c.subtype.Some? then c.typ + ['/'] + SubtypeText(c.facet, c.subtype.value, c.suffix) else c.typ;
    if c.subtype.Some? {
      ParseSubtypeUnique(c.facet, c.subtype.value, c.suffix);
    }
    assert ';' !in head;
    if c.parameters.Some? {
      CutFirstAt(head, c.parameters.value, ';');
    } else {
      CutFirstNone(head, ';');
    }
    if c.subtype.Some? {
      CutFirstAt(c.typ, SubtypeText(c.facet, c.subtype.value, c.suffix), '/');
    } else {
      CutFirstNone(c.typ, '/');
    }
  }

  /** Whatever follows the `/`, `parse()` reads back a type free of `;` and `/`. */
  lemma ReassembledType(c: Components)
    requires ';' !in c.typ && '/' !in c.typ
    ensures Parse(Reassemble(c)).typ == c.typ
  {
    var tail := if c.parameters.Some? then [';'] + c.parameters.value else [];
    if c.subtype.Some? {
      var rest := SubtypeText(c.facet, c.subtype.value, c.suffix) + tail;
      assert Reassemble(c) == (c.typ + ['/']) + rest;
      CutFirstAfter(c.typ + ['/'], rest, ';');
      CutFirstAt(c.typ, CutFirst(rest, ';').0, '/');
    } else {
      assert Reassemble(c) == c.typ + tail;
      CutFirstAfter(c.typ, tail, ';');
      if c.parameters.Some? {
        assert tail == [] + [';'] + c.parameters.value;
        CutFirstAt([], c.parameters.value, ';');
      }
      assert c.typ + CutFirst(tail, ';').0 == c.typ;
      CutFirstNone(c.typ, '/');
    }
  }

  /** When nothing in front of the block holds a `;`, `parse()` reads back the parameter block. */
  lemma ReassembledParams(c: Components)
    requires ';' !in c.typ
    requires c.subtype.Some? ==> ';' !in SubtypeText(c.facet, c.subtype.value, c.suffix)
    ensures Parse(Reassemble(c)).parameters == c.parameters
  {
    var head := if c.subtype.Some? then c.typ + ['/'] + SubtypeText(c.facet, c.subtype.value, c.suffix) else c.typ;
    assert ';' !in head;
    if c.parameters.Some? {
      CutFirstAt(head, c.parameters.value, ';');
    } else {
      CutFirstNone(head, ';');
    }
  }

  /** Without a subtype there is no facet and no suffix, and the tree is the standards tree. */
  lemma WithoutSubtype(m: MediaType)
    requires SubtypeOf(m).None?
    ensures FacetOf(m).None? && SuffixOf(m).None? && TreeOf(m) == Trees.Standards
  {
  }

  /**
   * The facet ends at the FIRST `.`: in `text/vnd.rtf.dir` the facet is
   * `vnd` and the subtype `rtf.dir`.
   */
  lemma FacetAtFirstPeriod(typ: string, facet: string, rest: string)
    requires ';' !in typ && '/' !in typ
    requires ';' !in facet && '.' !in facet
    requires ';' !in rest && '+' !in rest
    ensures var m := MediaType(typ + ['/'] + facet + ['.'] + rest);
      && FacetOf(m) == Some(Trim(facet))
      && SubtypeOf(m) == Some(Trim(rest))
      && SuffixOf(m).None?
  {
    var c := Components(typ, Some(facet), Some(rest), None, None);
    assert Reassemble(c) == typ + ['/'] + facet + ['.'] + rest;
    ParseUnique(c);
  }

  /**
   * The suffix follows the LAST `+`: in `image/jpeg+2000+q10` the subtype
   * is `jpeg+2000` and the suffix `q10`; in `text/plain+` the suffix is
   * present but empty.
   */
  lemma SuffixAtLastPlus(typ: string, subtype: string, suffix: string)
    requires ';' !in typ && '/' !in typ
    requires ';' !in subtype && '.' !in subtype
    requires ';' !in suffix && '.' !in suffix && '+' !in suffix
    ensures var m := MediaType(typ + ['/'] + subtype + ['+'] + suffix);
      && FacetOf(m).None?
      && SubtypeOf(m) == Some(Trim(subtype))
      && SuffixOf(m) == Some(Trim(suffix))
  {
    var c := Components(typ, None, Some(subtype), Some(suffix), None);
    assert Reassemble(c) == typ + ['/'] + subtype + ['+'] + suffix;
    ParseUnique(c);
  }

  /** `video/`: a trailing `/` gives a subtype that is present but empty, and the type before it. */
  lemma EmptySubtype(typ: string)
    requires ';' !in typ && '/' !in typ
    ensures var m := MediaType(typ + ['/']);
      && SubtypeOf(m) == Some("")
      && (HasType(m) <==> Trim(typ) != "")
      && (HasType(m) ==> TypeOf(m) == TopLevelTypes.Of(Trim(typ)))
  {
    var c := Components(typ, None, Some(""), None, None);
    assert Reassemble(c) == typ + ['/'];
    ParseUnique(c);
  }
}
