/**
 * The text primitives the media-type model is built on: the `trimmed()`
 * helper of StringProtocol.swift, and stand-ins for the Swift standard
 * library calls the core uses (`lowercased()`, `firstIndex(of:)`,
 * `lastIndex(of:)`, `components(separatedBy:)` and `String <`).
 *
 * Lowercasing is ASCII only and `<` is code-point lexicographic order;
 * whitespace is the space and the horizontal tab.
 */
module Strings {
  import opened Wrappers

  // ---------------------------------------------------------------------
  // Whitespace and trimming
  // ---------------------------------------------------------------------

  /** Membership in `CharacterSet.whitespaces`, restricted to ASCII. */
  predicate IsSpace(c: char) {
    c == ' ' || c == '\t'
  }

  predicate AllSpace(s: string) {
    forall i :: 0 <= i < |s| ==> IsSpace(s[i])
  }

  /** Neither the first nor the last character is whitespace. */
  predicate NoEdgeSpace(s: string) {
    |s| == 0 || (!IsSpace(s[0]) && !IsSpace(s[|s| - 1]))
  }

  /** Drops leading whitespace; what is dropped is all whitespace. */
  function TrimStart(s: string): (r: string)
    ensures |r| <= |s| && r == s[|s| - |r|..]
    ensures AllSpace(s[..|s| - |r|])
    ensures |r| == 0 || !IsSpace(r[0])
  {
    if |s| > 0 && IsSpace(s[0]) then TrimStart(s[1..]) else s
  }

  /** Drops trailing whitespace; what is dropped is all whitespace. */
  function TrimEnd(s: string): (r: string)
    ensures |r| <= |s| && r == s[..|r|]
    ensures AllSpace(s[|r|..])
    ensures |r| == 0 || !IsSpace(r[|r| - 1])
  {
    if |s| > 0 && IsSpace(s[|s| - 1]) then TrimEnd(s[..|s| - 1]) else s
  }

  /** `trimmed()`: `trimmingCharacters(in: .whitespaces)`. */
  function Trim(s: string): (r: string)
    ensures NoEdgeSpace(r)
    ensures |r| <= |s|
  {
    var t := TrimStart(s);
    var r := TrimEnd(t);
    assert |r| > 0 ==> r[0] == t[0];
    r
  }

  lemma {:induction false} TrimStartOfSpaces(a: string, b: string)
    requires AllSpace(a)
    requires |b| == 0 || !IsSpace(b[0])
    ensures TrimStart(a + b) == b
    decreases |a|
  {
    if |a| > 0 {
      assert (a + b)[1..] == a[1..] + b;
      TrimStartOfSpaces(a[1..], b);
    } else {
      assert a + b == b;
    }
  }

  lemma {:induction false} TrimEndOfSpaces(a: string, b: string)
    requires AllSpace(b)
    requires |a| == 0 || !IsSpace(a[|a| - 1])
    ensures TrimEnd(a + b) == a
    decreases |b|
  {
    if |b| > 0 {
      assert (a + b)[..|a + b| - 1] == a + b[..|b| - 1];
      TrimEndOfSpaces(a, b[..|b| - 1]);
    } else {
      assert a + b == a;
    }
  }

  /** Trimming is fully determined: only edge whitespace goes. */
  lemma TrimUnique(a: string, r: string, b: string)
    requires AllSpace(a) && AllSpace(b) && NoEdgeSpace(r)
    ensures Trim(a + r + b) == r
  {
    if |r| == 0 {
      assert a + r + b == a + b;
      TrimStartOfSpaces(a + b, "");
      assert a + b + "" == a + b;
      assert TrimStart(a + b) == "";
    } else {
      assert a + r + b == a + (r + b);
      TrimStartOfSpaces(a, r + b);
      TrimEndOfSpaces(r, b);
    }
  }

  /** Where `Trim(s)` starts and ends inside `s`. */
  lemma TrimBounds(s: string) returns (i: nat, j: nat)
    ensures i <= j <= |s| && Trim(s) == s[i..j]
    ensures AllSpace(s[..i]) && AllSpace(s[j..])
  {
    var t := TrimStart(s);
    i := |s| - |t|;
    var r := TrimEnd(t);
    j := i + |r|;
    assert t == s[i..];
    assert r == s[i..j];
    assert s[j..] == t[|r|..];
  }

  /** The result is a contiguous slice whose cut-off edges are whitespace. */
  lemma TrimIsSlice(s: string)
    ensures exists i, j :: 0 <= i <= j <= |s| && Trim(s) == s[i..j]
                           && AllSpace(s[..i]) && AllSpace(s[j..])
  {
    var i, j := TrimBounds(s);
  }

  /** Trimming is idempotent. */
  lemma TrimIdempotent(s: string)
    ensures Trim(Trim(s)) == Trim(s)
  {
    var r := Trim(s);
    assert "" + r + "" == r;
    TrimUnique("", r, "");
  }

  /** A string with no edge whitespace is left unchanged. */
  lemma TrimNoEdgeSpace(s: string)
    requires NoEdgeSpace(s)
    ensures Trim(s) == s
  {
    assert "" + s + "" == s;
    TrimUnique("", s, "");
  }

  /** Joining two strings without edge whitespace around a character keeps the edges. */
  lemma NoEdgeSpaceJoin(a: string, c: char, b: string)
    requires a != "" && b != "" && NoEdgeSpace(a) && NoEdgeSpace(b)
    ensures NoEdgeSpace(a + [c] + b)
  {
    assert (a + [c] + b)[0] == a[0];
    assert (a + [c] + b)[|a + [c] + b| - 1] == b[|b| - 1];
  }

  /** Every character of the trimmed string occurs in the input. */
  lemma TrimChars(s: string, c: char)
    requires c in Trim(s)
    ensures c in s
  {
    var i, j := TrimBounds(s);
    var k :| 0 <= k < j - i && s[i..j][k] == c;
    assert s[i + k] == c;
  }

  /** Trimming keeps every character that is not whitespace. */
  lemma TrimKeeps(s: string, c: char)
    requires !IsSpace(c)
    ensures c in Trim(s) <==> c in s
  {
    var i, j := TrimBounds(s);
    forall k | 0 <= k < |s| && s[k] == c
      ensures c in Trim(s)
    {
      assert i <= k < j;
      assert s[i..j][k - i] == c;
    }
    if c in Trim(s) {
      TrimChars(s, c);
    }
  }

  /** A string of whitespace only trims to the empty string. */
  lemma TrimAllSpace(s: string)
    requires AllSpace(s)
    ensures Trim(s) == ""
  {
    assert s + "" + "" == s;
    TrimUnique(s, "", "");
  }

  lemma {:induction false} TrimStartAfterSpace(a: string, s: string)
    requires AllSpace(a)
    ensures TrimStart(a + s) == TrimStart(s)
    decreases |a|
  {
    if |a| > 0 {
      assert (a + s)[1..] == a[1..] + s;
      TrimStartAfterSpace(a[1..], s);
    } else {
      assert a + s == s;
    }
  }

  /** Leading whitespace added in front does not change the trimmed result. */
  lemma TrimAfterSpace(a: string, s: string)
    requires AllSpace(a)
    ensures Trim(a + s) == Trim(s)
  {
    TrimStartAfterSpace(a, s);
  }

  // ---------------------------------------------------------------------
  // ASCII lowercasing
  // ---------------------------------------------------------------------

  predicate IsUpper(c: char) {
    'A' <= c <= 'Z'
  }

  function LowerChar(c: char): (r: char)
    ensures !IsUpper(r)
    ensures !IsUpper(c) ==> r == c
    ensures IsSpace(r) <==> IsSpace(c)
  {
    if IsUpper(c) then (c as int + 32) as char else c
  }

  /** `lowercased()`, restricted to ASCII letters. */
  function Lower(s: string): (r: string)
    ensures |r| == |s|
    ensures forall i :: 0 <= i < |s| ==> r[i] == LowerChar(s[i])
  {
    seq(|s|, i requires 0 <= i < |s| => LowerChar(s[i]))
  }

  predicate IsLower(s: string) {
    forall i :: 0 <= i < |s| ==> !IsUpper(s[i])
  }

  lemma LowerIsLower(s: string)
    ensures IsLower(Lower(s))
  {
  }

  lemma LowerOfLower(s: string)
    requires IsLower(s)
    ensures Lower(s) == s
  {
  }

  lemma LowerIdempotent(s: string)
    ensures Lower(Lower(s)) == Lower(s)
  {
  }

  lemma LowerConcat(a: string, b: string)
    ensures Lower(a + b) == Lower(a) + Lower(b)
  {
  }

  /** Lowercasing neither adds nor removes a character that is not a letter. */
  lemma LowerKeeps(s: string, c: char)
    requires !IsUpper(c) && !('a' <= c <= 'z')
    ensures c in Lower(s) <==> c in s
  {
    if c in s {
      var i :| 0 <= i < |s| && s[i] == c;
      assert Lower(s)[i] == c;
    }
    if c in Lower(s) {
      var i :| 0 <= i < |s| && Lower(s)[i] == c;
      assert s[i] == c;
    }
  }

  lemma LowerAllSpace(s: string)
    ensures AllSpace(Lower(s)) <==> AllSpace(s)
  {
  }

  lemma LowerNoEdgeSpace(s: string)
    ensures NoEdgeSpace(Lower(s)) <==> NoEdgeSpace(s)
  {
  }

  /** Trimming and lowercasing commute. */
  lemma TrimLower(s: string)
    ensures Trim(Lower(s)) == Lower(Trim(s))
  {
    var i, j := TrimBounds(s);
    var l := Lower(s);
    assert AllSpace(l[..i]) by {
      LowerSlices(s, i);
      LowerAllSpace(s[..i]);
    }
    assert AllSpace(l[j..]) by {
      LowerSlices(s, j);
      LowerAllSpace(s[j..]);
    }
    assert NoEdgeSpace(l[i..j]) && l[i..j] == Lower(s[i..j]) by {
      LowerSlice(s, i, j);
      LowerNoEdgeSpace(s[i..j]);
    }
    Split3(l, i, j);
    TrimUnique(l[..i], l[i..j], l[j..]);
  }

  lemma LowerSlice(s: string, i: nat, j: nat)
    requires i <= j <= |s|
    ensures Lower(s)[i..j] == Lower(s[i..j])
  {
  }

  lemma LowerSlices(s: string, i: nat)
    requires i <= |s|
    ensures Lower(s)[..i] == Lower(s[..i]) && Lower(s)[i..] == Lower(s[i..])
  {
  }

  lemma Split3<T>(s: seq<T>, i: nat, j: nat)
    requires i <= j <= |s|
    ensures s == s[..i] + s[i..j] + s[j..]
  {
  }

  // ---------------------------------------------------------------------
  // Searching and splitting
  // ---------------------------------------------------------------------

  /** `firstIndex(of:)`. */
  function IndexOf(s: string, c: char): (r: Option<nat>)
    ensures r.None? <==> c !in s
    ensures r.Some? ==> r.value < |s| && s[r.value] == c && c !in s[..r.value]
  {
    if |s| == 0 then None
    else if s[0] == c then Some(0)
    else match IndexOf(s[1..], c)
      case None => None
      case Some(i) => assert s[..i + 1] == [s[0]] + s[1..][..i]; Some(i + 1)
  }

  /** `lastIndex(of:)`. */
  function LastIndexOf(s: string, c: char): (r: Option<nat>)
    ensures r.None? <==> c !in s
    ensures r.Some? ==> r.value < |s| && s[r.value] == c && c !in s[r.value + 1..]
  {
    if |s| == 0 then None
    else if s[|s| - 1] == c then Some(|s| - 1)
    else
      var r := LastIndexOf(s[..|s| - 1], c);
      assert r.Some? ==> s[r.value + 1..] == s[..|s| - 1][r.value + 1..] + [s[|s| - 1]];
      assert s == s[..|s| - 1] + [s[|s| - 1]];
      r
  }

  /**
   * Cuts `s` at the first `d`: the text before it and, when there is one,
   * the text after it (`prefix(upTo: i)` and `suffix(from: index(after: i))`).
   */
  function CutFirst(s: string, d: char): (r: (string, Option<string>))
    ensures r.1.None? ==> r.0 == s && d !in s
    ensures r.1.Some? ==> s == r.0 + [d] + r.1.value && d !in r.0
  {
    match IndexOf(s, d)
    case None => (s, None)
    case Some(i) =>
      assert s == s[..i] + [d] + s[i + 1..];
      (s[..i], Some(s[i + 1..]))
  }

  /** Cuts `s` at the last `d`. */
  function CutLast(s: string, d: char): (r: (string, Option<string>))
    ensures r.1.None? ==> r.0 == s && d !in s
    ensures r.1.Some? ==> s == r.0 + [d] + r.1.value && d !in r.1.value
  {
    match LastIndexOf(s, d)
    case None => (s, None)
    case Some(i) =>
      assert s == s[..i] + [d] + s[i + 1..];
      (s[..i], Some(s[i + 1..]))
  }

  /** The cut at the first `d` is determined by the text before it being free of `d`. */
  lemma CutFirstAt(a: string, b: string, d: char)
    requires d !in a
    ensures CutFirst(a + [d] + b, d) == (a, Some(b))
  {
    var s := a + [d] + b;
    var r := CutFirst(s, d);
    assert s[|a|] == d;
    assert r.1.Some?;
    assert forall k :: 0 <= k < |a| ==> s[k] == a[k];
    assert forall k :: 0 <= k < |r.0| ==> s[k] == r.0[k];
    assert s[|r.0|] == d;
    assert |r.0| == |a|;
    assert r.0 == s[..|a|] == a;
    assert r.1.value == s[|a| + 1..] == b;
  }

  lemma CutFirstNone(a: string, d: char)
    requires d !in a
    ensures CutFirst(a, d) == (a, None)
  {
  }

  /** Text free of `d` in front of `t` passes through the cut: the first `d` is the first one of `t`. */
  lemma CutFirstAfter(a: string, t: string, d: char)
    requires d !in a
    ensures CutFirst(a + t, d) == (a + CutFirst(t, d).0, CutFirst(t, d).1)
  {
    var (t0, rest) := CutFirst(t, d);
    if rest.Some? {
      assert a + t == (a + t0) + [d] + rest.value;
      CutFirstAt(a + t0, rest.value, d);
    } else {
      CutFirstNone(a + t, d);
    }
  }

  /** The cut at the last `d` is determined by the text after it being free of `d`. */
  lemma CutLastAt(a: string, b: string, d: char)
    requires d !in b
    ensures CutLast(a + [d] + b, d) == (a, Some(b))
  {
    var s := a + [d] + b;
    var r := CutLast(s, d);
    assert s[|a|] == d;
    assert r.1.Some?;
    var n := |r.0|;
    assert forall k :: |a| < k < |s| ==> s[k] == b[k - |a| - 1];
    assert forall k :: n < k < |s| ==> s[k] == r.1.value[k - n - 1];
    assert s[n] == d;
    assert n == |a|;
    assert r.0 == s[..|a|] == a;
    assert r.1.value == s[|a| + 1..] == b;
  }

  lemma CutLastNone(a: string, d: char)
    requires d !in a
    ensures CutLast(a, d) == (a, None)
  {
  }

  /** Re-joins `segments` with `d` between consecutive ones. */
  function Join(segments: seq<string>, d: char): string
    requires |segments| >= 1
  {
    if |segments| == 1 then segments[0]
    else segments[0] + [d] + Join(segments[1..], d)
  }

  /** `components(separatedBy:)`: the pieces between the occurrences of `d`. */
  function Split(s: string, d: char): (r: seq<string>)
    ensures |r| >= 1
    ensures forall i :: 0 <= i < |r| ==> d !in r[i]
    ensures Join(r, d) == s
    decreases |s|
  {
    match CutFirst(s, d)
    case (before, None) => [before]
    case (before, Some(after)) =>
      var rest := Split(after, d);
      assert ([before] + rest)[1..] == rest;
      [before] + rest
  }

  /** Splitting undoes joining pieces that are free of the delimiter. */
  lemma {:induction false} SplitJoin(segments: seq<string>, d: char)
    requires |segments| >= 1
    requires forall i :: 0 <= i < |segments| ==> d !in segments[i]
    ensures Split(Join(segments, d), d) == segments
  {
    if |segments| == 1 {
      CutFirstNone(segments[0], d);
    } else {
      CutFirstAt(segments[0], Join(segments[1..], d), d);
      SplitJoin(segments[1..], d);
      assert [segments[0]] + segments[1..] == segments;
    }
  }

  lemma {:induction false} JoinSnoc(segments: seq<string>, last: string, d: char)
    requires |segments| >= 1
    ensures Join(segments + [last], d) == Join(segments, d) + [d] + last
  {
    if |segments| == 1 {
      assert (segments + [last])[1..] == [last];
    } else {
      assert (segments + [last])[1..] == segments[1..] + [last];
      JoinSnoc(segments[1..], last, d);
    }
  }

  // ---------------------------------------------------------------------
  // Ordering (`String <`) and sorting
  // ---------------------------------------------------------------------

  /** `a <= b` in code-point lexicographic order. */
  predicate Below(a: string, b: string) {
    |a| == 0 || (|b| > 0 && (a[0] < b[0] || (a[0] == b[0] && Below(a[1..], b[1..]))))
  }

  lemma {:induction false} BelowReflexive(a: string)
    ensures Below(a, a)
  {
    if |a| > 0 { BelowReflexive(a[1..]); }
  }

  lemma {:induction false} BelowAntisymmetric(a: string, b: string)
    requires Below(a, b) && Below(b, a)
    ensures a == b
  {
    if |a| > 0 && |b| > 0 {
      BelowAntisymmetric(a[1..], b[1..]);
      assert a == [a[0]] + a[1..] && b == [b[0]] + b[1..];
    }
  }

  lemma BelowAntisymmetricAll()
    ensures forall a, b :: Below(a, b) && Below(b, a) ==> a == b
  {
    forall a, b | Below(a, b) && Below(b, a) ensures a == b {
      BelowAntisymmetric(a, b);
    }
  }

  lemma {:induction false} BelowTransitive(a: string, b: string, c: string)
    requires Below(a, b) && Below(b, c)
    ensures Below(a, c)
  {
    if |a| > 0 && |b| > 0 && |c| > 0 && a[0] == b[0] == c[0] {
      BelowTransitive(a[1..], b[1..], c[1..]);
    }
  }

  lemma {:induction false} BelowTotal(a: string, b: string)
    ensures Below(a, b) || Below(b, a)
  {
    if |a| > 0 && |b| > 0 && a[0] == b[0] {
      BelowTotal(a[1..], b[1..]);
    }
  }

  predicate IsLeast(k: string, keys: set<string>) {
    k in keys && forall j :: j in keys ==> Below(k, j)
  }

  /** Every non-empty finite set of strings has a least element. */
  lemma {:induction false} LeastExists(keys: set<string>)
    requires keys != {}
    ensures exists k :: IsLeast(k, keys)
    decreases |keys|
  {
    var x :| x in keys;
    if keys == {x} {
      BelowReflexive(x);
      assert IsLeast(x, keys);
    } else {
      LeastExists(keys - {x});
      var m :| IsLeast(m, keys - {x});
      BelowTotal(x, m);
      BelowReflexive(x);
      BelowReflexive(m);
      if Below(x, m) {
        forall j | j in keys ensures Below(x, j) {
          if j != x { BelowTransitive(x, m, j); }
        }
        assert IsLeast(x, keys);
      } else {
        assert IsLeast(m, keys);
      }
    }
  }

  predicate StrictlyAscending(ks: seq<string>) {
    forall i, j :: 0 <= i < j < |ks| ==> Below(ks[i], ks[j]) && ks[i] != ks[j]
  }

  /**
   * The keys of a dictionary in ascending order, as `sorted { $0.0 < $1.0 }`
   * lists a dictionary whose keys are distinct.
   */
  function SortedKeys(keys: set<string>): (r: seq<string>)
    ensures |r| == |keys|
    ensures forall k :: k in r <==> k in keys
    ensures StrictlyAscending(r)
    decreases |keys|
  {
    if keys == {} then []
    else
      LeastExists(keys);
      BelowAntisymmetricAll();
      var k :| IsLeast(k, keys);
      var rest := SortedKeys(keys - {k});
      ConsAscending(k, rest, keys);
      [k] + rest
  }

  /** The least key before keys ascending from the others ascends too. */
  lemma ConsAscending(k: string, rest: seq<string>, keys: set<string>)
    requires IsLeast(k, keys) && StrictlyAscending(rest)
    requires forall x :: x in rest <==> x in keys - {k}
    ensures StrictlyAscending([k] + rest)
  {
    var r := [k] + rest;
    forall i, j | 0 <= i < j < |r| ensures Below(r[i], r[j]) && r[i] != r[j] {
      assert r[j] == rest[j - 1];
      if i > 0 {
        assert r[i] == rest[i - 1];
      } else {
        assert rest[j - 1] in keys - {k};
      }
    }
  }

  lemma TailOfAscending(a: seq<string>)
    requires StrictlyAscending(a) && |a| > 0
    ensures forall k :: k in a[1..] <==> (k in a && k != a[0])
  {
    forall k | k in a && k != a[0] ensures k in a[1..] {
      var p :| 0 <= p < |a| && a[p] == k;
      assert a[1..][p - 1] == k;
    }
  }

  /** A strictly ascending listing of a set is unique. */
  lemma {:induction false} AscendingUnique(a: seq<string>, b: seq<string>)
    requires StrictlyAscending(a) && StrictlyAscending(b)
    requires forall k :: k in a <==> k in b
    ensures a == b
    decreases |a|
  {
    assert |a| > 0 ==> a[0] in b;
    assert |b| > 0 ==> b[0] in a;
    if |a| > 0 && |b| > 0 {
      var i :| 0 <= i < |b| && b[i] == a[0];
      var j :| 0 <= j < |a| && a[j] == b[0];
      if i > 0 && j > 0 {
        assert Below(b[0], b[i]) && Below(a[0], a[j]);
        BelowAntisymmetric(a[0], b[0]);
      }
      assert a[0] == b[0];
      TailOfAscending(a);
      TailOfAscending(b);
      AscendingUnique(a[1..], b[1..]);
      assert a == [a[0]] + a[1..] && b == [b[0]] + b[1..];
    }
  }
}
