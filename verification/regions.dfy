/** Region masks, their names, and the case-insensitive region keywords of a
    clause (ReadWriteDiagnostics.cc lines 11-13, 32-47 and 70-81). */
module Regions {
  import opened Wrappers

  /** A region mask. The source stores masks in an `int` whose only bits
      are 0x01 (interior) and 0x10 (exterior); every mask it builds is an OR
      of those two bits, so a mask is exactly the pair of them. */
  datatype Mask = Mask(interior: bool, exterior: bool) {
    /** The integer the source stores for this mask. */
    function Bits(): (v: int)
      ensures v in {0x00, 0x01, 0x10, 0x11}
      ensures (v == 0x00 || v == 0x10) <==> !interior
      ensures (v == 0x00 || v == 0x01) <==> !exterior
    {
      (if interior then 0x01 else 0) + (if exterior then 0x10 else 0)
    }

    /** The bitwise OR of two masks (`|=` in the source). */
    function Or(other: Mask): (r: Mask)
      ensures r.Bits() == 0 <==> Bits() == 0 && other.Bits() == 0
      ensures Covers(r, this) && Covers(r, other)
      ensures forall m: Mask :: Covers(m, this) && Covers(m, other) ==> Covers(m, r)
    {
      Mask(interior || other.interior, exterior || other.exterior)
    }
  }

  const NONE: Mask := Mask(false, false)
  const INTERIOR: Mask := Mask(true, false)
  const EXTERIOR: Mask := Mask(false, true)
  const EVERYWHERE: Mask := Mask(true, true)

  /** Distinct masks are stored as distinct integers, with the values of the
      source's three named constants. */
  lemma BitsInjective(a: Mask, b: Mask)
    ensures a.Bits() == b.Bits() <==> a == b
    ensures INTERIOR.Bits() == 0x01 && EXTERIOR.Bits() == 0x10 && EVERYWHERE.Bits() == 0x11
  {
  }

  /** `big` already has every bit of `small`. */
  predicate Covers(big: Mask, small: Mask) {
    (small.interior ==> big.interior) && (small.exterior ==> big.exterior)
  }

  /** The printable name of a mask, "?" for anything that is not one of the
      three named masks. */
  function WhName(m: Mask): (name: string)
    ensures name == "?" <==> m == NONE
  {
    if m == EVERYWHERE then "everywhere"
    else if m == INTERIOR then "interior"
    else if m == EXTERIOR then "exterior"
    else "?"
  }

  predicate IsUpper(c: char) {
    'A' <= c <= 'Z'
  }

  function LowerChar(c: char): char {
    if IsUpper(c) then (c as int + 'a' as int - 'A' as int) as char else c
  }

  /** The in-place ASCII lower-casing of a string. */
  function ToLower(s: string): (r: string)
    ensures |r| == |s|
  {
    if s == [] then [] else [LowerChar(s[0])] + ToLower(s[1..])
  }

  /** Lower-casing works character by character: upper-case letters move
      up by 32 code points, every other character is kept, and no
      upper-case letter remains. */
  lemma {:induction false} ToLowerChars(s: string)
    ensures forall i :: 0 <= i < |s| ==> ToLower(s)[i] == LowerChar(s[i])
    ensures forall i :: 0 <= i < |s| ==> !IsUpper(ToLower(s)[i])
    ensures forall i :: 0 <= i < |s| && !IsUpper(s[i]) ==> ToLower(s)[i] == s[i]
    ensures forall i :: 0 <= i < |s| && IsUpper(s[i]) ==> ToLower(s)[i] as int == s[i] as int + 32
  {
    if s != [] {
      ToLowerChars(s[1..]);
      assert forall i :: 1 <= i < |s| ==> ToLower(s)[i] == ToLower(s[1..])[i - 1];
    }
  }

  /** `a` and `b` spell the same word up to the case of ASCII letters. */
  predicate SameIgnoringCase(a: string, b: string) {
    |a| == |b| && forall i :: 0 <= i < |a| ==> LowerChar(a[i]) == LowerChar(b[i])
  }

  lemma {:induction false} ToLowerIdempotent(s: string)
    ensures ToLower(ToLower(s)) == ToLower(s)
  {
    var t := ToLower(s);
    ToLowerChars(s);
    ToLowerChars(t);
    assert ToLower(t) == t by {
      var u := ToLower(t);
      forall i | 0 <= i < |t| ensures u[i] == t[i] {
      }
    }
  }

  /** `s` has no upper-case ASCII letter. */
  predicate NoUpper(s: string) {
    forall c | c in s :: !IsUpper(c)
  }

  /** A string without upper-case letters is its own lower-casing. */
  lemma {:induction false} LowerFixed(s: string)
    requires NoUpper(s)
    ensures ToLower(s) == s
  {
    if s != [] {
      assert s[0] in s;
      assert forall c | c in s[1..] :: c in s;
      LowerFixed(s[1..]);
    }
  }

  lemma ToLowerIgnoresCase(a: string, b: string)
    requires SameIgnoringCase(a, b)
    ensures ToLower(a) == ToLower(b)
  {
    var la, lb := ToLower(a), ToLower(b);
    ToLowerChars(a);
    ToLowerChars(b);
    forall i | 0 <= i < |a| ensures la[i] == lb[i] {
      assert LowerChar(a[i]) == LowerChar(b[i]);
    }
  }

  const Keywords: set<string> := {"everywhere", "interior", "exterior", "boundary"}

  /** The mask a where-keyword denotes, `None` for a keyword the parser
      rejects. Matching is on the lower-cased keyword. */
  function RegionKeyword(where: string): (r: Option<Mask>)
    ensures r.Some? <==> ToLower(where) in Keywords
    ensures r.Some? ==> r.value != NONE
  {
    var w := ToLower(where);
    if w == "everywhere" then Some(EVERYWHERE)
    else if w == "interior" then Some(INTERIOR)
    else if w == "exterior" then Some(EXTERIOR)
    else if w == "boundary" then Some(EXTERIOR)
    else None
  }

  /** The keyword table: both directions for each of the three masks, so a
      keyword maps to exactly one mask and "boundary" is an alias of
      "exterior". */
  lemma KeywordTable(where: string)
    ensures RegionKeyword(where) == Some(EVERYWHERE) <==> ToLower(where) == "everywhere"
    ensures RegionKeyword(where) == Some(INTERIOR) <==> ToLower(where) == "interior"
    ensures RegionKeyword(where) == Some(EXTERIOR)
            <==> ToLower(where) == "exterior" || ToLower(where) == "boundary"
  {
  }

  /** Keyword matching ignores the case of ASCII letters. */
  lemma KeywordIgnoresCase(a: string, b: string)
    requires SameIgnoringCase(a, b)
    ensures RegionKeyword(a) == RegionKeyword(b)
  {
    ToLowerIgnoresCase(a, b);
  }

  /** Mask names are written in lower case. */
  lemma NameIsLower(m: Mask)
    ensures ToLower(WhName(m)) == WhName(m)
  {
    var name := WhName(m);
    assert NoUpper(name) by {
      forall c | c in name ensures !IsUpper(c) {
      }
    }
    LowerFixed(name);
  }

  /** The name of each named mask is the keyword of that mask. */
  lemma NameParses(m: Mask)
    requires m != NONE
    ensures RegionKeyword(WhName(m)) == Some(m)
  {
    NameIsLower(m);
  }

  /** Naming a parsed mask and parsing the name back gives the same mask:
      the printed name of a declared region is itself an accepted keyword. */
  lemma KeywordNameRoundTrip(where: string, m: Mask)
    requires RegionKeyword(where) == Some(m)
    ensures WhName(m) != "?"
    ensures RegionKeyword(WhName(m)) == Some(m)
  {
    KeywordTable(where);
    NameParses(m);
  }
}
