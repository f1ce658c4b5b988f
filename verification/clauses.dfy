/** The clause parser (`compute_clauses`, ReadWriteDiagnostics.cc lines
    53-106): a declaration `Thorn::name(where)` or `Thorn::name` becomes a
    name and a region mask, and the name is resolved to a variable or to
    every variable of a group. */
module Clauses {
  import opened Wrappers
  import opened Regions
  import opened Framework

  /** Why a declaration cannot be parsed. Both abort the run. */
  datatype ParseError =
    | UnknownRegion(name: string, where: string)
      // the keyword is none of the four region keywords (lines 78-80)
    | Malformed(clause: string)
      // a clause with a '(' whose first ')' is missing or comes before
      // its first '(', or that has no ':' at all: a missing ')' or ':'
      // makes the pointer arithmetic of lines 65 and 67 undefined, and a
      // ')' before the '(' gives `assign` a negative length, which throws
      // an uncaught `length_error`

  /** A parsed declaration: the name to resolve and the region declared. */
  datatype Clause = Clause(name: string, region: Mask)

  /** The position of the first `ch` in `s` (`strchr`). */
  function Find(s: string, ch: char): (r: Option<nat>)
    ensures r.Some? ==> r.value < |s| && s[r.value] == ch && ch !in s[..r.value]
    ensures r.None? <==> ch !in s
  {
    if s == [] then None
    else if s[0] == ch then Some(0)
    else
      match Find(s[1..], ch)
      case None => None
      case Some(i) =>
        assert s[..i + 1] == [s[0]] + s[1..][..i];
        Some(i + 1)
  }

  /** The first occurrence is unique: `Find` returns exactly it. */
  lemma FindIs(s: string, ch: char, i: nat)
    requires i < |s| && s[i] == ch && ch !in s[..i]
    ensures Find(s, ch) == Some(i)
  {
    assert s[i] in s;
  }

  /** One declaration string (lines 57-84). With a '(' the name is the text
      before it and the keyword the text between it and the first ')'; the
      keyword is matched ignoring case. Without a '(' the region is
      `EVERYWHERE`, and the name stays the empty string because the source
      never assigns it on that path. */
  function ParseClause(clause: string): (r: Result<Clause, ParseError>)
    ensures '(' !in clause ==> r == Success(Clause("", EVERYWHERE))
    ensures r.Failure? ==> '(' in clause
    ensures r.Success? && '(' in clause ==>
              && ')' in clause && ':' in clause
              && '(' !in r.value.name
              && r.value.region != NONE
    ensures r.Failure? && r.error.UnknownRegion? ==> r.error.where !in Keywords
  {
    match Find(clause, '(')
    case None => Success(Clause("", EVERYWHERE))
    case Some(openp) =>
      match Find(clause, ')')
      case None => Failure(Malformed(clause))
      case Some(closep) =>
        if closep < openp || Find(clause, ':').None? then Failure(Malformed(clause))
        else
          var name, where := clause[..openp], clause[openp + 1..closep];
          match RegionKeyword(where)
          case None => Failure(UnknownRegion(name, ToLower(where)))
          case Some(m) => Success(Clause(name, m))
  }

  /** A well-formed declaration `name(where)` parses to `name` and the mask
      of its keyword, or fails on an unknown keyword. */
  lemma ParseKeyword(name: string, where: string)
    requires '(' !in name && ')' !in name && ':' in name
    requires ')' !in where
    ensures ParseClause(name + "(" + where + ")")
            == match RegionKeyword(where)
               case Some(m) => Success(Clause(name, m))
               case None => Failure(UnknownRegion(name, ToLower(where)))
  {
    var c := name + "(" + where + ")";
    var openp, closep := |name|, |name| + 1 + |where|;
    assert c[..openp] == name;
    FindIs(c, '(', openp);
    assert c[..closep] == name + "(" + where;
    FindIs(c, ')', closep);
    assert c[openp + 1..closep] == where;
    var k :| 0 <= k < |name| && name[k] == ':';
    assert c[k] == ':';
  }

  /** The keyword table of lines 70-84: `everywhere` is 0x11, `interior` 0x01,
      `exterior` and `boundary` both 0x10, whatever their case, and any other
      keyword is fatal. */
  lemma KeywordMasks(name: string, where: string)
    requires '(' !in name && ')' !in name && ':' in name
    requires ')' !in where
    ensures var r := ParseClause(name + "(" + where + ")");
            && (ToLower(where) == "everywhere" <==> r.Success? && r.value.region.Bits() == 0x11)
            && (ToLower(where) == "interior" <==> r.Success? && r.value.region.Bits() == 0x01)
            && (ToLower(where) in {"exterior", "boundary"} <==> r.Success? && r.value.region.Bits() == 0x10)
            && (ToLower(where) !in Keywords <==> r.Failure?)
  {
    ParseKeyword(name, where);
    KeywordTable(where);
    var r := RegionKeyword(where);
    if r.Some? {
      BitsInjective(r.value, EVERYWHERE);
      BitsInjective(r.value, INTERIOR);
      BitsInjective(r.value, EXTERIOR);
    }
  }

  /** Declarations whose keywords differ only in case parse alike. */
  lemma ParseIgnoresCase(name: string, a: string, b: string)
    requires '(' !in name && ')' !in name && ':' in name
    requires ')' !in a && ')' !in b
    requires SameIgnoringCase(a, b)
    ensures ParseClause(name + "(" + a + ")") == ParseClause(name + "(" + b + ")")
  {
    ParseKeyword(name, a);
    ParseKeyword(name, b);
    KeywordIgnoresCase(a, b);
    ToLowerIgnoresCase(a, b);
  }

  /** The declaration a clause is written as, with the mask's name as its
      keyword. */
  function Render(c: Clause): string {
    c.name + "(" + WhName(c.region) + ")"
  }

  /** Rendering a clause and parsing it back gives the clause. */
  lemma ParseRender(c: Clause)
    requires '(' !in c.name && ')' !in c.name && ':' in c.name
    requires c.region != NONE
    ensures ParseClause(Render(c)) == Success(c)
  {
    var w := WhName(c.region);
    assert ')' !in w by {
      forall i | 0 <= i < |w| ensures w[i] != ')' {
      }
    }
    ParseKeyword(c.name, w);
    NameParses(c.region);
  }

  /** The variables a name stands for (lines 86-104): the variable it names,
      else every variable of the group it names, else none. */
  function Targets(host: Host, name: string): set<int> {
    var vi := host.varIndex(name);
    if vi >= 0 then {vi}
    else
      var gi := host.groupIndex(name);
      if gi >= 0 then Members(host, gi) else {}
  }

  /** The loop of lines 98-100: every index of `vs` is set to `region`. */
  function SetAll(m: map<int, Mask>, vs: set<int>, region: Mask): (r: map<int, Mask>)
    ensures r.Keys == m.Keys + vs
    ensures forall v | v in r :: r[v] == if v in vs then region else m[v]
  {
    map v | v in m.Keys + vs :: if v in vs then region else m[v]
  }

  /** Records one parsed declaration in the routine's map (lines 86-104). */
  function ApplyClause(host: Host, m: map<int, Mask>, c: Clause): (r: map<int, Mask>)
    ensures r.Keys == m.Keys + Targets(host, c.name)
    ensures forall v | v in r :: r[v] == if v in Targets(host, c.name) then c.region else m[v]
  {
    var vi := host.varIndex(c.name);
    if vi >= 0 then m[vi := c.region]
    else
      var gi := host.groupIndex(c.name);
      if gi >= 0 then SetAll(m, Members(host, gi), c.region)
      else m
  }

  /** Name resolution, case by case: a variable name sets exactly that
      entry; otherwise a group name sets every member to the same mask;
      otherwise nothing changes and nothing aborts. */
  lemma NameResolution(host: Host, m: map<int, Mask>, c: Clause)
    ensures var vi, gi := host.varIndex(c.name), host.groupIndex(c.name);
            && (vi >= 0 ==> ApplyClause(host, m, c) == m[vi := c.region])
            && (vi < 0 && gi >= 0 ==>
                  forall v :: host.firstVar(gi) <= v < host.firstVar(gi) + host.groupSize(gi) ==>
                    v in ApplyClause(host, m, c) && ApplyClause(host, m, c)[v] == c.region)
            && (vi < 0 && gi >= 0 ==>
                  forall v | v in m && !(host.firstVar(gi) <= v < host.firstVar(gi) + host.groupSize(gi)) ::
                    v in ApplyClause(host, m, c) && ApplyClause(host, m, c)[v] == m[v])
            && (vi < 0 && gi < 0 ==> ApplyClause(host, m, c) == m)
  {
  }

  /** The declarations parsed in order, stopping at the first error. */
  function ParseAll(clauses: seq<string>): (r: Result<seq<Clause>, ParseError>)
    ensures r.Success? ==> |r.value| == |clauses|
    ensures r.Success? ==> forall i :: 0 <= i < |clauses| ==> ParseClause(clauses[i]) == Success(r.value[i])
    ensures r.Failure? <==> exists i :: 0 <= i < |clauses| && ParseClause(clauses[i]).Failure?
  {
    if clauses == [] then Success([])
    else
      var c :- ParseClause(clauses[0]);
      var cs :- ParseAll(clauses[1..]);
      assert forall i :: 1 <= i < |clauses| ==> clauses[i] == clauses[1..][i - 1];
      Success([c] + cs)
  }

  /** Parsed declarations recorded in order. */
  function ApplyAll(host: Host, m: map<int, Mask>, cs: seq<Clause>): map<int, Mask>
    decreases |cs|
  {
    if cs == [] then m else ApplyAll(host, ApplyClause(host, m, cs[0]), cs[1..])
  }

  /** `compute_clauses`: each declaration is parsed and recorded before the
      next is read; an error aborts. */
  function ComputeClauses(host: Host, clauses: seq<string>, m: map<int, Mask>): (r: Result<map<int, Mask>, ParseError>)
    ensures r.Failure? <==> exists i :: 0 <= i < |clauses| && ParseClause(clauses[i]).Failure?
    ensures r.Success? ==> m.Keys <= r.value.Keys
  {
    if clauses == [] then Success(m)
    else
      var c :- ParseClause(clauses[0]);
      assert forall i :: 1 <= i < |clauses| ==> clauses[i] == clauses[1..][i - 1];
      ComputeClauses(host, clauses[1..], ApplyClause(host, m, c))
  }

  /** Parsing and recording interleaved gives the same map as parsing all
      declarations first and recording them afterwards; the error, if any,
      is that of the first bad declaration. */
  lemma {:induction false} ComputeClausesParsesAll(host: Host, clauses: seq<string>, m: map<int, Mask>)
    ensures ComputeClauses(host, clauses, m)
            == match ParseAll(clauses)
               case Success(cs) => Success(ApplyAll(host, m, cs))
               case Failure(e) => Failure(e)
    decreases |clauses|
  {
    if clauses != [] {
      var c := ParseClause(clauses[0]);
      if c.Success? {
        ComputeClausesParsesAll(host, clauses[1..], ApplyClause(host, m, c.value));
      }
    }
  }

  /** Reference definition: the region of the last of `cs` that stands for
      variable `v`, if any. */
  function LastRegion(host: Host, cs: seq<Clause>, v: int): Option<Mask> {
    if cs == [] then None
    else
      var later := LastRegion(host, cs[1..], v);
      if later.Some? then later
      else if v in Targets(host, cs[0].name) then Some(cs[0].region)
      else None
  }

  /** A later declaration of a variable overwrites an earlier one; a
      variable no declaration stands for keeps its entry, or its absence. */
  lemma {:induction false} LaterClauseWins(host: Host, m: map<int, Mask>, cs: seq<Clause>, v: int)
    ensures var r := ApplyAll(host, m, cs);
            match LastRegion(host, cs, v)
            case Some(x) => v in r && r[v] == x
            case None => (v in r <==> v in m) && (v in m ==> r[v] == m[v])
    decreases |cs|
  {
    if cs != [] {
      LaterClauseWins(host, ApplyClause(host, m, cs[0]), cs[1..], v);
    }
  }
}
