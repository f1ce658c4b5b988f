/** The clause registry (`init_function`, ReadWriteDiagnostics.cc lines
    110-135, and the routine name of lines 203-205): the first time a
    routine is called its write, read and sync declarations are parsed and
    recorded, and never again. */
module Registry {
  import opened Wrappers
  import opened Regions
  import opened Framework
  import opened Clauses
  import opened Globals

  /** The routine metadata the scheduler passes to the hooks: the thorn and
      routine names, the write and read declarations, and the groups the
      routine synchronises. */
  datatype Attribute = Attribute(
    thorn: string,
    name: string,
    writeClauses: seq<string>,
    readClauses: seq<string>,
    syncGroups: seq<int>)

  /** The key of a routine in every registry map, "thorn::name". */
  function RoutineName(a: Attribute): (r: string)
    ensures |r| == |a.thorn| + 2 + |a.name|
    ensures r[..|a.thorn|] == a.thorn && r[|a.thorn|..|a.thorn| + 2] == "::" && r[|a.thorn| + 2..] == a.name
  {
    a.thorn + "::" + a.name
  }

  /** A routine name always holds its "::" separator, so it is never the
      empty name of a routine not yet set. */
  lemma RoutineNameNonEmpty(a: Attribute)
    ensures RoutineName(a) != "" && ':' in RoutineName(a)
  {
    assert RoutineName(a)[|a.thorn|] == ':';
  }

  /** Thorn names have no ':', so the routine name determines both the thorn
      and the routine: two routines share registry entries only when they
      are the same routine. */
  lemma RoutineNameInjective(a: Attribute, b: Attribute)
    requires ':' !in a.thorn && ':' !in b.thorn
    requires RoutineName(a) == RoutineName(b)
    ensures a.thorn == b.thorn && a.name == b.name
  {
    // Both thorns end at the first ':' of the routine name.
    var r := RoutineName(a);
    FindIs(r, ':', |a.thorn|);
    FindIs(r, ':', |b.thorn|);
  }

  /** The variables of every sync group (lines 126-134). */
  function SyncMembers(host: Host, groups: seq<int>): (r: set<int>)
    ensures forall v :: v in r <==> exists i :: 0 <= i < |groups| && v in Members(host, groups[i])
  {
    if groups == [] then {}
    else
      var rest := SyncMembers(host, groups[1..]);
      assert forall i :: 1 <= i < |groups| ==> groups[i] == groups[1..][i - 1];
      assert forall v :: v in rest ==> exists i :: 0 <= i < |groups| && v in Members(host, groups[i]) by {
        forall v | v in rest ensures exists i :: 0 <= i < |groups| && v in Members(host, groups[i]) {
          var k :| 0 <= k < |groups| - 1 && v in Members(host, groups[1..][k]);
          assert v in Members(host, groups[k + 1]);
        }
      }
      Members(host, groups[0]) + rest
  }

  /** The registry entries the source creates with `operator[]` outside
      `init_function` are empty: a routine with sync entries, or with
      non-empty read entries, has been initialised. */
  ghost predicate Consistent(st: State) {
    && st.syncs.Keys <= st.wclauses.Keys
    && forall r | r in st.rclauses && r !in st.wclauses :: st.rclauses[r] == map[]
  }

  /** Every routine with observations has an entry in `wclauses`. The
      hooks keep this, so the cross-check's branch for a routine without an
      entry (lines 148-149) never runs on a state they built. */
  ghost predicate ObservedRegistered(st: State) {
    st.observed.Keys <= st.wclauses.Keys
  }

  /** The initial registry is consistent: it has no entries. */
  lemma InitiallyConsistent()
    ensures Consistent(Initial) && ObservedRegistered(Initial)
  {
  }

  /** `init_function` for the current routine `st.routine`. A routine
      already in `wclauses` is left alone; otherwise its write and read
      declarations are parsed into fresh entries and its sync groups
      expanded. A bad declaration aborts. */
  function InitFunction(host: Host, st: State, a: Attribute): (r: Result<State, ParseError>)
    ensures st.routine in st.wclauses ==> r == Success(st)
    ensures r.Success? ==> st.routine in r.value.wclauses
    ensures r.Success? ==>
              && r.value.wclauses - {st.routine} == st.wclauses - {st.routine}
              && r.value.rclauses - {st.routine} == st.rclauses - {st.routine}
              && r.value.syncs - {st.routine} == st.syncs - {st.routine}
    ensures r.Success? ==>
              r.value == st.(wclauses := r.value.wclauses, rclauses := r.value.rclauses, syncs := r.value.syncs)
    ensures Consistent(st) && r.Success? ==> Consistent(r.value)
  {
    var routine := st.routine;
    if routine in st.wclauses then Success(st)
    else
      var writesM :- ComputeClauses(host, a.writeClauses, map[]);
      var readsM :- ComputeClauses(host, a.readClauses, Lookup(st.rclauses, routine, map[]));
      var syncsS := Lookup(st.syncs, routine, {}) + SyncMembers(host, a.syncGroups);
      Success(st.(wclauses := st.wclauses[routine := writesM],
                  rclauses := st.rclauses[routine := readsM],
                  syncs := st.syncs[routine := syncsS]))
  }

  /** What a first call records: each map entry is the declarations parsed
      and applied in order, and the syncs are exactly the members of the
      sync groups. It fails exactly when a declaration is bad. */
  lemma InitRecords(host: Host, st: State, a: Attribute)
    requires Consistent(st) && st.routine !in st.wclauses
    ensures var r := InitFunction(host, st, a);
            && (r.Success? <==> ParseAll(a.writeClauses).Success? && ParseAll(a.readClauses).Success?)
            && (r.Success? ==>
                  && r.value.wclauses[st.routine] == ApplyAll(host, map[], ParseAll(a.writeClauses).value)
                  && r.value.rclauses[st.routine] == ApplyAll(host, map[], ParseAll(a.readClauses).value)
                  && r.value.syncs[st.routine] == SyncMembers(host, a.syncGroups))
  {
    ComputeClausesParsesAll(host, a.writeClauses, map[]);
    ComputeClausesParsesAll(host, a.readClauses, Lookup(st.rclauses, st.routine, map[]));
  }

  /** First parse wins: once a routine is initialised, initialising it again,
      with any declarations, changes nothing. */
  lemma InitFirstWins(host: Host, st: State, a: Attribute, b: Attribute)
    requires InitFunction(host, st, a).Success?
    ensures InitFunction(host, InitFunction(host, st, a).value, b) == InitFunction(host, st, a)
  {
  }
}
