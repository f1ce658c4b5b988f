/** The checksum-based write inference around one scheduled routine
    (`pre_call` and `post_call`, ReadWriteDiagnostics.cc lines 198-281): the
    examined grid functions are checksummed before the call, checksummed
    again after it, and each change is recorded as an observed write of the
    region whose checksum changed. */
module Inference {
  import opened Wrappers
  import opened Regions
  import opened Framework
  import opened Checksum
  import opened Clauses
  import opened Globals
  import opened Registry
  import opened CrossCheck

  /** The variables both hooks examine (lines 209-222 and 244-257). Both of
      the source's collection loops read the routine's READ declarations (the
      second names its map `writes_m` but takes it from `rclauses`), so write
      declarations never widen the set; with no read declaration every
      variable is examined. */
  function Examined(host: Host, readDecl: RegionMap): set<int> {
    if readDecl.Keys == {} then AllVars(host) else readDecl.Keys
  }

  /** The examined variables that are checksummed: those with data at time
      level 0 that are grid functions with 8-byte elements (lines 225-234). */
  function Checked(host: Host, g: Storage, vs: set<int>): set<int> {
    set v | v in vs && (0, v) in g && host.tracked(v)
  }

  /** The checksum of variable `v`'s current data. */
  function Current(host: Host, g: Storage, v: int): Cksum
    requires Fits(host, g) && (0, v) in g && host.tracked(v)
  {
    ComputeCksum(g[(0, v)], host.shape)
  }

  /** The read declarations of the current routine, read through
      `operator[]`: the state gains an empty entry if it had none. */
  function TouchReads(st: State): (r: (State, RegionMap))
    ensures r.0 == st.(rclauses := r.0.rclauses)
    ensures r.0.rclauses.Keys == st.rclauses.Keys + {st.routine}
    ensures forall k | k in st.rclauses :: r.0.rclauses[k] == st.rclauses[k]
    ensures r.1 == r.0.rclauses[st.routine] == Lookup(st.rclauses, st.routine, map[])
  {
    var rclauses := DefaultEntry(st.rclauses, st.routine, map[]);
    (st.(rclauses := rclauses), rclauses[st.routine])
  }

  /** `pre_call`: the routine name is set, its declarations are registered
      on its first call, and the checksum of every checked variable is
      stored, replacing any earlier one. A bad declaration aborts. */
  function PreCall(host: Host, st: State, a: Attribute, g: Storage): (r: Result<State, ParseError>)
    requires Fits(host, g)
    ensures r.Failure? <==> InitFunction(host, st.(routine := RoutineName(a)), a).Failure?
    ensures r.Success? ==> r.value.routine == RoutineName(a)
    ensures r.Success? ==> r.value.observed == st.observed && r.value.messages == st.messages
    ensures r.Success? ==>
              var reg := InitFunction(host, st.(routine := RoutineName(a)), a).value;
              && r.value.wclauses == reg.wclauses
              && r.value.rclauses == DefaultEntry(reg.rclauses, RoutineName(a), map[])
              && r.value.syncs == reg.syncs
    ensures r.Success? ==>
              var vs := Checked(host, g, Examined(host, Lookup(r.value.rclauses, r.value.routine, map[])));
              && r.value.cksums.Keys == st.cksums.Keys + vs
              && (forall v | v in vs :: r.value.cksums[v] == Current(host, g, v))
              && (forall v | v in st.cksums && v !in vs :: r.value.cksums[v] == st.cksums[v])
  {
    var named := st.(routine := RoutineName(a));
    var registered :- InitFunction(host, named, a);
    var (touched, readDecl) := TouchReads(registered);
    var vs := Checked(host, g, Examined(host, readDecl));
    var cksums := map v | v in touched.cksums.Keys + vs ::
                    if v in vs then Current(host, g, v) else touched.cksums[v];
    Success(touched.(cksums := cksums))
  }

  /** A successful pre-call hook leaves the routine registered, with a write
      and a read entry: the accesses it then makes never create entries. */
  lemma PreCallRegisters(host: Host, st: State, a: Attribute, g: Storage)
    requires Fits(host, g) && PreCall(host, st, a, g).Success?
    ensures var p := PreCall(host, st, a, g).value;
            && p.routine != ""
            && p.routine in p.wclauses && p.routine in p.rclauses
  {
    RoutineNameNonEmpty(a);
  }

  /** The pre-call hook keeps the registry consistent. */
  lemma PreCallConsistent(host: Host, st: State, a: Attribute, g: Storage)
    requires Fits(host, g) && Consistent(st) && PreCall(host, st, a, g).Success?
    ensures Consistent(PreCall(host, st, a, g).value)
  {
  }

  /** The pre-call hook keeps every observed routine registered. */
  lemma PreCallKeepsObservedRegistered(host: Host, st: State, a: Attribute, g: Storage)
    requires Fits(host, g) && ObservedRegistered(st) && PreCall(host, st, a, g).Success?
    ensures ObservedRegistered(PreCall(host, st, a, g).value)
  {
  }

  /** The region a call wrote, from the checksums before and after it (lines
      269-274): exterior when `out` changed, interior when `in` changed. */
  function Delta(before: Cksum, after: Cksum): (m: Mask)
    ensures m.Bits() == (if before.outer != after.outer then 0x10 else 0) + (if before.inner != after.inner then 0x01 else 0)
  {
    Mask(before.inner != after.inner, before.outer != after.outer)
  }

  /** A call is seen to write something exactly when the checksum pair
      changed. */
  lemma DeltaDetects(before: Cksum, after: Cksum)
    ensures Delta(before, after) == NONE <==> before == after
    ensures Delta(before, before) == NONE
  {
  }

  /** The regions each checked variable was seen to change in, for the
      variables whose checksum changed. A variable without a stored checksum
      is compared with the zero pair (`cksums[vi]` of line 268). */
  function Changes(host: Host, g: Storage, vs: set<int>, cksums: map<int, Cksum>): (r: RegionMap)
    requires Fits(host, g)
    ensures forall v :: v in r <==> v in Checked(host, g, vs) && Lookup(cksums, v, Zero) != Current(host, g, v)
    ensures forall v | v in r :: r[v] != NONE
  {
    var checked := Checked(host, g, vs);
    map v | v in checked && Lookup(cksums, v, Zero) != Current(host, g, v) ::
      Delta(Lookup(cksums, v, Zero), Current(host, g, v))
  }

  /** `observed_writes[routine][vi] |= where` for every change (line 275):
      each variable's merged mask is the least mask with every bit it was
      seen with and every bit that changed, and merging no change keeps
      the observations. */
  function Merge(seen: RegionMap, changes: RegionMap): (r: RegionMap)
    ensures r.Keys == seen.Keys + changes.Keys
    ensures forall v | v in r :: Covers(r[v], Lookup(seen, v, NONE)) && Covers(r[v], Lookup(changes, v, NONE))
    ensures forall v, m: Mask | v in r && Covers(m, Lookup(seen, v, NONE)) && Covers(m, Lookup(changes, v, NONE)) ::
              Covers(m, r[v])
    ensures forall v | v in seen && v !in changes :: r[v] == seen[v]
    ensures changes == map[] ==> r == seen
  {
    map v | v in seen.Keys + changes.Keys :: Lookup(seen, v, NONE).Or(Lookup(changes, v, NONE))
  }

  /** The changes a post-call hook records for the current routine. */
  function Recorded(host: Host, st: State, g: Storage): RegionMap
    requires Fits(host, g)
  {
    Changes(host, g, Examined(host, Lookup(st.rclauses, st.routine, map[])), st.cksums)
  }

  /** The recording half of `post_call` (lines 244-278): every checked
      variable whose checksum changed has the changed region added to what
      the current routine was seen to write. The routine's entry of
      `observed_writes` is created only by a change. */
  function Observe(host: Host, st: State, g: Storage): (r: State)
    requires Fits(host, g)
    ensures r.routine == st.routine && r.wclauses == st.wclauses && r.syncs == st.syncs
    ensures r.messages == st.messages
    ensures r.rclauses == DefaultEntry(st.rclauses, st.routine, map[])
    ensures r.cksums == DefaultEntries(st.cksums, Checked(host, g, Examined(host, Lookup(st.rclauses, st.routine, map[]))), Zero)
    ensures Recorded(host, st, g) == map[] ==> r.observed == st.observed
    ensures Recorded(host, st, g) != map[] ==>
              r.observed == st.observed[st.routine := Merge(Lookup(st.observed, st.routine, map[]), Recorded(host, st, g))]
  {
    var (touched, readDecl) := TouchReads(st);
    var vs := Examined(host, readDecl);
    var changes := Changes(host, g, vs, touched.cksums);
    var cksums := DefaultEntries(touched.cksums, Checked(host, g, vs), Zero);
    var observed :=
      if changes == map[] then touched.observed
      else touched.observed[st.routine := Merge(Lookup(touched.observed, st.routine, map[]), changes)];
    touched.(cksums := cksums, observed := observed)
  }

  /** `post_call`: the changes are recorded and then the cross-check runs
      (line 279). */
  function PostCall(host: Host, st: State, g: Storage): (r: State)
    requires Fits(host, g)
    ensures r.routine == st.routine && r.wclauses == st.wclauses && r.syncs == st.syncs
    ensures r.rclauses == DefaultEntry(st.rclauses, st.routine, map[])
    ensures r.cksums == DefaultEntries(st.cksums, Checked(host, g, Examined(host, Lookup(st.rclauses, st.routine, map[]))), Zero)
    ensures r.observed - {st.routine} == st.observed - {st.routine}
    ensures st.messages <= r.messages
  {
    Diagnose(Observe(host, st, g))
  }

  /** What the post-call hook records: for the current routine, the old
      observations merged with the changes, and nothing new when nothing
      changed. */
  lemma PostCallRecords(host: Host, st: State, g: Storage)
    requires Fits(host, g)
    ensures var r, changes := PostCall(host, st, g), Recorded(host, st, g);
            && (changes == map[] ==> r.observed == st.observed)
            && (changes != map[] ==>
                  && st.routine in r.observed
                  && r.observed[st.routine] == Merge(Lookup(st.observed, st.routine, map[]), changes))
  {
    PostCallObserves(host, st, g);
  }

  /** The cross-check after the recording leaves the observations alone. */
  lemma PostCallObserves(host: Host, st: State, g: Storage)
    requires Fits(host, g)
    ensures PostCall(host, st, g).observed == Observe(host, st, g).observed
  {
    assert PostCall(host, st, g) == Diagnose(Observe(host, st, g));
  }

  /** The post-call hook gives observations to the current routine only. */
  lemma PostCallObservesCurrent(host: Host, st: State, g: Storage)
    requires Fits(host, g)
    ensures PostCall(host, st, g).observed.Keys <= st.observed.Keys + {st.routine}
  {
    PostCallObserves(host, st, g);
  }

  /** The post-call hook of a registered routine, which is how the pre-call
      hook leaves it (`PreCallRegisters`), keeps every observed routine
      registered. */
  lemma PostCallKeepsObservedRegistered(host: Host, st: State, g: Storage)
    requires Fits(host, g) && ObservedRegistered(st) && st.routine in st.wclauses
    ensures ObservedRegistered(PostCall(host, st, g))
  {
    PostCallObservesCurrent(host, st, g);
  }

  /** The post-call hook keeps the registry consistent. */
  lemma PostCallConsistent(host: Host, st: State, g: Storage)
    requires Fits(host, g) && Consistent(st)
    ensures Consistent(PostCall(host, st, g))
  {
  }

  /** Observations only grow: no variable is forgotten and no region bit is
      cleared, and no message is withdrawn. */
  lemma PostCallMonotone(host: Host, st: State, g: Storage)
    requires Fits(host, g)
    ensures var r := PostCall(host, st, g);
            && st.messages <= r.messages
            && st.observed.Keys <= r.observed.Keys
            && forall k, v | k in st.observed && v in st.observed[k] ::
                 v in r.observed[k] && Covers(r.observed[k][v], st.observed[k][v])
  {
    PostCallRecords(host, st, g);
    var r, changes := PostCall(host, st, g), Recorded(host, st, g);
    if changes != map[] {
      var seen := Lookup(st.observed, st.routine, map[]);
      forall v | v in seen ensures v in r.observed[st.routine] && Covers(r.observed[st.routine][v], seen[v]) {
        assert r.observed[st.routine][v] == seen[v].Or(Lookup(changes, v, NONE));
      }
    }
  }

  /** A checked variable whose checksum changed is recorded as written in at
      least the region whose checksum changed. */
  lemma ChangeIsRecorded(host: Host, st: State, g: Storage, v: int)
    requires Fits(host, g)
    requires v in Checked(host, g, Examined(host, Lookup(st.rclauses, st.routine, map[])))
    requires Lookup(st.cksums, v, Zero) != Current(host, g, v)
    ensures var r := PostCall(host, st, g);
            && st.routine in r.observed && v in r.observed[st.routine]
            && Covers(r.observed[st.routine][v], Delta(Lookup(st.cksums, v, Zero), Current(host, g, v)))
  {
    PostCallRecords(host, st, g);
  }

  /** The first change of a variable seen in a routine is recorded as
      exactly the region that changed. */
  lemma FirstObservation(host: Host, st: State, g: Storage, v: int)
    requires Fits(host, g)
    requires v in Recorded(host, st, g) && v !in Lookup(st.observed, st.routine, map[])
    ensures var r := PostCall(host, st, g);
            && st.routine in r.observed && v in r.observed[st.routine]
            && r.observed[st.routine][v] == Delta(Lookup(st.cksums, v, Zero), Current(host, g, v))
  {
    PostCallRecords(host, st, g);
  }

  /** Only changes are recorded: a variable gains an observation, or a region
      bit, for the current routine only when it was checked and its checksum
      changed in that region. */
  lemma OnlyChangesRecorded(host: Host, st: State, g: Storage, v: int)
    requires Fits(host, g)
    requires var r := PostCall(host, st, g);
             st.routine in r.observed && v in r.observed[st.routine]
    ensures var r, prior := PostCall(host, st, g), Lookup(Lookup(st.observed, st.routine, map[]), v, NONE);
            r.observed[st.routine][v] != prior ==>
              && v in Checked(host, g, Examined(host, Lookup(st.rclauses, st.routine, map[])))
              && r.observed[st.routine][v] == prior.Or(Delta(Lookup(st.cksums, v, Zero), Current(host, g, v)))
  {
    PostCallRecords(host, st, g);
  }

  /** A routine with no read declaration has every variable examined. */
  lemma UnannotatedExaminesAll(host: Host, st: State, v: int)
    requires Lookup(st.rclauses, st.routine, map[]) == map[]
    requires 0 <= v < host.numVars
    ensures v in Examined(host, Lookup(st.rclauses, st.routine, map[]))
  {
  }

  /** Because both collection loops read the read declarations, a routine
      that declares some reads has a variable it only writes never examined:
      writing it is never observed, whatever the data. */
  lemma WriteOnlyIsNeverObserved(host: Host, st: State, g: Storage, v: int)
    requires Fits(host, g)
    requires var readDecl := Lookup(st.rclauses, st.routine, map[]);
             readDecl != map[] && v !in readDecl
    ensures var r := PostCall(host, st, g);
            (st.routine in r.observed && v in r.observed[st.routine]) <==>
              (st.routine in st.observed && v in st.observed[st.routine])
    ensures var r := PostCall(host, st, g);
            st.routine in st.observed && v in st.observed[st.routine] ==>
              r.observed[st.routine][v] == st.observed[st.routine][v]
  {
    PostCallObserves(host, st, g);
    var readDecl := Lookup(st.rclauses, st.routine, map[]);
    assert v !in Examined(host, readDecl);
    assert v !in Recorded(host, st, g);
  }

  /** A routine that changes no data is never seen to write: the post-call
      hook, run on the storage the pre-call hook saw, records nothing. */
  lemma NoWriteNoObservation(host: Host, st: State, a: Attribute, g: Storage)
    requires Fits(host, g) && PreCall(host, st, a, g).Success?
    ensures var p := PreCall(host, st, a, g).value;
            PostCall(host, p, g).observed == p.observed == st.observed
  {
    var p := PreCall(host, st, a, g).value;
    var vs := Checked(host, g, Examined(host, Lookup(p.rclauses, p.routine, map[])));
    forall v | v in vs
      ensures Lookup(p.cksums, v, Zero) == Current(host, g, v)
    {
    }
    PostCallRecords(host, p, g);
  }
}
