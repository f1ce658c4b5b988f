/** The access gate (`RDWR_VarDataPtrI`, ReadWriteDiagnostics.cc lines
    283-307): the data pointer a routine asks for is handed out only for a
    variable the routine declared, or for one the checksums cannot watch. */
module AccessGate {
  import opened Wrappers
  import opened Checksum
  import opened Framework
  import opened Globals
  import opened Registry

  /** The state after an access and the pointer handed out, `None` for
      null. */
  datatype Access = Access(state: State, data: Option<Buffer>)

  /** Whether routine `routine` may see variable `vi` (lines 284-301): it is
      declared read or written, or it is not a watched grid function (one
      whose elements have the size of a `long`). */
  predicate Allowed(host: Host, readDecl: RegionMap, writeDecl: RegionMap, vi: int) {
    vi in readDecl || vi in writeDecl || !host.tracked(vi)
  }

  /** `RDWR_VarDataPtrI` for the current routine. The read declarations are
      looked up through `operator[]`, and so are the write declarations when
      `vi` is not a declared read: each lookup gives the routine an empty
      entry if it had none. */
  function VarDataPtr(host: Host, st: State, g: Storage, tl: int, vi: int): (r: Access)
    ensures r.state == st.(rclauses := r.state.rclauses, wclauses := r.state.wclauses)
    ensures r.state.rclauses == DefaultEntry(st.rclauses, st.routine, map[])
    ensures r.state.wclauses == st.wclauses || r.state.wclauses == DefaultEntry(st.wclauses, st.routine, map[])
  {
    var rclauses := DefaultEntry(st.rclauses, st.routine, map[]);
    var declaredReads := rclauses[st.routine];
    var wclauses := if vi in declaredReads then st.wclauses else DefaultEntry(st.wclauses, st.routine, map[]);
    var declaredWrites := Lookup(wclauses, st.routine, map[]);
    var found := Allowed(host, declaredReads, declaredWrites, vi);
    Access(st.(rclauses := rclauses, wclauses := wclauses), if found then DataPtr(g, tl, vi) else None)
  }

  /** The gate hands out the host's pointer exactly for a declared or
      unwatched variable, and null otherwise. */
  lemma GateOpens(host: Host, st: State, g: Storage, tl: int, vi: int)
    ensures var r := VarDataPtr(host, st, g, tl, vi);
            var declaredReads, declaredWrites := Lookup(st.rclauses, st.routine, map[]), Lookup(st.wclauses, st.routine, map[]);
            && (Allowed(host, declaredReads, declaredWrites, vi) ==> r.data == DataPtr(g, tl, vi))
            && (!Allowed(host, declaredReads, declaredWrites, vi) ==> r.data == None)
  {
  }

  /** Asking again gives the same pointer and changes nothing more. */
  lemma GateIdempotent(host: Host, st: State, g: Storage, tl: int, vi: int)
    ensures var r := VarDataPtr(host, st, g, tl, vi);
            VarDataPtr(host, r.state, g, tl, vi) == r
  {
  }

  /** An access of a registered routine changes no declaration. */
  lemma RegisteredAccessKeepsClauses(host: Host, st: State, g: Storage, tl: int, vi: int)
    requires st.routine in st.wclauses && st.routine in st.rclauses
    ensures VarDataPtr(host, st, g, tl, vi).state == st
  {
  }

  /** The access keeps the registry consistent: the only entries it adds are
      empty. */
  lemma GateKeepsConsistent(host: Host, st: State, g: Storage, tl: int, vi: int)
    requires Consistent(st)
    ensures Consistent(VarDataPtr(host, st, g, tl, vi).state)
  {
  }

  /** An access touches no observation and removes no write entry. */
  lemma GateKeepsObservedRegistered(host: Host, st: State, g: Storage, tl: int, vi: int)
    requires ObservedRegistered(st)
    ensures ObservedRegistered(VarDataPtr(host, st, g, tl, vi).state)
  {
  }

  /** An access made while the current routine is not yet registered, to a
      variable it does not read, creates its write entry; the routine's later
      first call then registers none of its declarations. */
  lemma EarlyAccessBlocksRegistration(host: Host, st: State, g: Storage, tl: int, vi: int, a: Attribute)
    requires st.routine !in st.wclauses && st.routine !in st.rclauses
    ensures var s := VarDataPtr(host, st, g, tl, vi).state;
            && s.wclauses[st.routine] == map[]
            && InitFunction(host, s, a) == Success(s)
  {
  }
}
