/** The contract cross-checker (`wclause_diagnostic`, ReadWriteDiagnostics.cc
    lines 140-170): every region a routine has been seen to write is
    compared with the region it declared, and a mismatch becomes a
    message in the set of messages. */
module CrossCheck {
  import opened Wrappers
  import opened Regions
  import opened Globals

  /** The message for routine `routine` having written region `seen` of
      variable `vi`, if any (lines 144-166). A routine with no entry in
      `wclauses` gets none: the source builds a "has no write clauses"
      message for it but inserts only inside the other branch. */
  function Verdict(wclauses: map<string, RegionMap>, routine: string, vi: int, seen: Mask): (r: Option<Message>)
    ensures r.Some? ==> routine in wclauses && r.value.routine == routine && r.value.vi == vi
    ensures r.Some? ==> r.value.observed == seen
    ensures r.Some? && r.value.MissingWrite? <==> routine in wclauses && vi !in wclauses[routine]
    ensures r.Some? && r.value.WrongRegion? <==>
              routine in wclauses && vi in wclauses[routine] && wclauses[routine][vi] != seen
    ensures r.Some? && r.value.WrongRegion? ==> r.value.declared == wclauses[routine][vi]
  {
    if routine !in wclauses then None
    else if vi !in wclauses[routine] then Some(MissingWrite(routine, vi, seen))
    else if wclauses[routine][vi] != seen then Some(WrongRegion(routine, vi, wclauses[routine][vi], seen))
    else None
  }

  /** An observation: routine `routine` wrote region `seen` of variable
      `vi`. */
  ghost predicate Observed(observed: map<string, RegionMap>, routine: string, vi: int, seen: Mask) {
    routine in observed && vi in observed[routine] && observed[routine][vi] == seen
  }

  /** The messages of every observation recorded so far. */
  function Findings(wclauses: map<string, RegionMap>, observed: map<string, RegionMap>): (r: set<Message>)
    ensures forall m | m in r :: Observed(observed, m.routine, m.vi, m.observed)
    ensures forall m | m in r :: Verdict(wclauses, m.routine, m.vi, m.observed) == Some(m)
  {
    set routine, vi | routine in observed && vi in observed[routine]
                      && Verdict(wclauses, routine, vi, observed[routine][vi]).Some?
      :: Verdict(wclauses, routine, vi, observed[routine][vi]).value
  }

  /** `wclause_diagnostic`: the messages of every observation are added to
      the set; nothing else changes. */
  function Diagnose(st: State): (r: State)
    ensures r == st.(messages := r.messages)
    ensures st.messages <= r.messages
    ensures forall m | m in r.messages - st.messages :: Observed(st.observed, m.routine, m.vi, m.observed)
  {
    st.(messages := st.messages + Findings(st.wclauses, st.observed))
  }

  /** Soundness: every new message reports a real mismatch between what was
      observed and what was declared. */
  lemma DiagnoseSound(st: State, m: Message)
    requires m in Diagnose(st).messages - st.messages
    ensures m.routine in st.wclauses
    ensures m.MissingWrite? ==> m.vi !in st.wclauses[m.routine]
    ensures m.WrongRegion? ==>
              && m.vi in st.wclauses[m.routine]
              && m.declared == st.wclauses[m.routine][m.vi]
              && m.declared != m.observed
  {
    assert Verdict(st.wclauses, m.routine, m.vi, m.observed) == Some(m);
  }

  /** Completeness: every mismatch of a routine with write declarations is
      reported, as a missing write when the variable is not declared and as
      a wrong region when its declared region differs. */
  lemma DiagnoseComplete(st: State, routine: string, vi: int)
    requires routine in st.observed && vi in st.observed[routine]
    requires routine in st.wclauses
    ensures var seen := st.observed[routine][vi];
            && (vi !in st.wclauses[routine] ==> MissingWrite(routine, vi, seen) in Diagnose(st).messages)
            && (vi in st.wclauses[routine] && st.wclauses[routine][vi] != seen ==>
                  WrongRegion(routine, vi, st.wclauses[routine][vi], seen) in Diagnose(st).messages)
  {
    var seen := st.observed[routine][vi];
    var v := Verdict(st.wclauses, routine, vi, seen);
    assert v.Some? ==> v.value in Findings(st.wclauses, st.observed);
  }

  /** An observation that matches its declaration adds no message about that
      variable of that routine. */
  lemma AgreementIsSilent(st: State, routine: string, vi: int)
    requires routine in st.observed && vi in st.observed[routine]
    requires routine in st.wclauses && vi in st.wclauses[routine]
    requires st.wclauses[routine][vi] == st.observed[routine][vi]
    ensures forall m | m in Diagnose(st).messages - st.messages :: m.routine != routine || m.vi != vi
  {
    forall m | m in Diagnose(st).messages - st.messages
      ensures m.routine != routine || m.vi != vi
    {
      assert Verdict(st.wclauses, m.routine, m.vi, m.observed) == Some(m);
    }
  }

  /** A routine with no entry in `wclauses` is never reported. (A
      registered routine that declares no writes has an empty entry, and
      every write observed for it is reported as missing.) */
  lemma UndeclaredRoutineIsSilent(st: State, routine: string)
    requires routine !in st.wclauses
    ensures forall m | m in Diagnose(st).messages - st.messages :: m.routine != routine
  {
  }

  /** Messages are a set: running the check again on the same observations
      adds nothing. */
  lemma DiagnoseIdempotent(st: State)
    ensures Diagnose(Diagnose(st)) == Diagnose(st)
  {
  }
}
