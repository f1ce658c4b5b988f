/** One scheduled call end to end: the pre-call hook, a routine that stores
    one new value in one cell of a watched grid function, and the post-call
    hook (ReadWriteDiagnostics.cc lines 198-281 together with the checksum
    of lines 172-195 and the cross-check of lines 140-170). */
module Scenarios {
  import opened Wrappers
  import opened Regions
  import opened Words
  import opened Checksum
  import opened Framework
  import opened Globals
  import opened Registry
  import opened CrossCheck
  import opened Inference
  import opened AccessGate

  /** The storage after the routine stored `w` into cell `p` of variable
      `v`'s data at time level 0. */
  function Store(g: Storage, v: int, p: nat, w: Word): (r: Storage)
    requires (0, v) in g && p < |g[(0, v)]|
    ensures r.Keys == g.Keys
    ensures |r[(0, v)]| == |g[(0, v)]| && r[(0, v)][p] == w
    ensures forall key | key in g && key != (0, v) :: r[key] == g[key]
  {
    var d: Buffer := g[(0, v)][p := w];
    g[(0, v) := d]
  }

  /** The region a cell belongs to. */
  function CellRegion(s: Shape, p: nat): (m: Mask)
    ensures m == INTERIOR || m == EXTERIOR
  {
    if Interior(s, p) then INTERIOR else EXTERIOR
  }

  /** The hooks around a routine that changes one cell of a watched variable
      record exactly the region of that cell, for that variable, when the
      routine had no earlier observation of it. */
  lemma SingleCellWriteObserved(host: Host, st: State, a: Attribute, g: Storage, v: int, p: nat, w: Word)
    requires Fits(host, g) && PreCall(host, st, a, g).Success?
    requires var pre := PreCall(host, st, a, g).value;
             v in Checked(host, g, Examined(host, Lookup(pre.rclauses, pre.routine, map[])))
    requires p < Cells(host.shape) && w != g[(0, v)][p]
    requires v !in Lookup(st.observed, RoutineName(a), map[])
    ensures var pre := PreCall(host, st, a, g).value;
            var g' := Store(g, v, p, w);
            Fits(host, g') &&
            var post := PostCall(host, pre, g');
            RoutineName(a) in post.observed && v in post.observed[RoutineName(a)]
            && post.observed[RoutineName(a)][v] == CellRegion(host.shape, p)
  {
    var pre := PreCall(host, st, a, g).value;
    var g' := Store(g, v, p, w);
    StoreFits(host, g, v, p, w);
    var d := g[(0, v)];
    var before, after := Current(host, g, v), Current(host, g', v);
    assert after == ComputeCksum(d[p := w], host.shape) by {
      assert g'[(0, v)] == d[p := w];
    }
    SingleCellWrite(d, host.shape, p, w);
    assert Delta(before, after) == CellRegion(host.shape, p);
    var vs := Examined(host, Lookup(pre.rclauses, pre.routine, map[]));
    assert v in Checked(host, g', vs);
    assert pre.cksums[v] == before;
    FirstObservation(host, pre, g', v);
  }

  /** Storing into a buffer keeps its length, so the storage still fits the
      grid. */
  lemma StoreFits(host: Host, g: Storage, v: int, p: nat, w: Word)
    requires Fits(host, g) && (0, v) in g && p < |g[(0, v)]|
    ensures Fits(host, Store(g, v, p, w))
  {
    var g' := Store(g, v, p, w);
    forall u | (0, u) in g' && host.tracked(u)
      ensures Cells(host.shape) <= |g'[(0, u)]|
    {
      assert (0, u) in g;
    }
  }

  /** Within a call, after the pre-call hook, the access gate changes no
      declaration: an early access can only come before the routine's first
      hook, and the hooks never run without one. */
  lemma AccessAfterPreCallKeepsState(host: Host, st: State, a: Attribute, g: Storage, tl: int, vi: int)
    requires Fits(host, g) && PreCall(host, st, a, g).Success?
    ensures var p := PreCall(host, st, a, g).value;
            VarDataPtr(host, p, g, tl, vi).state == p
  {
    PreCallRegisters(host, st, a, g);
    RegisteredAccessKeepsClauses(host, PreCall(host, st, a, g).value, g, tl, vi);
  }

  /** The first time a routine is seen changing a variable, and it changes
      one cell of a variable it declared to write in another region, it is
      reported with the declared region and that cell's region; one that
      declared the cell's region is not reported for it. (On later calls the
      observed mask is the OR of every region seen so far.) */
  lemma MisplacedWriteReported(host: Host, st: State, a: Attribute, g: Storage, v: int, p: nat, w: Word)
    requires Fits(host, g) && PreCall(host, st, a, g).Success?
    requires var pre := PreCall(host, st, a, g).value;
             && v in Checked(host, g, Examined(host, Lookup(pre.rclauses, pre.routine, map[])))
             && v in pre.wclauses[pre.routine]
    requires p < Cells(host.shape) && w != g[(0, v)][p]
    requires v !in Lookup(st.observed, RoutineName(a), map[])
    ensures var pre := PreCall(host, st, a, g).value;
            var g' := Store(g, v, p, w);
            var declared, seen := pre.wclauses[pre.routine][v], CellRegion(host.shape, p);
            Fits(host, g') &&
            var post := PostCall(host, pre, g');
            && (declared != seen ==> WrongRegion(pre.routine, v, declared, seen) in post.messages)
            && (declared == seen ==>
                  forall m | m in post.messages - pre.messages :: m.routine != pre.routine || m.vi != v)
  {
    var pre := PreCall(host, st, a, g).value;
    var g' := Store(g, v, p, w);
    SingleCellWriteObserved(host, st, a, g, v, p, w);
    var o := Observe(host, pre, g');
    assert PostCall(host, pre, g') == Diagnose(o);
    if pre.wclauses[pre.routine][v] != CellRegion(host.shape, p) {
      DiagnoseComplete(o, pre.routine, v);
    } else {
      AgreementIsSilent(o, pre.routine, v);
    }
  }
}
