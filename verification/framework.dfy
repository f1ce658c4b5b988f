/** The host framework as the verification engine sees it: the name, group,
    type and storage queries it makes (`CCTK_VarIndex`, `CCTK_GroupIndex`,
    `CCTK_FirstVarIndexI`, `CCTK_NumVarsInGroupI`, `CCTK_NumVars`,
    `CCTK_GroupTypeFromVarI`, `CCTK_VarTypeSize`, `CCTK_VarDataPtrI`) and
    the grid shape it reads from the grid hierarchy. None of these is
    implemented here; a host is any choice of them. */
module Framework {
  import opened Wrappers
  import opened Checksum

  /** The static queries of the host. Indices are `int`s as in the host's C
      interface, where a negative index means "not found". */
  datatype Host = Host(
    varIndex: string -> int,     // variable index of a full name, negative if none
    groupIndex: string -> int,   // group index of a full name, negative if none
    firstVar: int -> int,        // index of the first variable of a group
    groupSize: int -> int,       // number of variables of a group
    numVars: int,                // number of variables
    tracked: int -> bool,        // a grid function whose element has the size of a `long` (8 bytes)
    shape: Shape)                // local extents and ghost widths of the grid

  /** The storage of the grid hierarchy: the data of a variable at a time
      level, absent where the host returns a null pointer. */
  type Storage = map<(int, int), Buffer>

  /** The data pointer the host returns for variable `vi` at time level
      `tl`, `None` standing for null. */
  function DataPtr(g: Storage, tl: int, vi: int): (r: Option<Buffer>)
    ensures r.Some? <==> (tl, vi) in g
    ensures r.Some? ==> r.value == g[(tl, vi)]
  {
    if (tl, vi) in g then Some(g[(tl, vi)]) else None
  }

  /** The variables of group `gi`: the `groupSize(gi)` consecutive indices
      starting at `firstVar(gi)` (the loops of lines 96-100 and 129-133). */
  function Members(host: Host, gi: int): (r: set<int>)
    ensures forall v :: v in r <==> host.firstVar(gi) <= v < host.firstVar(gi) + host.groupSize(gi)
  {
    Range(host.firstVar(gi), host.firstVar(gi) + host.groupSize(gi))
  }

  /** The indices from `lo` up to but excluding `hi`. */
  function Range(lo: int, hi: int): (r: set<int>)
    ensures forall v :: v in r <==> lo <= v < hi
    decreases hi - lo
  {
    if lo >= hi then {} else {lo} + Range(lo + 1, hi)
  }

  /** Every variable index of the host, `0 .. numVars - 1` (lines 220-222). */
  function AllVars(host: Host): (r: set<int>)
    ensures forall v :: v in r <==> 0 <= v < host.numVars
  {
    Range(0, host.numVars)
  }

  /** The time-level-0 buffer of every watched variable holds at least one
      word per cell of the grid, as the host allocates grid functions. Other
      variables (grid scalars, grid arrays, grid functions of another element
      size) and other time levels may have buffers of any length: the hooks
      never checksum them. */
  ghost predicate Fits(host: Host, g: Storage) {
    forall v | (0, v) in g && host.tracked(v) :: Cells(host.shape) <= |g[(0, v)]|
  }
}
