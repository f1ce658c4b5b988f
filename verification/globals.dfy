/** The process-wide state of the verification engine (the globals of
    ReadWriteDiagnostics.cc lines 20-21, 50-51, 108 and 138), gathered in
    one immutable record that every hook takes and returns. */
module Globals {
  import opened Regions
  import opened Checksum

  /** A diagnostic. The source formats it as text with the routine, the
      variable's implementation and name, and the mask names; two messages
      are the same text exactly when they are the same value here. */
  datatype Message =
    | MissingWrite(routine: string, vi: int, observed: Mask)
      // "Routine R() is missing WRITES: imp::name(observed)"
    | WrongRegion(routine: string, vi: int, declared: Mask, observed: Mask)
      // "Routine R() has incorrect region ... schedule=declared observed=observed"

  /** Region masks of one routine, by variable index. */
  type RegionMap = map<int, Mask>

  datatype State = State(
    routine: string,                    // the routine being called, "thorn::name"
    wclauses: map<string, RegionMap>,   // declared writes, by routine
    rclauses: map<string, RegionMap>,   // declared reads, by routine
    syncs: map<string, set<int>>,       // declared synchronisations, by routine
    cksums: map<int, Cksum>,            // checksums taken before the call, by variable
    observed: map<string, RegionMap>,   // regions seen to change, by routine
    messages: set<Message>)             // every diagnostic so far

  /** The state at start-up: every container empty. */
  const Initial: State := State("", map[], map[], map[], map[], map[], {})

  /** Reading a `std::map` with `operator[]`: a missing key gets an entry
      holding the default value, and every other entry is kept. */
  function DefaultEntry<K, V>(m: map<K, V>, k: K, default: V): (r: map<K, V>)
    ensures r.Keys == m.Keys + {k}
    ensures forall j | j in m :: r[j] == m[j]
    ensures k !in m ==> r[k] == default
  {
    if k in m then m else m[k := default]
  }

  /** `DefaultEntry` for every key of `ks`. */
  function DefaultEntries<K, V>(m: map<K, V>, ks: set<K>, default: V): (r: map<K, V>)
    ensures r.Keys == m.Keys + ks
    ensures forall j | j in m :: r[j] == m[j]
    ensures forall j | j in ks && j !in m :: r[j] == default
  {
    map j | j in m.Keys + ks :: if j in m then m[j] else default
  }
}
