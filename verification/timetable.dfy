/** The in-memory configuration the priority handler works on: modules in
    load order, each with its sessions, every session carrying the id the
    session table gave it. */
module Timetable {
  import opened Wrappers
  import opened Config
  import opened Combinatorics

  /** A stored session: its id and the slot the operator entered. */
  datatype Session = Session(id: int, slot: Slot)

  /** A module; its id is its position in the module sequence. */
  datatype Module = Module(name: string, sessions: seq<Session>)

  /** Settings read by the engine: the buffer wanted around every session
      and how many ranked alternatives to assign per module. */
  datatype Settings = Settings(minDifference: int, priorities: int)

  /** Why a run is aborted. */
  datatype Error =
    | UnknownSession(moduleId: int, sessionId: int)  // lookup of a combination entry found nothing
    | EndsPastMidnight(sessionId: int)               // the end-time computation exits
    | NegativeDepth                                  // permutations of negative length are refused
    | MissingRating                                  // a sub-combination has no stored rating

  /** The session ids of a module, in insertion order. */
  function SessionIds(m: Module): (ids: seq<int>)
    ensures |ids| == |m.sessions|
    ensures forall k :: 0 <= k < |ids| ==> ids[k] == m.sessions[k].id
  {
    seq(|m.sessions|, k requires 0 <= k < |m.sessions| => m.sessions[k].id)
  }

  /** The per-module id lists, in module order. */
  function AllSessionIds(modules: seq<Module>): (lists: seq<seq<int>>)
    ensures |lists| == |modules|
    ensures forall i :: 0 <= i < |modules| ==> lists[i] == SessionIds(modules[i])
  {
    seq(|modules|, i requires 0 <= i < |modules| => SessionIds(modules[i]))
  }

  /** No two sessions of one module share an id. */
  predicate DistinctIds(m: Module) {
    Distinct(SessionIds(m))
  }

  /** Position `k` holds the first session with id `sessionId`. */
  predicate FirstWithId(sessions: seq<Session>, k: int, sessionId: int) {
    && 0 <= k < |sessions|
    && sessions[k].id == sessionId
    && forall j :: 0 <= j < k ==> sessions[j].id != sessionId
  }

  /** First slot in `sessions` whose id is `sessionId`. */
  function FindSlot(sessions: seq<Session>, sessionId: int): (r: Option<Slot>)
    ensures r.None? <==> forall k :: 0 <= k < |sessions| ==> sessions[k].id != sessionId
    ensures r.Some? ==> exists k :: FirstWithId(sessions, k, sessionId) && sessions[k].slot == r.value
  {
    if |sessions| == 0 then None
    else if sessions[0].id == sessionId then Some(sessions[0].slot)
    else
      var r := FindSlot(sessions[1..], sessionId);
      assert r.Some? ==> exists k :: FirstWithId(sessions, k, sessionId) && sessions[k].slot == r.value by {
        if r.Some? {
          var k :| FirstWithId(sessions[1..], k, sessionId) && sessions[1..][k].slot == r.value;
          forall j | 0 <= j < k + 1 ensures sessions[j].id != sessionId {
            if j > 0 { assert sessions[j] == sessions[1..][j - 1]; }
          }
          assert FirstWithId(sessions, k + 1, sessionId);
        }
      }
      r
  }

  /** The list position Python's indexing selects: a negative index counts
      from the end. Outside the range from -n to n - 1 there is none. */
  function ListIndex(i: int, n: nat): (r: Option<nat>)
    ensures r.Some? <==> 0 <= i + n && i < n
    ensures r.Some? ==> r.value < n && (r.value == i || r.value == i + n)
    ensures 0 <= i < n ==> r == Some(i)
  {
    if 0 <= i < n then Some(i) else if 0 <= i + n && i < 0 then Some(i + n) else None
  }

  /** The slot of session `sessionId` of module `moduleId`: the first match
      in the module's sessions, the module picked as Python indexes a list
      (a negative index counts from the end); nothing when the index is out
      of range or the id is unknown. */
  function SessionById(modules: seq<Module>, moduleId: int, sessionId: int): (r: Option<Slot>)
    ensures r.None? <==> !(0 <= moduleId + |modules| && moduleId < |modules|)
                         || (var m := ListIndex(moduleId, |modules|).value;
                             forall k :: 0 <= k < |modules[m].sessions| ==> modules[m].sessions[k].id != sessionId)
    ensures r.Some? ==> Session(sessionId, r.value) in modules[ListIndex(moduleId, |modules|).value].sessions
  {
    match ListIndex(moduleId, |modules|)
    case None => None
    case Some(m) => FindSlot(modules[m].sessions, sessionId)
  }

  /** A negative module index selects the module that many places from the
      end. */
  lemma NegativeModuleIndexCountsFromEnd(modules: seq<Module>, moduleId: int, sessionId: int)
    requires 0 <= moduleId + |modules| && moduleId < 0
    ensures SessionById(modules, moduleId, sessionId) == SessionById(modules, moduleId + |modules|, sessionId)
  {
  }

  /** With distinct ids, every session of a module is found by its own id. */
  lemma SessionByIdFindsEach(modules: seq<Module>, moduleId: int, k: int)
    requires 0 <= moduleId < |modules| && DistinctIds(modules[moduleId])
    requires 0 <= k < |modules[moduleId].sessions|
    ensures SessionById(modules, moduleId, modules[moduleId].sessions[k].id) == Some(modules[moduleId].sessions[k].slot)
  {
    var ss := modules[moduleId].sessions;
    var r := SessionById(modules, moduleId, ss[k].id);
    var k' :| FirstWithId(ss, k', ss[k].id) && ss[k'].slot == r.value;
    assert k' == k;
  }
}
