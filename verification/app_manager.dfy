/**
 * The loader's application table (apps/loader/src/appmanager.rs): the
 * number of applications, the id of the current one, twenty start-address
 * slots and ten saved task contexts, with a setter and a getter for each of
 * the first three.
 *
 * Slot indices past the fixed array length make Rust panic; that outcome is
 * `None` here.
 */
module AppManager {
  import opened Outcomes

  const APP_SLOTS: nat := 20
  const TASK_SLOTS: nat := 10
  const SAVED_REGS: nat := 12

  /** The registers `__switch` saves: return address, stack pointer and `s0`-`s11`. */
  datatype TaskContext = TaskContext(ra: nat, sp: nat, s: seq<nat>)

  datatype Manager = Manager(numApp: nat, currentId: nat, appStart: seq<nat>, tc: seq<TaskContext>)

  /** The fixed array lengths of the Rust struct. */
  predicate Wf(m: Manager)
  {
    && |m.appStart| == APP_SLOTS
    && |m.tc| == TASK_SLOTS
    && forall k :: 0 <= k < |m.tc| ==> |m.tc[k].s| == SAVED_REGS
  }

  /** `TaskContext::zero_init`. */
  function ZeroContext(): (r: TaskContext)
    ensures r.ra == 0 && r.sp == 0 && |r.s| == SAVED_REGS && forall k :: 0 <= k < |r.s| ==> r.s[k] == 0
  {
    TaskContext(0, 0, seq(SAVED_REGS, k => 0))
  }

  /** `AppManager::new`: everything zero. */
  function New(): (r: Manager)
    ensures Wf(r)
    ensures r.numApp == 0 && r.currentId == 0
    ensures forall k :: 0 <= k < APP_SLOTS ==> r.appStart[k] == 0
    ensures forall k :: 0 <= k < TASK_SLOTS ==> r.tc[k] == ZeroContext()
  {
    Manager(0, 0, seq(APP_SLOTS, k => 0), seq(TASK_SLOTS, k => ZeroContext()))
  }

  function UpdateNumApp(m: Manager, numApp: nat): (r: Manager)
    ensures r.numApp == numApp
    ensures r.currentId == m.currentId && r.appStart == m.appStart && r.tc == m.tc
  {
    m.(numApp := numApp)
  }

  function GetNumApp(m: Manager): nat
  {
    m.numApp
  }

  function UpdateCurrentId(m: Manager, currentId: nat): (r: Manager)
    ensures r.currentId == currentId
    ensures r.numApp == m.numApp && r.appStart == m.appStart && r.tc == m.tc
  {
    m.(currentId := currentId)
  }

  function GetCurrentId(m: Manager): nat
  {
    m.currentId
  }

  /**
   * `update_app_start`: copy `v` into the first `|v|` slots, one index at a
   * time; an index past the twentieth slot panics.
   */
  method UpdateAppStart(m: Manager, v: seq<nat>) returns (r: Option<Manager>)
    requires Wf(m)
    ensures r.None? <==> |v| > APP_SLOTS
    ensures r.Some? ==> Wf(r.value)
    ensures r.Some? ==> r.value.appStart[..|v|] == v && r.value.appStart[|v|..] == m.appStart[|v|..]
    ensures r.Some? ==> r.value.numApp == m.numApp && r.value.currentId == m.currentId && r.value.tc == m.tc
  {
    var slots := m.appStart;
    var i := 0;
    while i < |v|
      invariant 0 <= i <= |v| && i <= APP_SLOTS
      invariant |slots| == APP_SLOTS
      invariant slots[..i] == v[..i] && slots[i..] == m.appStart[i..]
    {
      if i >= APP_SLOTS {
        return None;
      }
      slots := slots[i := v[i]];
      i := i + 1;
    }
    assert v[..i] == v;
    return Some(m.(appStart := slots));
  }

  /** `get_app_start`: slot `index`, which panics past the twentieth. */
  function GetAppStart(m: Manager, index: nat): (r: Option<nat>)
    requires Wf(m)
    ensures r.None? <==> index >= APP_SLOTS
  {
    if index < APP_SLOTS then Some(m.appStart[index]) else None
  }

  /** Setting the count and reading it back gives it; so for the current id. */
  lemma SetThenGet(m: Manager, x: nat)
    ensures GetNumApp(UpdateNumApp(m, x)) == x
    ensures GetCurrentId(UpdateCurrentId(m, x)) == x
    ensures GetCurrentId(UpdateNumApp(m, x)) == GetCurrentId(m)
    ensures GetNumApp(UpdateCurrentId(m, x)) == GetNumApp(m)
  {
  }

  /** After copying `v`, slot `k` reads `v[k]` below `|v|` and what it held before above. */
  lemma AppStartReadBack(m: Manager, v: seq<nat>, r: Manager, k: nat)
    requires Wf(m) && Wf(r) && |v| <= APP_SLOTS && k < APP_SLOTS
    requires r.appStart[..|v|] == v && r.appStart[|v|..] == m.appStart[|v|..]
    ensures k < |v| ==> GetAppStart(r, k) == Some(v[k])
    ensures k >= |v| ==> GetAppStart(r, k) == GetAppStart(m, k)
  {
    if k < |v| {
      assert r.appStart[..|v|][k] == r.appStart[k];
    } else {
      assert r.appStart[|v|..][k - |v|] == r.appStart[k];
      assert m.appStart[|v|..][k - |v|] == m.appStart[k];
    }
  }
}
