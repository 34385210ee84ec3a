/**
 * The modules page (src/pages/ModulesPage.tsx) without its rendering: the
 * flat, totally ordered list of exercises, previous/next stepping gated by
 * the unlock model, the repair of a stale selection, the progress counters,
 * opening and closing modules in the drawer, and the reset button.
 */
module Navigation {
  import opened Wrappers
  import opened Sorting
  import opened Catalog
  import opened Unlock
  import opened Progress
  import opened Js

  /** An exercise together with the module fields the page copies next to it. */
  datatype FlatExercise = FlatExercise(
    ex: Exercise,
    moduleTitle: string,
    moduleOrderIndex: int,
    moduleDescription: string)

  /** The three-level comparator of the flat list: module order, exercise order, id. */
  function FlatKey(f: FlatExercise): seq<int> {
    [f.moduleOrderIndex, f.ex.orderIndex, f.ex.id]
  }

  function Entry(m: Module, e: Exercise): FlatExercise {
    FlatExercise(e, m.title, m.orderIndex, m.description)
  }

  function Entries(m: Module): (r: seq<FlatExercise>)
    ensures |r| == |m.exercises|
    ensures forall j :: 0 <= j < |r| ==> r[j] == Entry(m, m.exercises[j])
  {
    Map(e => Entry(m, e), m.exercises)
  }

  /** The exercises of all modules, module after module, before sorting. */
  function Flatten(ms: seq<Module>): seq<FlatExercise> {
    if ms == [] then [] else Flatten(ms[..|ms| - 1]) + Entries(ms[|ms| - 1])
  }

  /** `x` is the entry of some exercise of some module. */
  ghost predicate Listed(ms: seq<Module>, x: FlatExercise) {
    exists i, j :: 0 <= i < |ms| && 0 <= j < |ms[i].exercises| && x == Entry(ms[i], ms[i].exercises[j])
  }

  lemma {:induction false} FlattenMembers(ms: seq<Module>, x: FlatExercise)
    ensures x in Flatten(ms) <==> Listed(ms, x)
    decreases |ms|
  {
    if ms != [] {
      var init, last := ms[..|ms| - 1], ms[|ms| - 1];
      FlattenMembers(init, x);
      if Listed(init, x) {
        var i, j :| 0 <= i < |init| && 0 <= j < |init[i].exercises| && x == Entry(init[i], init[i].exercises[j]);
        assert ms[i] == init[i];
      }
      if x in Entries(last) {
        var j :| 0 <= j < |Entries(last)| && Entries(last)[j] == x;
        assert x == Entry(ms[|ms| - 1], ms[|ms| - 1].exercises[j]);
      }
      if Listed(ms, x) {
        var i, j :| 0 <= i < |ms| && 0 <= j < |ms[i].exercises| && x == Entry(ms[i], ms[i].exercises[j]);
        if i < |ms| - 1 {
          assert init[i] == ms[i];
        } else {
          assert Entries(last)[j] == x;
        }
      }
    }
  }

  /** The `flat` list: every exercise entry, sorted by `FlatKey` with the stable library sort. */
  function FlatOrder(ms: seq<Module>): seq<FlatExercise> {
    StableSort(Flatten(ms), FlatKey)
  }

  /**
   * `flat` holds exactly the exercises of all modules (as a multiset, so
   * none is lost or duplicated) and is ordered by module order, exercise
   * order and id.
   */
  lemma FlatOrdered(ms: seq<Module>)
    ensures SortedBy(FlatOrder(ms), FlatKey)
    ensures multiset(FlatOrder(ms)) == multiset(Flatten(ms))
    ensures forall x :: x in FlatOrder(ms) <==> Listed(ms, x)
  {
    StableSortSorted(Flatten(ms), FlatKey, 3);
    forall x ensures x in FlatOrder(ms) <==> Listed(ms, x) {
      FlattenMembers(ms, x);
      assert x in FlatOrder(ms) <==> x in multiset(FlatOrder(ms));
    }
  }

  /** The `flat` memo: the two nested loops that push one entry per exercise, then the sort. */
  method BuildFlat(ms: seq<Module>) returns (flat: seq<FlatExercise>)
    ensures flat == FlatOrder(ms)
  {
    var out: seq<FlatExercise> := [];
    for mi := 0 to |ms|
      invariant out == Flatten(ms[..mi])
    {
      var m := ms[mi];
      for ei := 0 to |m.exercises|
        invariant out == Flatten(ms[..mi]) + Entries(m)[..ei]
      {
        out := out + [Entry(m, m.exercises[ei])];
      }
      assert Entries(m)[..|m.exercises|] == Entries(m);
      assert ms[..mi + 1][..mi] == ms[..mi];
    }
    assert ms[..|ms|] == ms;
    flat := StableSort(out, FlatKey);
  }

  /** `flat.findIndex(e => e.id === id)`. */
  function FindIndex(flat: seq<FlatExercise>, id: int): (k: int)
    ensures -1 <= k < |flat|
    ensures k == -1 <==> forall j :: 0 <= j < |flat| ==> flat[j].ex.id != id
    ensures k >= 0 ==> flat[k].ex.id == id && forall j :: 0 <= j < k ==> flat[j].ex.id != id
  {
    if flat == [] then -1
    else if flat[0].ex.id == id then 0
    else
      var k := FindIndex(flat[1..], id);
      if k == -1 then -1 else k + 1
  }

  /** `currentExercise`: the first flat entry with the selected id, if any. */
  function CurrentExercise(flat: seq<FlatExercise>, exerciseId: Option<int>): (r: Option<FlatExercise>)
    ensures r.None? <==> exerciseId.None? || FindIndex(flat, exerciseId.value) == -1
    ensures r.Some? ==> r.value == flat[FindIndex(flat, exerciseId.value)] && r.value.ex.id == exerciseId.value
  {
    if exerciseId.None? then None
    else
      var k := FindIndex(flat, exerciseId.value);
      if k == -1 then None else Some(flat[k])
  }

  /** Where `goPrev` goes: the entry before the current one, without any gating. */
  function PrevTarget(flat: seq<FlatExercise>, exerciseId: Option<int>): (r: Option<FlatExercise>)
    ensures r.None? <==> exerciseId.None? || FindIndex(flat, exerciseId.value) <= 0
    ensures r.Some? ==> r.value == flat[FindIndex(flat, exerciseId.value) - 1]
  {
    match CurrentExercise(flat, exerciseId)
    case None => None
    case Some(c) =>
      var idx := FindIndex(flat, c.ex.id);
      if idx <= 0 then None else Some(flat[idx - 1])
  }

  /** The id may be opened: it is unlocked or solved. */
  predicate Reachable(model: UnlockModel, id: int) {
    id in model.unlockedIds || id in model.solvedIds
  }

  /** Where `goNext` goes: the entry after the current one, only when it is unlocked or solved. */
  function NextTarget(flat: seq<FlatExercise>, exerciseId: Option<int>, model: UnlockModel): (r: Option<FlatExercise>)
    ensures r.Some? ==> exerciseId.Some? && 0 <= FindIndex(flat, exerciseId.value) < |flat| - 1
    ensures r.Some? ==> r.value == flat[FindIndex(flat, exerciseId.value) + 1] && Reachable(model, r.value.ex.id)
    ensures (exerciseId.Some? && 0 <= FindIndex(flat, exerciseId.value) < |flat| - 1
      && Reachable(model, flat[FindIndex(flat, exerciseId.value) + 1].ex.id)) ==> r.Some?
  {
    match CurrentExercise(flat, exerciseId)
    case None => None
    case Some(c) =>
      var idx := FindIndex(flat, c.ex.id);
      if idx + 1 >= |flat| then None
      else
        var next := flat[idx + 1];
        if Reachable(model, next.ex.id) then Some(next) else None
  }

  /** `prevLocked`: the "previous" button is disabled exactly when `goPrev` would do nothing. */
  function PrevLocked(flat: seq<FlatExercise>, exerciseId: Option<int>): (locked: bool)
    ensures locked <==> PrevTarget(flat, exerciseId).None?
  {
    match CurrentExercise(flat, exerciseId)
    case None => true
    case Some(c) => FindIndex(flat, c.ex.id) <= 0
  }

  /** `nextLocked`: the "next" button is disabled exactly when `goNext` would do nothing. */
  function NextLocked(flat: seq<FlatExercise>, exerciseId: Option<int>, model: UnlockModel): (locked: bool)
    ensures locked <==> NextTarget(flat, exerciseId, model).None?
  {
    match CurrentExercise(flat, exerciseId)
    case None => true
    case Some(c) =>
      var idx := FindIndex(flat, c.ex.id);
      if idx + 1 >= |flat| then true
      else !Reachable(model, flat[idx + 1].ex.id)
  }

  /** No two flat entries share an id. */
  predicate DistinctIds(flat: seq<FlatExercise>) {
    forall i, j :: 0 <= i < j < |flat| ==> flat[i].ex.id != flat[j].ex.id
  }

  /** With distinct ids, "previous" from the entry at `k > 0` is the entry at `k - 1`. */
  lemma PrevIsPredecessor(flat: seq<FlatExercise>, k: int)
    requires DistinctIds(flat) && 1 <= k < |flat|
    ensures PrevTarget(flat, Some(flat[k].ex.id)) == Some(flat[k - 1])
  {
    var i := FindIndex(flat, flat[k].ex.id);
    assert i == k;
  }

  /** With distinct ids, "next" from the entry at `k` is the entry at `k + 1` exactly when that one is reachable. */
  lemma NextIsSuccessor(flat: seq<FlatExercise>, k: int, model: UnlockModel)
    requires DistinctIds(flat) && 0 <= k < |flat| - 1
    ensures NextTarget(flat, Some(flat[k].ex.id), model) ==
      if Reachable(model, flat[k + 1].ex.id) then Some(flat[k + 1]) else None
  {
    var i := FindIndex(flat, flat[k].ex.id);
    assert i == k;
  }

  /** The selected module and exercise and the set of open modules in the drawer. */
  datatype Selection = Selection(moduleId: Option<int>, exerciseId: Option<int>, open: set<int>)

  /** `modules.some(m => m.id === id)`. */
  predicate HasModule(ms: seq<Module>, id: int) {
    exists i :: 0 <= i < |ms| && ms[i].id == id
  }

  /** `flat.some(e => e.id === id)`. */
  predicate HasExercise(flat: seq<FlatExercise>, id: int) {
    exists k :: 0 <= k < |flat| && flat[k].ex.id == id
  }

  /** `modules.find(m => m.id === id)`. */
  function FindModule(ms: seq<Module>, id: int): (r: Option<Module>)
    ensures r.None? <==> !HasModule(ms, id)
    ensures r.Some? ==> r.value in ms && r.value.id == id
    ensures ms != [] && ms[0].id == id ==> r == Some(ms[0])
    ensures r.Some? ==> exists k :: 0 <= k < |ms| && ms[k] == r.value && forall j :: 0 <= j < k ==> ms[j].id != id
  {
    if ms == [] then None
    else if ms[0].id == id then Some(ms[0])
    else
      var r := FindModule(ms[1..], id);
      assert r.Some? ==> exists k :: 0 <= k < |ms| && ms[k] == r.value && forall j :: 0 <= j < k ==> ms[j].id != id by {
        if r.Some? {
          var k :| 0 <= k < |ms[1..]| && ms[1..][k] == r.value && forall j :: 0 <= j < k ==> ms[1..][j].id != id;
          assert ms[k + 1] == r.value;
          assert forall j :: 0 <= j < k + 1 ==> ms[j].id != id by {
            forall j | 0 <= j < k + 1 ensures ms[j].id != id {
              if j > 0 { assert ms[j] == ms[1..][j - 1]; }
            }
          }
        }
      }
      assert HasModule(ms, id) ==> HasModule(ms[1..], id) by {
        if HasModule(ms, id) {
          var i :| 0 <= i < |ms| && ms[i].id == id;
          assert ms[1..][i - 1] == ms[i];
        }
      }
      assert HasModule(ms[1..], id) ==> HasModule(ms, id) by {
        if HasModule(ms[1..], id) {
          var i :| 0 <= i < |ms[1..]| && ms[1..][i].id == id;
          assert ms[i + 1] == ms[1..][i];
        }
      }
      r
  }

  /** `m.exercises[0]?.id ?? null`. */
  function FirstExerciseId(m: Module): (r: Option<int>)
    ensures r.None? <==> m.exercises == []
    ensures r.Some? ==> r.value == m.exercises[0].id
  {
    if |m.exercises| > 0 then Some(m.exercises[0].id) else None
  }

  /**
   * The selection-repair effect: with no modules nothing changes; an unknown
   * module resets to the first module, its first exercise and only that
   * module open; an unknown exercise resets to the first exercise of the
   * selected module; a valid selection is kept.
   */
  function Repair(ms: seq<Module>, flat: seq<FlatExercise>, s: Selection): (r: Selection)
    ensures ms == [] ==> r == s
    ensures ms != [] ==> r.moduleId.Some? && HasModule(ms, r.moduleId.value)
    ensures ms != [] && (s.moduleId.None? || !HasModule(ms, s.moduleId.value)) ==>
      r == Selection(Some(ms[0].id), FirstExerciseId(ms[0]), {ms[0].id})
    ensures s.moduleId.Some? && HasModule(ms, s.moduleId.value) ==>
      r.moduleId == s.moduleId && r.open == s.open
    ensures s.moduleId.Some? && HasModule(ms, s.moduleId.value) && (s.exerciseId.None? || !HasExercise(flat, s.exerciseId.value)) ==>
      r.exerciseId == FirstExerciseId(FindModule(ms, s.moduleId.value).value)
    ensures s.moduleId.Some? && HasModule(ms, s.moduleId.value) && s.exerciseId.Some? && HasExercise(flat, s.exerciseId.value) ==>
      r == s
  {
    if ms == [] then s
    else if s.moduleId.None? || !HasModule(ms, s.moduleId.value) then
      Selection(Some(ms[0].id), FirstExerciseId(ms[0]), {ms[0].id})
    else if s.exerciseId.None? || !HasExercise(flat, s.exerciseId.value) then
      var m := FindModule(ms, s.moduleId.value).value;
      s.(exerciseId := FirstExerciseId(m))
    else s
  }

  /** Every exercise of every module has an entry in `flat`. */
  ghost predicate Covers(ms: seq<Module>, flat: seq<FlatExercise>) {
    forall m, e :: m in ms && e in m.exercises ==> HasExercise(flat, e.id)
  }

  lemma FlatOrderCovers(ms: seq<Module>)
    ensures Covers(ms, FlatOrder(ms))
  {
    FlatOrdered(ms);
    forall m, e | m in ms && e in m.exercises ensures HasExercise(FlatOrder(ms), e.id) {
      var i :| 0 <= i < |ms| && ms[i] == m;
      var j :| 0 <= j < |m.exercises| && m.exercises[j] == e;
      assert Listed(ms, Entry(m, e));
      var flat := FlatOrder(ms);
      var k :| 0 <= k < |flat| && flat[k] == Entry(m, e);
    }
  }

  /**
   * Once repaired, the selection names an existing module and either an
   * existing exercise or none (that module is empty), and running the effect
   * again changes nothing: the effect settles after one run.
   */
  lemma RepairSettles(ms: seq<Module>, s: Selection)
    requires ms != []
    ensures var r := Repair(ms, FlatOrder(ms), s);
      && (r.exerciseId.None? || HasExercise(FlatOrder(ms), r.exerciseId.value))
      && Repair(ms, FlatOrder(ms), r) == r
  {
    var flat := FlatOrder(ms);
    FlatOrderCovers(ms);
    var r := Repair(ms, flat, s);
    var m := FindModule(ms, r.moduleId.value).value;
    if s.moduleId.None? || !HasModule(ms, s.moduleId.value) {
      assert m == ms[0];
    }
    assert r.exerciseId == FirstExerciseId(m) || (r == s && HasExercise(flat, s.exerciseId.value));
    if r.exerciseId.Some? && r.exerciseId == FirstExerciseId(m) {
      assert m.exercises[0] in m.exercises;
    }
  }

  /** `ids.filter(id => solvedIds.has(id)).length`. */
  function CountSolved(ids: seq<int>, solved: set<int>): (n: nat)
    ensures n <= |ids|
    ensures n == |ids| <==> forall i :: 0 <= i < |ids| ==> ids[i] in solved
    ensures n == 0 <==> forall i :: 0 <= i < |ids| ==> ids[i] !in solved
    ensures |ids| == 1 ==> n == (if ids[0] in solved then 1 else 0)
  {
    if ids == [] then 0
    else
      var rest := CountSolved(ids[1..], solved);
      assert forall i :: 1 <= i < |ids| ==> ids[i] == ids[1..][i - 1];
      (if ids[0] in solved then 1 else 0) + rest
  }

  /** A module's solved counter: never more than its exercise count, equal to it iff all are solved. */
  function ModuleSolvedCount(m: Module, solved: set<int>): (n: nat)
    ensures n <= |m.exercises|
    ensures n == |m.exercises| <==> forall e :: e in m.exercises ==> e.id in solved
    ensures |m.exercises| == 1 ==> n == (if m.exercises[0].id in solved then 1 else 0)
  {
    var ids := Map((e: Exercise) => e.id, m.exercises);
    assert forall e :: e in m.exercises ==> e.id in ids;
    CountSolved(ids, solved)
  }

  /** Counting the solved ids of a concatenation counts each part: with the one-id case, this fixes the count of every list. */
  lemma {:induction false} CountSolvedAppend(a: seq<int>, b: seq<int>, solved: set<int>)
    ensures CountSolved(a + b, solved) == CountSolved(a, solved) + CountSolved(b, solved)
    decreases |a|
  {
    if a == [] {
      assert a + b == b;
    } else {
      assert (a + b)[1..] == a[1..] + b;
      CountSolvedAppend(a[1..], b, solved);
    }
  }

  /** A module whose exercises are `a + b` counts the solved exercises of `a` and of `b`. */
  lemma ModuleSolvedCountAppend(m: Module, a: seq<Exercise>, b: seq<Exercise>, solved: set<int>)
    requires m.exercises == a + b
    ensures ModuleSolvedCount(m, solved)
      == ModuleSolvedCount(m.(exercises := a), solved) + ModuleSolvedCount(m.(exercises := b), solved)
  {
    var f := (e: Exercise) => e.id;
    MapSplit(f, a, b);
    CountSolvedAppend(Map(f, a), Map(f, b), solved);
  }

  /** `progressNow = Math.min(solvedCount, totalExercises)`. */
  function ProgressNow(solvedCount: nat, total: nat): (n: nat)
    ensures n <= total && n <= solvedCount
    ensures n == total || n == solvedCount
  {
    if solvedCount < total then solvedCount else total
  }

  /** `toggleModuleOpen(id)`: flips the membership of `id` and of nothing else. */
  function Toggle(open: set<int>, id: int): (r: set<int>)
    ensures id in r <==> id !in open
    ensures forall x :: x != id ==> (x in r <==> x in open)
  {
    if id in open then open - {id} else open + {id}
  }

  /** Toggling twice restores the set. */
  lemma ToggleTwice(open: set<int>, id: int)
    ensures Toggle(Toggle(open, id), id) == open
  {
    var once := Toggle(open, id);
    assert forall x :: x in Toggle(once, id) <==> x in open;
  }

  datatype LoadStatus = Loading | Ready | Failed

  /** The page state: the catalog, its flat list, the selection and the open modules. */
  class ModulesPage {
    var status: LoadStatus
    var modules: seq<Module>
    var flat: seq<FlatExercise>
    var currentModuleId: Option<int>
    var currentExerciseId: Option<int>
    var openModuleIds: set<int>

    /** `flat` is always the memo of `modules`. */
    predicate Valid()
      reads this
    {
      flat == FlatOrder(modules)
    }

    function CurrentSelection(): Selection
      reads this
    {
      Selection(currentModuleId, currentExerciseId, openModuleIds)
    }

    constructor ()
      ensures Valid() && status == Loading && modules == []
      ensures CurrentSelection() == Selection(None, None, {})
    {
      status := Loading;
      modules := [];
      flat := [];
      currentModuleId := None;
      currentExerciseId := None;
      openModuleIds := {};
    }

    /**
     * The fetch-once effect: a failed fetch marks the page failed; otherwise
     * the catalog is put in order and, when the first module has an exercise,
     * that exercise is selected and its module opened.
     */
    method LoadModules(fetched: Result<seq<Module>>)
      requires Valid()
      modifies this
      ensures Valid()
      ensures fetched.Err? ==> status == Failed && modules == old(modules) && CurrentSelection() == old(CurrentSelection())
      ensures fetched.Ok? ==> status == Ready && modules == SortCatalog(fetched.value)
      ensures fetched.Ok? && |modules| > 0 && |modules[0].exercises| > 0 ==>
        CurrentSelection() == Selection(Some(modules[0].id), Some(modules[0].exercises[0].id), {modules[0].id})
      ensures fetched.Ok? && !(|modules| > 0 && |modules[0].exercises| > 0) ==>
        CurrentSelection() == old(CurrentSelection())
    {
      status := Loading;
      if fetched.Err? {
        status := Failed;
        return;
      }
      var sorted := SortCatalog(fetched.value);
      ShowCatalog(sorted);
    }

    /** The success path of the fetch-once effect, once the catalog is in order. */
    method ShowCatalog(sorted: seq<Module>)
      modifies this
      ensures Valid() && status == Ready && modules == sorted
      ensures |sorted| > 0 && |sorted[0].exercises| > 0 ==>
        CurrentSelection() == Selection(Some(sorted[0].id), Some(sorted[0].exercises[0].id), {sorted[0].id})
      ensures !(|sorted| > 0 && |sorted[0].exercises| > 0) ==> CurrentSelection() == old(CurrentSelection())
    {
      modules := sorted;
      flat := BuildFlat(sorted);
      status := Ready;
      OpenFirst();
    }

    /** Opens the first module and selects its first exercise, when there is one. */
    method OpenFirst()
      modifies this
      ensures status == old(status) && modules == old(modules) && flat == old(flat)
      ensures |modules| > 0 && |modules[0].exercises| > 0 ==>
        CurrentSelection() == Selection(Some(modules[0].id), Some(modules[0].exercises[0].id), {modules[0].id})
      ensures !(|modules| > 0 && |modules[0].exercises| > 0) ==> CurrentSelection() == old(CurrentSelection())
    {
      if |modules| > 0 && |modules[0].exercises| > 0 {
        var first := modules[0];
        openModuleIds := {first.id};
        currentModuleId := Some(first.id);
        currentExerciseId := Some(first.exercises[0].id);
      }
    }

    /** The selection-repair effect. */
    method RepairSelection()
      requires Valid()
      modifies this
      ensures Valid() && status == old(status) && modules == old(modules)
      ensures CurrentSelection() == Repair(modules, flat, old(CurrentSelection()))
    {
      if |modules| == 0 {
        return;
      }
      if currentModuleId.None? || !HasModule(modules, currentModuleId.value) {
        var first := modules[0];
        currentModuleId := Some(first.id);
        currentExerciseId := FirstExerciseId(first);
        openModuleIds := {first.id};
        return;
      }
      if currentExerciseId.None? || !HasExercise(flat, currentExerciseId.value) {
        var m := FindModule(modules, currentModuleId.value).value;
        currentExerciseId := FirstExerciseId(m);
        return;
      }
    }

    method ToggleModuleOpen(id: int)
      modifies this
      ensures openModuleIds == Toggle(old(openModuleIds), id)
      ensures status == old(status) && modules == old(modules) && flat == old(flat)
      ensures currentModuleId == old(currentModuleId) && currentExerciseId == old(currentExerciseId)
    {
      var next := openModuleIds;
      if id in next {
        next := next - {id};
      } else {
        next := next + {id};
      }
      openModuleIds := next;
    }

    /** `goPrev`: selects the previous flat entry and opens its module; no gating. */
    method GoPrev()
      modifies this
      ensures status == old(status) && modules == old(modules) && flat == old(flat)
      ensures PrevTarget(flat, old(currentExerciseId)).None? ==> CurrentSelection() == old(CurrentSelection())
      ensures PrevTarget(flat, old(currentExerciseId)).Some? ==>
        var p := PrevTarget(flat, old(currentExerciseId)).value;
        CurrentSelection() == Selection(Some(p.ex.moduleId), Some(p.ex.id), old(openModuleIds) + {p.ex.moduleId})
    {
      var current := CurrentExercise(flat, currentExerciseId);
      if current.None? {
        return;
      }
      var idx := FindIndex(flat, current.value.ex.id);
      if idx <= 0 {
        return;
      }
      var prev := flat[idx - 1];
      currentExerciseId := Some(prev.ex.id);
      currentModuleId := Some(prev.ex.moduleId);
      openModuleIds := openModuleIds + {prev.ex.moduleId};
    }

    /** `goNext`: selects the next flat entry and opens its module, only when it is unlocked or solved. */
    method GoNext(model: UnlockModel)
      modifies this
      ensures status == old(status) && modules == old(modules) && flat == old(flat)
      ensures NextTarget(flat, old(currentExerciseId), model).None? ==> CurrentSelection() == old(CurrentSelection())
      ensures NextTarget(flat, old(currentExerciseId), model).Some? ==>
        var n := NextTarget(flat, old(currentExerciseId), model).value;
        CurrentSelection() == Selection(Some(n.ex.moduleId), Some(n.ex.id), old(openModuleIds) + {n.ex.moduleId})
    {
      var current := CurrentExercise(flat, currentExerciseId);
      if current.None? {
        return;
      }
      var idx := FindIndex(flat, current.value.ex.id);
      if idx + 1 >= |flat| {
        return;
      }
      var next := flat[idx + 1];
      var unlocked := next.ex.id in model.unlockedIds || next.ex.id in model.solvedIds;
      if !unlocked {
        return;
      }
      currentExerciseId := Some(next.ex.id);
      currentModuleId := Some(next.ex.moduleId);
      openModuleIds := openModuleIds + {next.ex.moduleId};
    }

    /** A click on an exercise of module `m` in the drawer: only unlocked or solved exercises respond. */
    method ClickExercise(m: Module, e: Exercise, model: UnlockModel)
      modifies this
      ensures status == old(status) && modules == old(modules) && flat == old(flat) && openModuleIds == old(openModuleIds)
      ensures Reachable(model, e.id) ==> currentModuleId == Some(m.id) && currentExerciseId == Some(e.id)
      ensures !Reachable(model, e.id) ==> CurrentSelection() == old(CurrentSelection())
    {
      if e.id in model.unlockedIds || e.id in model.solvedIds {
        currentModuleId := Some(m.id);
        currentExerciseId := Some(e.id);
      }
    }

    /** The unlock model the page derives from the stored progress and its modules. */
    method UnlockModelNow(store: ProgressStore) returns (model: UnlockModel)
      ensures model.solvedIds == set x | x in store.SolvedIds()
      ensures model.unlockedIds == Unlocked(SortCatalog(modules), model.solvedIds)
    {
      model := BuildUnlockModel(modules, store.SolvedIds());
    }

    /** The puzzle's `onSolved`: records the current exercise as solved. */
    method OnPuzzleSolved(store: ProgressStore)
      requires CurrentExercise(flat, currentExerciseId).Some?
      modifies store
      ensures store.items == MarkItems(old(store.items), Finite(currentExerciseId.value))
    {
      var current := CurrentExercise(flat, currentExerciseId).value;
      store.MarkExerciseSolved(Finite(current.ex.id));
    }

    /**
     * The reset button: clears the stored progress and, when the first module
     * has an exercise, selects it and opens only that module.
     */
    method ResetButton(store: ProgressStore)
      modifies this, store
      ensures store.items == old(store.items) - {KeySolved} && store.SolvedIds() == []
      ensures status == old(status) && modules == old(modules) && flat == old(flat)
      ensures |modules| > 0 && |modules[0].exercises| > 0 ==>
        CurrentSelection() == Selection(Some(modules[0].id), Some(modules[0].exercises[0].id), {modules[0].id})
      ensures !(|modules| > 0 && |modules[0].exercises| > 0) ==> CurrentSelection() == old(CurrentSelection())
    {
      store.ResetProgress();
      if |modules| > 0 && |modules[0].exercises| > 0 {
        var first := modules[0];
        currentModuleId := Some(first.id);
        currentExerciseId := Some(first.exercises[0].id);
        openModuleIds := {first.id};
      }
    }
  }
}
