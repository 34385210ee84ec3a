/**
 * The lesson catalog as the client holds it once decoded (`UiExercise` and
 * `Module` in src/api/modules.ts), and the ordering every consumer applies:
 * modules by `orderIndex`, and the exercises of each module by `orderIndex`,
 * both with the stable library sort.
 */
module Catalog {
  import opened Sorting

  datatype Kind = Puzzle | Blockly

  datatype Exercise = Exercise(
    id: int,
    moduleId: int,
    title: string,
    instructionsHtml: string,
    kind: Kind,
    codeParts: seq<string>,
    orderedCode: string,
    orderIndex: int)

  datatype Module = Module(
    id: int,
    title: string,
    description: string,
    orderIndex: int,
    exercises: seq<Exercise>)

  /** Comparator `(a, b) => a.orderIndex - b.orderIndex` on exercises. */
  function ExerciseOrder(e: Exercise): seq<int> {
    [e.orderIndex]
  }

  /** Comparator `(a, b) => a.orderIndex - b.orderIndex` on modules. */
  function ModuleOrder(m: Module): seq<int> {
    [m.orderIndex]
  }

  function Map<A, B>(f: A -> B, s: seq<A>): (r: seq<B>)
    ensures |r| == |s| && forall i :: 0 <= i < |s| ==> r[i] == f(s[i])
  {
    seq(|s|, i requires 0 <= i < |s| => f(s[i]))
  }

  lemma MapSplit<A, B>(f: A -> B, a: seq<A>, b: seq<A>)
    ensures Map(f, a + b) == Map(f, a) + Map(f, b)
  {
  }

  lemma RemoveMatching<A>(s: seq<A>, t: seq<A>, k: nat)
    requires multiset(s) == multiset(t) && s != [] && k < |t| && t[k] == s[0]
    ensures multiset(t[..k] + t[k + 1..]) == multiset(s[1..])
  {
    assert t == t[..k] + [t[k]] + t[k + 1..];
    assert s == [s[0]] + s[1..];
    var x := multiset{s[0]};
    var a, b := multiset(t[..k] + t[k + 1..]), multiset(s[1..]);
    assert a + x == multiset(t);
    assert b + x == multiset(s);
    assert forall y :: a[y] == (a + x)[y] - x[y] == (b + x)[y] - x[y] == b[y];
  }

  lemma {:induction false} MapPermutation<A, B>(f: A -> B, s: seq<A>, t: seq<A>)
    requires multiset(s) == multiset(t)
    ensures multiset(Map(f, s)) == multiset(Map(f, t))
    decreases |s|
  {
    if s == [] {
      assert |t| == |multiset(t)| == 0;
    } else {
      assert s[0] in multiset(t);
      var k :| 0 <= k < |t| && t[k] == s[0];
      var pre, post := t[..k], t[k + 1..];
      RemoveMatching(s, t, k);
      MapPermutation(f, s[1..], pre + post);
      assert s == [s[0]] + s[1..];
      assert t == pre + [s[0]] + post;
      MapSplit(f, [s[0]], s[1..]);
      MapSplit(f, pre + [s[0]], post);
      MapSplit(f, pre, [s[0]]);
      MapSplit(f, pre, post);
    }
  }

  /** One module with its exercises put in order (`m.exercises.sort(byOrderIndex)`). */
  function SortExercises(m: Module): (r: Module)
    ensures r.(exercises := m.exercises) == m
    ensures multiset(r.exercises) == multiset(m.exercises)
  {
    m.(exercises := StableSort(m.exercises, ExerciseOrder))
  }

  /** Sorting the exercises keeps the module's fields and exercises, and orders them. */
  lemma SortExercisesOrdered(m: Module)
    ensures SortExercises(m).(exercises := m.exercises) == m
    ensures SortedBy(SortExercises(m).exercises, ExerciseOrder)
    ensures multiset(SortExercises(m).exercises) == multiset(m.exercises)
  {
    StableSortSorted(m.exercises, ExerciseOrder, 1);
  }

  /**
   * `[...modules].sort(byOrderIndex)` followed by sorting each module's
   * exercises by `orderIndex`.
   */
  function SortCatalog(ms: seq<Module>): (r: seq<Module>)
    ensures |r| == |ms|
  {
    Map(SortExercises, StableSort(ms, ModuleOrder))
  }

  /**
   * The ordered catalog holds the modules of the input, each with its
   * exercises put in order; modules are in order, and so are the exercises
   * of each module.
   */
  lemma SortCatalogOrdered(ms: seq<Module>)
    ensures SortedBy(SortCatalog(ms), ModuleOrder)
    ensures forall i :: 0 <= i < |ms| ==> SortedBy(SortCatalog(ms)[i].exercises, ExerciseOrder)
    ensures multiset(SortCatalog(ms)) == multiset(Map(SortExercises, ms))
  {
    var sorted := StableSort(ms, ModuleOrder);
    StableSortSorted(ms, ModuleOrder, 1);
    MapPermutation(SortExercises, sorted, ms);
    var r := SortCatalog(ms);
    forall i | 0 <= i < |ms| ensures SortedBy(r[i].exercises, ExerciseOrder) {
      SortExercisesOrdered(sorted[i]);
    }
    assert forall i :: 0 <= i < |r| ==> ModuleOrder(r[i]) == ModuleOrder(sorted[i]);
  }
}
