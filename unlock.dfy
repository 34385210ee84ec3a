/**
 * The unlock rule of `buildUnlockModel` (src/progress/progress.ts). After the
 * catalog is put in order, the exercise at position `ei` of module `mi` is
 * unlocked when it is solved, when it is the first exercise of the first
 * module, when the exercise before it in its module is solved, or when it
 * opens a module and the last exercise of the module before is solved.
 */
module Unlock {
  import opened Catalog

  datatype UnlockModel = UnlockModel(solvedIds: set<int>, unlockedIds: set<int>)

  predicate ValidPos(ms: seq<Module>, mi: int, ei: int) {
    0 <= mi < |ms| && 0 <= ei < |ms[mi].exercises|
  }

  function IdAt(ms: seq<Module>, mi: int, ei: int): int
    requires ValidPos(ms, mi, ei)
  {
    ms[mi].exercises[ei].id
  }

  /** The last exercise of module `mi` exists and is solved. */
  predicate LastSolved(ms: seq<Module>, solved: set<int>, mi: int)
    requires 0 <= mi < |ms|
  {
    var ex := ms[mi].exercises;
    |ex| > 0 && ex[|ex| - 1].id in solved
  }

  /** The four ways an exercise at a position is granted access. */
  predicate UnlockedAt(ms: seq<Module>, solved: set<int>, mi: int, ei: int)
    requires ValidPos(ms, mi, ei)
  {
    || IdAt(ms, mi, ei) in solved
    || (mi == 0 && ei == 0)
    || (ei > 0 && IdAt(ms, mi, ei - 1) in solved)
    || (ei == 0 && mi > 0 && LastSolved(ms, solved, mi - 1))
  }

  /** Ids unlocked among the first `n` exercises of module `mi`. */
  function UnlockedInModule(ms: seq<Module>, solved: set<int>, mi: int, n: int): set<int>
    requires 0 <= mi < |ms| && 0 <= n <= |ms[mi].exercises|
  {
    if n == 0 then {}
    else
      var earlier := UnlockedInModule(ms, solved, mi, n - 1);
      if UnlockedAt(ms, solved, mi, n - 1) then earlier + {IdAt(ms, mi, n - 1)} else earlier
  }

  /** Ids unlocked in the first `m` modules. */
  function UnlockedBefore(ms: seq<Module>, solved: set<int>, m: int): set<int>
    requires 0 <= m <= |ms|
  {
    if m == 0 then {}
    else UnlockedBefore(ms, solved, m - 1) + UnlockedInModule(ms, solved, m - 1, |ms[m - 1].exercises|)
  }

  /** The unlocked ids of an ordered catalog. */
  function Unlocked(ms: seq<Module>, solved: set<int>): set<int> {
    UnlockedBefore(ms, solved, |ms|)
  }

  /** Some position holding `x` is granted access. */
  ghost predicate GrantedSomewhere(ms: seq<Module>, solved: set<int>, x: int) {
    exists mi, ei :: ValidPos(ms, mi, ei) && IdAt(ms, mi, ei) == x && UnlockedAt(ms, solved, mi, ei)
  }

  lemma {:induction false} InModuleMembership(ms: seq<Module>, solved: set<int>, mi: int, n: int, x: int)
    requires 0 <= mi < |ms| && 0 <= n <= |ms[mi].exercises|
    ensures x in UnlockedInModule(ms, solved, mi, n) <==>
      exists ei :: 0 <= ei < n && IdAt(ms, mi, ei) == x && UnlockedAt(ms, solved, mi, ei)
    decreases n
  {
    if n > 0 { InModuleMembership(ms, solved, mi, n - 1, x); }
  }

  lemma {:induction false} BeforeMembership(ms: seq<Module>, solved: set<int>, m: int, x: int)
    requires 0 <= m <= |ms|
    ensures x in UnlockedBefore(ms, solved, m) <==>
      exists mi, ei :: 0 <= mi < m && ValidPos(ms, mi, ei) && IdAt(ms, mi, ei) == x && UnlockedAt(ms, solved, mi, ei)
    decreases m
  {
    if m > 0 {
      BeforeMembership(ms, solved, m - 1, x);
      InModuleMembership(ms, solved, m - 1, |ms[m - 1].exercises|, x);
    }
  }

  /** No other path grants access: an id is unlocked exactly when one of the four rules grants it somewhere. */
  lemma UnlockedIffGranted(ms: seq<Module>, solved: set<int>, x: int)
    ensures x in Unlocked(ms, solved) <==> GrantedSomewhere(ms, solved, x)
  {
    BeforeMembership(ms, solved, |ms|, x);
  }

  /** Only ids of catalog exercises are ever unlocked. */
  lemma UnlockedAreCatalogIds(ms: seq<Module>, solved: set<int>, x: int)
    requires x in Unlocked(ms, solved)
    ensures exists mi, ei :: ValidPos(ms, mi, ei) && IdAt(ms, mi, ei) == x
  {
    UnlockedIffGranted(ms, solved, x);
  }

  /** Every solved exercise of the catalog is unlocked. */
  lemma SolvedAreUnlocked(ms: seq<Module>, solved: set<int>, mi: int, ei: int)
    requires ValidPos(ms, mi, ei) && IdAt(ms, mi, ei) in solved
    ensures IdAt(ms, mi, ei) in Unlocked(ms, solved)
  {
    UnlockedIffGranted(ms, solved, IdAt(ms, mi, ei));
  }

  /** The first exercise of the first module is always unlocked, whatever is solved. */
  lemma FirstAlwaysUnlocked(ms: seq<Module>, solved: set<int>)
    requires |ms| > 0 && |ms[0].exercises| > 0
    ensures IdAt(ms, 0, 0) in Unlocked(ms, solved)
  {
    UnlockedIffGranted(ms, solved, IdAt(ms, 0, 0));
  }

  /** Solving more never locks anything. */
  lemma Monotone(ms: seq<Module>, solved: set<int>, more: set<int>)
    requires solved <= more
    ensures Unlocked(ms, solved) <= Unlocked(ms, more)
  {
    forall x | x in Unlocked(ms, solved) ensures x in Unlocked(ms, more) {
      UnlockedIffGranted(ms, solved, x);
      UnlockedIffGranted(ms, more, x);
      var mi, ei :| ValidPos(ms, mi, ei) && IdAt(ms, mi, ei) == x && UnlockedAt(ms, solved, mi, ei);
      assert UnlockedAt(ms, more, mi, ei);
    }
  }

  /** Exercise ids are unique across the whole catalog. */
  ghost predicate UniqueIds(ms: seq<Module>) {
    forall mi, ei, mj, ej :: ValidPos(ms, mi, ei) && ValidPos(ms, mj, ej) && IdAt(ms, mi, ei) == IdAt(ms, mj, ej)
      ==> mi == mj && ei == ej
  }

  /** Within a module, an unsolved exercise after the first is unlocked exactly when its predecessor is solved. */
  lemma InModuleRule(ms: seq<Module>, solved: set<int>, mi: int, ei: int)
    requires UniqueIds(ms) && ValidPos(ms, mi, ei) && ei > 0 && IdAt(ms, mi, ei) !in solved
    ensures IdAt(ms, mi, ei) in Unlocked(ms, solved) <==> IdAt(ms, mi, ei - 1) in solved
  {
    UnlockedIffGranted(ms, solved, IdAt(ms, mi, ei));
  }

  /**
   * An unsolved exercise opening module `mi > 0` is unlocked exactly when the
   * module before has a last exercise and it is solved: an empty module before
   * it keeps it locked.
   */
  lemma CrossModuleRule(ms: seq<Module>, solved: set<int>, mi: int)
    requires UniqueIds(ms) && ValidPos(ms, mi, 0) && mi > 0 && IdAt(ms, mi, 0) !in solved
    ensures IdAt(ms, mi, 0) in Unlocked(ms, solved) <==> LastSolved(ms, solved, mi - 1)
    ensures |ms[mi - 1].exercises| == 0 ==> IdAt(ms, mi, 0) !in Unlocked(ms, solved)
  {
    UnlockedIffGranted(ms, solved, IdAt(ms, mi, 0));
  }

  /**
   * `buildUnlockModel(modules)`, given the stored solved list: puts the
   * catalog in order, then walks it.
   */
  method BuildUnlockModel(modules: seq<Module>, stored: seq<int>) returns (model: UnlockModel)
    ensures model.solvedIds == set x | x in stored
    ensures model.unlockedIds == Unlocked(SortCatalog(modules), model.solvedIds)
  {
    var solved := set x | x in stored;
    var sorted := SortCatalog(modules);
    var unlocked := WalkCatalog(sorted, solved);
    model := UnlockModel(solved, unlocked);
  }

  /** The nested walk of `buildUnlockModel` over the ordered catalog, module by module, exercise by exercise. */
  method WalkCatalog(sorted: seq<Module>, solved: set<int>) returns (unlocked: set<int>)
    ensures unlocked == Unlocked(sorted, solved)
  {
    unlocked := {};
    for mi := 0 to |sorted|
      invariant unlocked == UnlockedBefore(sorted, solved, mi)
    {
      var ex := sorted[mi].exercises;
      for ei := 0 to |ex|
        invariant unlocked == UnlockedBefore(sorted, solved, mi) + UnlockedInModule(sorted, solved, mi, ei)
      {
        var exo := ex[ei];
        if exo.id in solved {
          unlocked := unlocked + {exo.id};
          continue;
        }
        if mi == 0 && ei == 0 {
          unlocked := unlocked + {exo.id};
          continue;
        }
        if ei > 0 {
          var prev := ex[ei - 1];
          if prev.id in solved {
            unlocked := unlocked + {exo.id};
            continue;
          }
        }
        if ei == 0 && mi > 0 {
          var prevExos := sorted[mi - 1].exercises;
          if |prevExos| > 0 && prevExos[|prevExos| - 1].id in solved {
            unlocked := unlocked + {exo.id};
            continue;
          }
        }
      }
    }
  }

  /** What a two-module catalog M1 = (e1, e2), M2 = (e3) unlocks for a given solved set. */
  lemma TwoModuleUnlocked(e1: Exercise, e2: Exercise, e3: Exercise, m1: Module, m2: Module, s: set<int>)
    requires m1.exercises == [e1, e2] && m2.exercises == [e3]
    ensures Unlocked([m1, m2], s) ==
      {e1.id} + (if e1.id in s || e2.id in s then {e2.id} else {}) +
      (if e2.id in s || e3.id in s then {e3.id} else {})
  {
    var ms := [m1, m2];
    assert UnlockedInModule(ms, s, 0, 1) == {e1.id};
    assert UnlockedInModule(ms, s, 0, 2) == {e1.id} + (if e1.id in s || e2.id in s then {e2.id} else {});
    assert UnlockedInModule(ms, s, 1, 1) == (if e2.id in s || e3.id in s then {e3.id} else {});
    assert UnlockedBefore(ms, s, 1) == UnlockedInModule(ms, s, 0, 2);
  }

  /**
   * The learning path of two modules, M1 = (e1, e2) and M2 = (e3): nothing
   * solved opens e1 only; solving e1 opens e2; solving e2 as well opens e3,
   * whatever the numeric order of the ids.
   */
  lemma TwoModuleWalkthrough(e1: Exercise, e2: Exercise, e3: Exercise, m1: Module, m2: Module)
    requires e1.id != e2.id && e2.id != e3.id && e1.id != e3.id
    requires m1.exercises == [e1, e2] && m2.exercises == [e3]
    ensures Unlocked([m1, m2], {}) == {e1.id}
    ensures Unlocked([m1, m2], {e1.id}) == {e1.id, e2.id}
    ensures Unlocked([m1, m2], {e1.id, e2.id}) == {e1.id, e2.id, e3.id}
  {
    TwoModuleUnlocked(e1, e2, e3, m1, m2, {});
    TwoModuleUnlocked(e1, e2, e3, m1, m2, {e1.id});
    TwoModuleUnlocked(e1, e2, e3, m1, m2, {e1.id, e2.id});
  }
}
