/**
 * Exercise progress (src/progress/progress.ts): the store of solved exercise
 * ids kept under one key of the browser's local storage, and the unlock rule
 * that decides which exercises a learner may open.
 *
 * Local storage is an in-memory map from keys to stored values. A stored text
 * is represented by what `JSON.parse` makes of it: `Parsed(v)`, or
 * `Unparseable` when parsing throws (the empty text included).
 */
module Progress {
  import opened Wrappers
  import opened Js
  import opened Catalog

  const KeySolved: string := "ccs_solved_exercise_ids_v1"

  datatype StoredValue = Parsed(value: Json) | Unparseable

  function Lookup(items: map<string, StoredValue>, key: string): Option<StoredValue> {
    if key in items then Some(items[key]) else None
  }

  /** Some element of `xs` converts with `Number` to the positive `n`. */
  ghost predicate PositiveAt(xs: seq<Json>, n: int) {
    exists i :: 0 <= i < |xs| && ToNumber(xs[i]) == Finite(n) && n > 0
  }

  lemma PositiveAtCons(xs: seq<Json>)
    requires xs != []
    ensures forall n :: PositiveAt(xs, n) <==> (ToNumber(xs[0]) == Finite(n) && n > 0) || PositiveAt(xs[1..], n)
  {
    forall n | PositiveAt(xs[1..], n) ensures PositiveAt(xs, n) {
      var i :| 0 <= i < |xs[1..]| && ToNumber(xs[1..][i]) == Finite(n) && n > 0;
      assert xs[i + 1] == xs[1..][i];
    }
    forall n | PositiveAt(xs, n) && !(ToNumber(xs[0]) == Finite(n) && n > 0) ensures PositiveAt(xs[1..], n) {
      var i :| 0 <= i < |xs| && ToNumber(xs[i]) == Finite(n) && n > 0;
      assert i != 0;
      assert xs[1..][i - 1] == xs[i];
    }
  }

  /** `.map(Number).filter(Number.isFinite).filter(n => n > 0)`. */
  function PositiveIds(xs: seq<Json>): (ids: seq<int>)
    ensures |ids| <= |xs|
    ensures forall i :: 0 <= i < |ids| ==> ids[i] > 0
    ensures forall n :: n in ids <==> PositiveAt(xs, n)
  {
    if xs == [] then []
    else
      var rest := PositiveIds(xs[1..]);
      PositiveAtCons(xs);
      match ToNumber(xs[0])
      case Finite(n) => if n > 0 then [n] + rest else rest
      case NonFinite => rest
  }

  /**
   * `getSolvedExerciseIds`: the stored ids that are finite and positive; the
   * empty list when the key is absent, the text does not parse or the value
   * is not an array.
   */
  function LoadSolved(raw: Option<StoredValue>): (ids: seq<int>)
    ensures forall i :: 0 <= i < |ids| ==> ids[i] > 0
    ensures (raw.None? || raw == Some(Unparseable) || !raw.value.value.JArr?) ==> ids == []
    ensures raw.Some? && raw.value.Parsed? && raw.value.value.JArr? ==>
      forall n :: n in ids <==> PositiveAt(raw.value.value.items, n)
  {
    match raw
    case Some(Parsed(JArr(xs))) => PositiveIds(xs)
    case _ => []
  }

  predicate NoDuplicates(s: seq<int>) {
    forall i, j :: 0 <= i < j < |s| ==> s[i] != s[j]
  }

  /** `Array.from(new Set(s))`: every value once, in order of first appearance. */
  function Dedup(s: seq<int>): (r: seq<int>)
    ensures NoDuplicates(r)
    ensures forall x :: x in r <==> x in s
    ensures |r| <= |s|
  {
    if s == [] then []
    else
      var d := Dedup(s[..|s| - 1]);
      assert forall x :: x in s <==> x in s[..|s| - 1] || x == s[|s| - 1] by {
        assert s == s[..|s| - 1] + [s[|s| - 1]];
      }
      if s[|s| - 1] in d then d else d + [s[|s| - 1]]
  }

  lemma {:induction false} DedupOfDistinct(s: seq<int>)
    requires NoDuplicates(s)
    ensures Dedup(s) == s
    decreases |s|
  {
    if s != [] {
      DedupOfDistinct(s[..|s| - 1]);
      assert s[|s| - 1] !in s[..|s| - 1];
      assert s == s[..|s| - 1] + [s[|s| - 1]];
    }
  }

  /** `JSON.stringify(ids)` read back by `JSON.parse`: an array of numbers. */
  function Encode(ids: seq<int>): (v: Json)
    ensures v.JArr? && |v.items| == |ids|
    ensures forall i :: 0 <= i < |ids| ==> v.items[i] == JNum(ids[i])
  {
    JArr(Map(n => JNum(n), ids))
  }

  /** What loading gives back an id list that was stored: itself, when its ids are positive. */
  lemma {:induction false} LoadEncoded(ids: seq<int>)
    requires forall i :: 0 <= i < |ids| ==> ids[i] > 0
    ensures LoadSolved(Some(Parsed(Encode(ids)))) == ids
    decreases |ids|
  {
    if ids != [] {
      LoadEncoded(ids[1..]);
      assert Encode(ids).items[1..] == Encode(ids[1..]).items;
    }
  }

  /** The stored list after `markExerciseSolved(id)` for a valid id. */
  function Marked(stored: seq<int>, id: int): (r: seq<int>)
    ensures NoDuplicates(r)
    ensures forall x :: x in r <==> x in stored || x == id
  {
    Dedup(stored + [id])
  }

  predicate IsValidId(id: Num) {
    id.Finite? && id.value > 0
  }

  /** Local storage after `markExerciseSolved(id)`. */
  function MarkItems(items: map<string, StoredValue>, id: Num): (r: map<string, StoredValue>)
    ensures !IsValidId(id) ==> r == items
    ensures r.Keys == if IsValidId(id) then items.Keys + {KeySolved} else items.Keys
    ensures forall k :: k in items && k != KeySolved ==> r[k] == items[k]
  {
    if !IsValidId(id) then items
    else items[KeySolved := Parsed(Encode(Marked(LoadSolved(Lookup(items, KeySolved)), id.value)))]
  }

  lemma MarkedPositive(stored: seq<int>, id: int)
    requires forall i :: 0 <= i < |stored| ==> stored[i] > 0
    requires id > 0
    ensures forall i :: 0 <= i < |Marked(stored, id)| ==> Marked(stored, id)[i] > 0
  {
    var r := Marked(stored, id);
    forall i | 0 <= i < |r| ensures r[i] > 0 {
      assert r[i] in stored || r[i] == id;
    }
  }

  lemma MarkedAgain(stored: seq<int>, id: int)
    requires NoDuplicates(stored) && id in stored
    ensures Marked(stored, id) == stored
  {
    assert (stored + [id])[..|stored|] == stored;
    DedupOfDistinct(stored);
  }

  /** The id list stored by marking is what the next load reads back. */
  lemma LoadAfterMark(items: map<string, StoredValue>, id: Num)
    requires IsValidId(id)
    ensures LoadSolved(Lookup(MarkItems(items, id), KeySolved)) ==
      Marked(LoadSolved(Lookup(items, KeySolved)), id.value)
  {
    var before := LoadSolved(Lookup(items, KeySolved));
    MarkedPositive(before, id.value);
    LoadEncoded(Marked(before, id.value));
  }

  /** Marking keeps every id already stored and adds the new one, and nothing else. */
  lemma MarkAdds(items: map<string, StoredValue>, id: Num)
    requires IsValidId(id)
    ensures forall x :: x in LoadSolved(Lookup(MarkItems(items, id), KeySolved)) <==>
      x in LoadSolved(Lookup(items, KeySolved)) || x == id.value
  {
    LoadAfterMark(items, id);
  }

  /** Marking the same exercise twice leaves the same storage as marking it once. */
  lemma MarkIdempotent(items: map<string, StoredValue>, id: Num)
    ensures MarkItems(MarkItems(items, id), id) == MarkItems(items, id)
  {
    if IsValidId(id) {
      var once := Marked(LoadSolved(Lookup(items, KeySolved)), id.value);
      var m1 := MarkItems(items, id);
      LoadAfterMark(items, id);
      MarkedAgain(once, id.value);
      MarkAgainSame(m1, id, once);
    }
  }

  /** Marking again an id that the stored list already holds writes back what is stored. */
  lemma MarkAgainSame(items: map<string, StoredValue>, id: Num, stored: seq<int>)
    requires IsValidId(id) && KeySolved in items && items[KeySolved] == Parsed(Encode(stored))
    requires LoadSolved(Lookup(items, KeySolved)) == stored && Marked(stored, id.value) == stored
    ensures MarkItems(items, id) == items
  {
  }

  class ProgressStore {
    var items: map<string, StoredValue>

    constructor ()
      ensures items == map[]
    {
      items := map[];
    }

    /** `getSolvedExerciseIds`. */
    function SolvedIds(): (ids: seq<int>)
      reads this
      ensures forall i :: 0 <= i < |ids| ==> ids[i] > 0
      ensures KeySolved !in items ==> ids == []
    {
      LoadSolved(Lookup(items, KeySolved))
    }

    /** `isExerciseSolved`. */
    predicate IsExerciseSolved(id: int)
      reads this
      ensures IsExerciseSolved(id) ==> id > 0
      ensures KeySolved !in items ==> !IsExerciseSolved(id)
    {
      id in SolvedIds()
    }

    /** `markExerciseSolved`: ignores an id that is not finite and positive. */
    method MarkExerciseSolved(id: Num)
      modifies this
      ensures items == MarkItems(old(items), id)
      ensures IsValidId(id) ==> forall x :: IsExerciseSolved(x) <==> old(IsExerciseSolved(x)) || x == id.value
      ensures !IsValidId(id) ==> items == old(items)
    {
      if !id.Finite? || id.value <= 0 {
        return;
      }
      var solved := Dedup(SolvedIds() + [id.value]);
      MarkAdds(items, id);
      items := items[KeySolved := Parsed(Encode(solved))];
    }

    /** `resetProgress`: removes the key, so that loading yields nothing. */
    method ResetProgress()
      modifies this
      ensures items == old(items) - {KeySolved}
      ensures SolvedIds() == []
    {
      items := items - {KeySolved};
    }
  }
}
