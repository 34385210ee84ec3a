/**
 * The fragment-reordering puzzle (src/components/PuzzleBoard.tsx): the
 * Fisher–Yates shuffle, the whitespace-insensitive answer check, and the
 * board's state (`tiles`, `selectedIdx`, `status`) driven by drag and drop,
 * the keyboard and the arrow buttons.
 *
 * `decodeHtmlEntities` needs a DOM; it is a parameter `decode` here.
 * `Math.random()` is a sequence of draws in [0, 1).
 */
module Puzzle {
  import opened Wrappers
  import opened Js

  /** Index chosen by `Math.floor(r * (i + 1))` for a draw `r` in [0, 1): in [0, i]. */
  function PickIndex(r: real, i: nat): (j: nat)
    requires 0.0 <= r < 1.0
    ensures j <= i
  {
    var n := (i + 1) as real;
    var x := r * n;
    ScaledBelow(r, n);
    x.Floor
  }

  /** A draw in [0, 1) scales `n` to somewhere in [0, n). */
  lemma ScaledBelow(r: real, n: real)
    requires 0.0 <= r < 1.0 && 1.0 <= n
    ensures 0.0 <= r * n < n
  {
    var gap := 1.0 - r;
    assert 0.0 < gap;
    assert gap <= gap * n by { assert gap * n - gap == gap * (n - 1.0); assert 0.0 <= gap * (n - 1.0); }
    assert n - r * n == gap * n;
    assert 0.0 <= r * n;
  }

  /** `shuffle(arr)`: Fisher–Yates on a copy; draw `k` serves position `|arr| - 1 - k`. */
  method Shuffle<T>(arr: seq<T>, draws: seq<real>) returns (r: seq<T>)
    requires |arr| <= |draws| + 1
    requires forall k :: 0 <= k < |draws| ==> 0.0 <= draws[k] < 1.0
    ensures |r| == |arr|
    ensures multiset(r) == multiset(arr)
  {
    var a := new T[|arr|](k requires 0 <= k < |arr| => arr[k]);
    assert a[..] == arr;
    var i := a.Length - 1;
    while i > 0
      invariant -1 <= i < a.Length
      invariant multiset(a[..]) == multiset(arr)
    {
      var j := PickIndex(draws[a.Length - 1 - i], i);
      a[i], a[j] := a[j], a[i];
      i := i - 1;
    }
    r := a[..];
  }

  /** The three narrow or no-break spaces the code turns into plain spaces first. */
  predicate IsNarrowSpace(c: char) {
    c == '\U{A0}' || c == '\U{202F}' || c == '\U{2009}'
  }

  /** `.replace(/[   ]/g, " ")`. */
  function WidenSpaces(s: string): (r: string)
    ensures |r| == |s|
    ensures forall i :: 0 <= i < |s| ==> r[i] == (if IsNarrowSpace(s[i]) then ' ' else s[i])
  {
    seq(|s|, i requires 0 <= i < |s| => if IsNarrowSpace(s[i]) then ' ' else s[i])
  }

  /** `.replace(/\s+/g, "")`: the characters of `s` that are not white space, in order. */
  function RemoveSpaces(s: string): (r: string)
    ensures forall i :: 0 <= i < |r| ==> !IsSpace(r[i])
    ensures |r| <= |s|
    ensures |s| == 1 ==> r == if IsSpace(s[0]) then [] else s
  {
    if s == [] then []
    else (if IsSpace(s[0]) then [] else [s[0]]) + RemoveSpaces(s[1..])
  }

  /** `normalize(input)`: decode entities, drop every white-space character, trim. */
  function Normalize(input: string, decode: string -> string): (r: string)
    ensures forall i :: 0 <= i < |r| ==> !IsSpace(r[i])
    ensures forall i :: 0 <= i < |r| ==> r[i] != '\U{A0}' && r[i] != '\U{202F}' && r[i] != '\U{2009}'
  {
    Trim(RemoveSpaces(WidenSpaces(decode(input))))
  }

  /** Removing white space works piece by piece: what stays of `a + b` is what stays of `a`, then of `b`. */
  lemma {:induction false} RemoveSpacesAppend(a: string, b: string)
    ensures RemoveSpaces(a + b) == RemoveSpaces(a) + RemoveSpaces(b)
    decreases |a|
  {
    if a != [] {
      assert (a + b)[0] == a[0] && (a + b)[1..] == a[1..] + b;
      RemoveSpacesAppend(a[1..], b);
    } else {
      assert a + b == b;
    }
  }

  lemma {:induction false} RemoveSpacesWiden(s: string)
    ensures RemoveSpaces(WidenSpaces(s)) == RemoveSpaces(s)
    decreases |s|
  {
    if s != [] {
      RemoveSpacesWiden(s[1..]);
      assert WidenSpaces(s)[1..] == WidenSpaces(s[1..]);
    }
  }

  lemma TrimNoSpaces(s: string)
    requires forall i :: 0 <= i < |s| ==> !IsSpace(s[i])
    ensures Trim(s) == s
  {
  }

  /**
   * The pipeline is the same as keeping the non-space characters of the
   * decoded text: widening the narrow spaces and trimming change nothing.
   */
  lemma NormalizeIsRemoveSpaces(input: string, decode: string -> string)
    ensures Normalize(input, decode) == RemoveSpaces(decode(input))
  {
    RemoveSpacesWiden(decode(input));
    TrimNoSpaces(RemoveSpaces(decode(input)));
  }

  /** Removing white space from a text without any changes nothing. */
  lemma {:induction false} RemoveSpacesOfClean(s: string)
    requires forall i :: 0 <= i < |s| ==> !IsSpace(s[i])
    ensures RemoveSpaces(s) == s
    decreases |s|
  {
    if s != [] { RemoveSpacesOfClean(s[1..]); }
  }

  /** Normalising twice is normalising once, when entity decoding leaves decoded text alone. */
  lemma NormalizeIdempotent(input: string, decode: string -> string)
    requires decode(Normalize(input, decode)) == Normalize(input, decode)
    ensures Normalize(Normalize(input, decode), decode) == Normalize(input, decode)
  {
    var n := Normalize(input, decode);
    NormalizeIsRemoveSpaces(n, decode);
    RemoveSpacesOfClean(n);
  }

  /** `tiles.join("")`. */
  function Concat(parts: seq<string>): (r: string)
    ensures parts == [] ==> r == []
    ensures |parts| == 1 ==> r == parts[0]
  {
    if parts == [] then [] else parts[0] + Concat(parts[1..])
  }

  /** Joining two lists of fragments is joining each, then the two results. */
  lemma {:induction false} ConcatAppend(a: seq<string>, b: seq<string>)
    ensures Concat(a + b) == Concat(a) + Concat(b)
    decreases |a|
  {
    if a == [] {
      assert a + b == b;
    } else {
      assert (a + b)[0] == a[0] && (a + b)[1..] == a[1..] + b;
      ConcatAppend(a[1..], b);
    }
  }

  /**
   * The comparison in `check`: the normalised answer against the normalised
   * `tiles.join("")`. White space anywhere, in a fragment or in the answer,
   * does not matter: only the decoded non-space characters are compared.
   */
  predicate IsCorrect(tiles: seq<string>, orderedCode: string, decode: string -> string)
    ensures IsCorrect(tiles, orderedCode, decode) <==>
      RemoveSpaces(decode(orderedCode)) == RemoveSpaces(decode(Concat(tiles)))
  {
    NormalizeIsRemoveSpaces(orderedCode, decode);
    NormalizeIsRemoveSpaces(Concat(tiles), decode);
    Normalize(orderedCode, decode) == Normalize(Concat(tiles), decode)
  }

  datatype Status = Idle | Ok | Wrong

  /** What the board shows: the tiles in their current order, the selected tile, the verdict. */
  datatype Board = Board(tiles: seq<string>, selected: Option<int>, status: Status)

  /** A selected index always points at a tile. */
  predicate ValidBoard(b: Board) {
    b.selected.Some? ==> 0 <= b.selected.value < |b.tiles|
  }

  /** `copy.splice(from, 1)`. */
  function RemoveAt(s: seq<string>, k: int): (r: seq<string>)
    requires 0 <= k < |s|
    ensures |r| == |s| - 1
  {
    s[..k] + s[k + 1..]
  }

  /** `copy.splice(to, 0, item)`. */
  function InsertAt(s: seq<string>, k: int, x: string): (r: seq<string>)
    requires 0 <= k <= |s|
    ensures |r| == |s| + 1 && r[k] == x
  {
    s[..k] + [x] + s[k..]
  }

  /**
   * `move(from, to)`: nothing happens when `to` is outside the board or equals
   * `from`; otherwise the tile at `from` is taken out and put back at `to`,
   * the selection follows it, and the verdict is cleared.
   */
  function MoveBoard(b: Board, from: int, to: int): (r: Board)
    requires 0 <= from < |b.tiles|
    ensures to < 0 || to >= |b.tiles| || from == to ==> r == b
    ensures 0 <= to < |b.tiles| && from != to ==>
      && |r.tiles| == |b.tiles|
      && multiset(r.tiles) == multiset(b.tiles)
      && r.tiles[to] == b.tiles[from]
      && RemoveAt(r.tiles, to) == RemoveAt(b.tiles, from)
      && r.selected == Some(to)
      && r.status == Idle
  {
    if to < 0 || to >= |b.tiles| then b
    else if from == to then b
    else
      var item := b.tiles[from];
      var rest := RemoveAt(b.tiles, from);
      var tiles := InsertAt(rest, to, item);
      assert b.tiles == b.tiles[..from] + [item] + b.tiles[from + 1..];
      assert RemoveAt(tiles, to) == rest by {
        assert tiles[..to] == rest[..to];
        assert tiles[to + 1..] == rest[to..];
      }
      assert multiset(tiles) == multiset(rest) + multiset{item};
      Board(tiles, Some(to), Idle)
  }

  /** `select(idx)`. */
  function SelectBoard(b: Board, idx: int): (r: Board)
    ensures r.tiles == b.tiles && r.status == b.status && r.selected == Some(idx)
  {
    b.(selected := Some(idx))
  }

  /** `deselect()`. */
  function DeselectBoard(b: Board): (r: Board)
    ensures r.tiles == b.tiles && r.status == b.status && r.selected == None
  {
    b.(selected := None)
  }

  datatype Key = Enter | Escape | ArrowUp | ArrowDown | ArrowLeft | ArrowRight | OtherKey

  /** The verdict `check` records: `correct` is the outcome of the comparison. */
  function Checked(b: Board, correct: bool): (r: Board)
    ensures r.tiles == b.tiles && r.selected == b.selected
    ensures r.status == if correct then Status.Ok else Wrong
  {
    b.(status := if correct then Status.Ok else Wrong)
  }

  /** Whether a key press runs `check`: Enter on a non-empty board. */
  predicate KeyRunsCheck(b: Board, key: Key) {
    |b.tiles| > 0 && key == Enter
  }

  /** `onContainerKeyDown`; `correct` is what `check` would decide for the current tiles. */
  function KeyDown(b: Board, key: Key, correct: bool): (r: Board)
    requires ValidBoard(b)
    ensures ValidBoard(r)
    ensures |b.tiles| == 0 ==> r == b
    ensures |b.tiles| > 0 && key == Enter ==> r == Checked(b, correct)
    ensures |b.tiles| > 0 && key == Escape ==> r == DeselectBoard(b)
    ensures |b.tiles| > 0 && b.selected.None? && (key == ArrowUp || key == ArrowDown) ==> r == SelectBoard(b, 0)
    ensures b.selected.None? && (key == ArrowLeft || key == ArrowRight || key == OtherKey) ==> r == b
    ensures key == OtherKey ==> r == b
    ensures multiset(r.tiles) == multiset(b.tiles)
  {
    if |b.tiles| == 0 then b
    else if key == Enter then Checked(b, correct)
    else if key == Escape then DeselectBoard(b)
    else if b.selected.None? && (key == ArrowUp || key == ArrowDown) then SelectBoard(b, 0)
    else if b.selected.None? then b
    else ArrowStep(b, key)
  }

  /** The arrow keys once a tile is selected: Up and Down move the selection, Left and Right the tile. */
  function ArrowStep(b: Board, key: Key): (r: Board)
    requires ValidBoard(b) && b.selected.Some?
    ensures ValidBoard(r)
    ensures multiset(r.tiles) == multiset(b.tiles)
    ensures key == ArrowUp || key == ArrowDown ==> r.tiles == b.tiles
  {
    var s := b.selected.value;
    match key
    case ArrowUp => if s > 0 then SelectBoard(b, s - 1) else b
    case ArrowDown => if s < |b.tiles| - 1 then SelectBoard(b, s + 1) else b
    case ArrowLeft => if s > 0 then MoveBoard(b, s, s - 1) else b
    case ArrowRight => if s < |b.tiles| - 1 then MoveBoard(b, s, s + 1) else b
    case _ => b
  }

  /** Up and Down move the selection by one, never past an end, and never reorder the tiles. */
  lemma UpDownClamped(b: Board, key: Key, correct: bool)
    requires ValidBoard(b) && b.selected.Some? && (key == ArrowUp || key == ArrowDown)
    ensures KeyDown(b, key, correct).tiles == b.tiles
    ensures KeyDown(b, key, correct).selected ==
      Some(if key == ArrowUp then Max(b.selected.value - 1, 0) else Min(b.selected.value + 1, |b.tiles| - 1))
  {
  }

  /**
   * Left and Right move the selected tile one place when it is not at that
   * end, and the selection stays on the tile that moved.
   */
  lemma LeftRightCarriesSelection(b: Board, key: Key, correct: bool)
    requires ValidBoard(b) && b.selected.Some? && (key == ArrowLeft || key == ArrowRight)
    ensures var s := b.selected.value;
      var to := if key == ArrowLeft then s - 1 else s + 1;
      var r := KeyDown(b, key, correct);
      if 0 <= to < |b.tiles| then
        r.selected == Some(to) && r.tiles[to] == b.tiles[s] && RemoveAt(r.tiles, to) == RemoveAt(b.tiles, s)
      else r == b
  {
  }

  function Max(x: int, y: int): int { if x < y then y else x }
  function Min(x: int, y: int): int { if x < y then x else y }

  /**
   * Moving a tile one place to either side swaps it with its neighbour: whichever of the two
   * tiles at `i` and `i + 1` moved, the other tiles keep their places.
   */
  lemma NeighbourSwap(s: seq<string>, t: seq<string>, i: int)
    requires 0 <= i < |s| - 1 && |t| == |s|
    requires (t[i] == s[i + 1] && RemoveAt(t, i) == RemoveAt(s, i + 1))
          || (t[i + 1] == s[i] && RemoveAt(t, i + 1) == RemoveAt(s, i))
    ensures t == s[i := s[i + 1]][i + 1 := s[i]]
  {
    forall k | 0 <= k < |s|
      ensures t[k] == s[i := s[i + 1]][i + 1 := s[i]][k]
    {
      if t[i] == s[i + 1] && RemoveAt(t, i) == RemoveAt(s, i + 1) {
        if k < i {
          assert t[k] == RemoveAt(t, i)[k] == RemoveAt(s, i + 1)[k];
        } else if k > i {
          assert t[k] == RemoveAt(t, i)[k - 1] == RemoveAt(s, i + 1)[k - 1];
        }
      } else {
        if k < i + 1 {
          assert t[k] == RemoveAt(t, i + 1)[k] == RemoveAt(s, i)[k];
        } else if k > i + 1 {
          assert t[k] == RemoveAt(t, i + 1)[k - 1] == RemoveAt(s, i)[k - 1];
        }
      }
    }
  }

  /** The "←" button of the tile at `idx`: move it left when possible, then select its new place. */
  function LeftButtonBoard(b: Board, idx: int): (r: Board)
    requires 0 <= idx < |b.tiles|
    ensures ValidBoard(r) && |r.tiles| == |b.tiles|
    ensures multiset(r.tiles) == multiset(b.tiles)
    ensures idx == 0 ==> r == SelectBoard(b, 0)
    ensures idx > 0 ==> r.tiles[idx - 1] == b.tiles[idx] && r.selected == Some(idx - 1)
    ensures idx > 0 ==> r.tiles == b.tiles[idx - 1 := b.tiles[idx]][idx := b.tiles[idx - 1]] && r.status == Idle
  {
    var moved := if idx > 0 then MoveBoard(b, idx, idx - 1) else b;
    assert idx > 0 ==> moved.tiles == b.tiles[idx - 1 := b.tiles[idx]][idx := b.tiles[idx - 1]] by {
      if idx > 0 { NeighbourSwap(b.tiles, moved.tiles, idx - 1); }
    }
    SelectBoard(moved, Max(0, idx - 1))
  }

  /** The "→" button of the tile at `idx`: move it right when possible, then select its new place. */
  function RightButtonBoard(b: Board, idx: int): (r: Board)
    requires 0 <= idx < |b.tiles|
    ensures ValidBoard(r) && |r.tiles| == |b.tiles|
    ensures multiset(r.tiles) == multiset(b.tiles)
    ensures idx == |b.tiles| - 1 ==> r == SelectBoard(b, idx)
    ensures idx < |b.tiles| - 1 ==> r.tiles[idx + 1] == b.tiles[idx] && r.selected == Some(idx + 1)
    ensures idx < |b.tiles| - 1 ==> r.tiles == b.tiles[idx + 1 := b.tiles[idx]][idx := b.tiles[idx + 1]] && r.status == Idle
  {
    var moved := if idx < |b.tiles| - 1 then MoveBoard(b, idx, idx + 1) else b;
    assert idx < |b.tiles| - 1 ==> moved.tiles == b.tiles[idx + 1 := b.tiles[idx]][idx := b.tiles[idx + 1]] by {
      if idx < |b.tiles| - 1 { NeighbourSwap(b.tiles, moved.tiles, idx); }
    }
    SelectBoard(moved, Min(|b.tiles| - 1, idx + 1))
  }

  /** The lesson the board shows: its title, fragments and answer. */
  datatype Lesson = Lesson(title: string, codeParts: seq<string>, orderedCode: string)

  /** Whether the reset effect runs when the shown lesson changes from `prev` to `next`: only on a new title. */
  predicate EffectReruns(prev: Lesson, next: Lesson) {
    prev.title != next.title
  }

  /**
   * Two exercises with the same title but different fragments: the effect
   * does not run between them, so the board keeps fragments of the first.
   */
  method SameTitleKeepsStaleTiles() returns (b: PuzzleBoard)
    ensures !b.TilesMatchLesson()
  {
    var first := Lesson("Exercice", ["a"], "a");
    var second := Lesson("Exercice", ["b"], "b");
    b := new PuzzleBoard(first, s => s, []);
    b.ResetForLesson(second, []);
    assert multiset(b.tiles) == multiset{"a"};
    assert "a" !in multiset(second.codeParts);
  }

  /** The component: the board state, the tile being dragged, and the answer check. */
  class PuzzleBoard {
    var lesson: Lesson
    var tiles: seq<string>
    var status: Status
    var selectedIdx: Option<int>
    var draggingFrom: Option<int>
    const decode: string -> string

    function State(): Board
      reads this
    {
      Board(tiles, selectedIdx, status)
    }

    /** The selection and the dragged tile point at tiles. */
    predicate Valid()
      reads this
    {
      ValidBoard(State()) && (draggingFrom.Some? ==> 0 <= draggingFrom.value < |tiles|)
    }

    /** Mounting with a lesson runs the reset effect. */
    constructor (lesson: Lesson, decode: string -> string, draws: seq<real>)
      requires |lesson.codeParts| <= |draws| + 1
      requires forall k :: 0 <= k < |draws| ==> 0.0 <= draws[k] < 1.0
      ensures Valid() && this.lesson == lesson && this.decode == decode
      ensures multiset(tiles) == multiset(lesson.codeParts)
      ensures status == Idle && selectedIdx == None && draggingFrom == None
    {
      var shuffled := Shuffle(lesson.codeParts, draws);
      this.lesson := lesson;
      this.decode := decode;
      tiles := shuffled;
      status := Idle;
      selectedIdx := None;
      draggingFrom := None;
    }

    /** The tiles are an arrangement of the lesson's fragments. */
    predicate TilesMatchLesson()
      reads this
    {
      multiset(tiles) == multiset(lesson.codeParts)
    }

    /**
     * The effect as written: it depends on `[lesson.title]` only, so a new
     * lesson with a new title gets fresh shuffled tiles, a cleared verdict and
     * no selection or drag, while a new lesson with the same title keeps the
     * old board.
     */
    method ResetForLesson(next: Lesson, draws: seq<real>)
      requires Valid()
      requires |next.codeParts| <= |draws| + 1
      requires forall k :: 0 <= k < |draws| ==> 0.0 <= draws[k] < 1.0
      modifies this
      ensures Valid() && lesson == next
      ensures EffectReruns(old(lesson), next) ==>
        multiset(tiles) == multiset(next.codeParts) &&
        status == Idle && selectedIdx == None && draggingFrom == None
      ensures !EffectReruns(old(lesson), next) ==>
        tiles == old(tiles) && status == old(status) &&
        selectedIdx == old(selectedIdx) && draggingFrom == old(draggingFrom)
    {
      if EffectReruns(lesson, next) {
        tiles := Shuffle(next.codeParts, draws);
        status := Idle;
        draggingFrom := None;
        selectedIdx := None;
      }
      lesson := next;
    }

    /**
     * The lesson change as intended: any change of lesson resets the board
     * (as keying the component by the exercise would), so the tiles are
     * always an arrangement of the shown lesson's fragments.
     */
    method ChangeLesson(next: Lesson, draws: seq<real>)
      requires Valid() && TilesMatchLesson()
      requires |next.codeParts| <= |draws| + 1
      requires forall k :: 0 <= k < |draws| ==> 0.0 <= draws[k] < 1.0
      modifies this
      ensures Valid() && lesson == next && TilesMatchLesson()
      ensures next != old(lesson) ==>
        status == Idle && selectedIdx == None && draggingFrom == None
      ensures next == old(lesson) ==>
        tiles == old(tiles) && status == old(status) &&
        selectedIdx == old(selectedIdx) && draggingFrom == old(draggingFrom)
    {
      if next != lesson {
        tiles := Shuffle(next.codeParts, draws);
        status := Idle;
        draggingFrom := None;
        selectedIdx := None;
      }
      lesson := next;
    }

    /** The "Mélanger" button: the lesson's fragments shuffled again, verdict and selection cleared. */
    method ShuffleButton(draws: seq<real>)
      requires Valid()
      requires |lesson.codeParts| <= |draws| + 1
      requires forall k :: 0 <= k < |draws| ==> 0.0 <= draws[k] < 1.0
      modifies this
      ensures multiset(tiles) == multiset(lesson.codeParts)
      ensures status == Idle && selectedIdx == None
      ensures lesson == old(lesson) && draggingFrom == old(draggingFrom)
      ensures draggingFrom.None? ==> Valid()
      ensures old(TilesMatchLesson()) ==> Valid() && TilesMatchLesson()
    {
      tiles := Shuffle(lesson.codeParts, draws);
      status := Idle;
      selectedIdx := None;
    }

    method Move(from: int, to: int)
      requires Valid() && 0 <= from < |tiles|
      modifies this
      ensures Valid()
      ensures State() == MoveBoard(old(State()), from, to)
      ensures lesson == old(lesson) && draggingFrom == old(draggingFrom)
    {
      if to < 0 || to >= |tiles| {
        return;
      }
      if from == to {
        return;
      }
      var item := tiles[from];
      var rest := tiles[..from] + tiles[from + 1..];
      tiles := rest[..to] + [item] + rest[to..];
      status := Idle;
      selectedIdx := Some(to);
    }

    /** `check()`: records the verdict; the result says whether `onSolved` is called. */
    method Check() returns (solved: bool)
      modifies this
      ensures solved == IsCorrect(tiles, lesson.orderedCode, decode)
      ensures State() == Checked(old(State()), solved)
      ensures lesson == old(lesson) && draggingFrom == old(draggingFrom)
      ensures old(Valid()) ==> Valid()
    {
      var t, o := tiles, lesson.orderedCode;
      solved := IsCorrect(t, o, decode);
      SetVerdict(solved);
    }

    /** Records the verdict of a check in the status line. */
    method SetVerdict(ok: bool)
      modifies this
      ensures State() == Checked(old(State()), ok)
      ensures lesson == old(lesson) && draggingFrom == old(draggingFrom)
      ensures old(Valid()) ==> Valid()
    {
      status := if ok then Status.Ok else Wrong;
    }

    method Select(idx: int)
      requires Valid() && 0 <= idx < |tiles|
      modifies this
      ensures Valid() && State() == SelectBoard(old(State()), idx)
      ensures lesson == old(lesson) && draggingFrom == old(draggingFrom)
    {
      selectedIdx := Some(idx);
    }

    method Deselect()
      requires Valid()
      modifies this
      ensures Valid() && State() == DeselectBoard(old(State()))
      ensures lesson == old(lesson) && draggingFrom == old(draggingFrom)
    {
      selectedIdx := None;
    }

    /** `onDragStart(idx)`: remembers the dragged tile, selects it, clears the verdict. */
    method OnDragStart(idx: int)
      requires Valid() && 0 <= idx < |tiles|
      modifies this
      ensures Valid() && draggingFrom == Some(idx)
      ensures State() == Board(old(tiles), Some(idx), Idle) && lesson == old(lesson)
    {
      draggingFrom := Some(idx);
      status := Idle;
      selectedIdx := Some(idx);
    }

    /** `onDragEnd()`. */
    method OnDragEnd()
      requires Valid()
      modifies this
      ensures Valid() && draggingFrom == None
      ensures State() == old(State()) && lesson == old(lesson)
    {
      draggingFrom := None;
    }

    /** `onDrop(idx)`: moves the dragged tile to `idx`; without a drag in progress, nothing moves. */
    method OnDrop(idx: int)
      requires Valid()
      modifies this
      ensures Valid() && draggingFrom == None && lesson == old(lesson)
      ensures old(draggingFrom).None? ==> State() == old(State())
      ensures old(draggingFrom).Some? ==> State() == MoveBoard(old(State()), old(draggingFrom).value, idx)
    {
      var from := draggingFrom;
      draggingFrom := None;
      if from.None? {
        return;
      }
      Move(from.value, idx);
    }

    /** `onContainerKeyDown`; the result says whether `onSolved` is called. */
    method OnKeyDown(key: Key) returns (solved: bool)
      requires Valid()
      modifies this
      ensures Valid() && lesson == old(lesson) && draggingFrom == old(draggingFrom)
      ensures State() == KeyDown(old(State()), key, IsCorrect(old(tiles), lesson.orderedCode, decode))
      ensures solved <==> KeyRunsCheck(old(State()), key) && IsCorrect(old(tiles), lesson.orderedCode, decode)
    {
      solved := false;
      if |tiles| == 0 {
        return;
      }
      if key == Enter {
        solved := Check();
        return;
      }
      if key == Escape {
        Deselect();
        return;
      }
      if selectedIdx.None? && (key == ArrowUp || key == ArrowDown) {
        Select(0);
        return;
      }
      if selectedIdx.None? {
        return;
      }
      ArrowOnSelection(key);
    }

    /** The arrow keys once a tile is selected. */
    method ArrowOnSelection(key: Key)
      requires Valid() && selectedIdx.Some? && key != Enter && key != Escape
      modifies this
      ensures Valid() && lesson == old(lesson) && draggingFrom == old(draggingFrom)
      ensures State() == ArrowStep(old(State()), key)
    {
      if key == ArrowUp || key == ArrowDown {
        SelectNeighbour(key);
      } else if key == ArrowLeft || key == ArrowRight {
        MoveNeighbour(key);
      }
    }

    /** Up and Down: the selection moves by one when it is not at that end. */
    method SelectNeighbour(key: Key)
      requires Valid() && selectedIdx.Some? && (key == ArrowUp || key == ArrowDown)
      modifies this
      ensures Valid() && lesson == old(lesson) && draggingFrom == old(draggingFrom)
      ensures State() == ArrowStep(old(State()), key)
    {
      var s := selectedIdx.value;
      if key == ArrowUp && s > 0 {
        Select(s - 1);
      } else if key == ArrowDown && s < |tiles| - 1 {
        Select(s + 1);
      }
    }

    /** Left and Right: the selected tile swaps places with its neighbour when it is not at that end. */
    method MoveNeighbour(key: Key)
      requires Valid() && selectedIdx.Some? && (key == ArrowLeft || key == ArrowRight)
      modifies this
      ensures Valid() && lesson == old(lesson) && draggingFrom == old(draggingFrom)
      ensures State() == ArrowStep(old(State()), key)
    {
      var s := selectedIdx.value;
      if key == ArrowLeft && s > 0 {
        Move(s, s - 1);
      } else if key == ArrowRight && s < |tiles| - 1 {
        Move(s, s + 1);
      }
    }

    method LeftButton(idx: int)
      requires Valid() && 0 <= idx < |tiles|
      modifies this
      ensures Valid() && State() == LeftButtonBoard(old(State()), idx)
      ensures lesson == old(lesson) && draggingFrom == old(draggingFrom)
    {
      if idx > 0 { Move(idx, idx - 1); }
      Select(Max(0, idx - 1));
    }

    method RightButton(idx: int)
      requires Valid() && 0 <= idx < |tiles|
      modifies this
      ensures Valid() && State() == RightButtonBoard(old(State()), idx)
      ensures lesson == old(lesson) && draggingFrom == old(draggingFrom)
    {
      if idx < |tiles| - 1 { Move(idx, idx + 1); }
      Select(Min(|tiles| - 1, idx + 1));
    }
  }
}
