/**
 * The offline build step (scripts/build-modules-json.mjs): reads the
 * phpMyAdmin export, picks the `modules` and `exercises` tables, groups the
 * exercise rows by module id, builds one module per module row with its
 * exercises, and orders both levels by `(orderIndex, id)`. Reading and
 * writing the files is not part of this model; the parsed export is the
 * input and the module list that would be written is the output.
 */
module BuildScript {
  import opened Wrappers
  import opened Js
  import opened Sorting
  import opened Catalog
  import Db

  const NotAnArray: string := "css_db.json doit être un tableau (export phpMyAdmin JSON)."

  /** What JavaScript throws when a row is `null` or `undefined` and a property is read from it. */
  const NullRow: string := "TypeError: cannot read properties of null or undefined"

  /**
   * `pickTable(db, tableName)`: the `data` array of the first table entry with
   * that name, `[]` when there is none or its `data` is not an array. The
   * optional chaining means no item makes it throw.
   */
  function PickTable(dump: seq<Json>, name: string): (rows: seq<Json>)
    ensures Db.FirstTable(dump, name) == -1 ==> rows == []
    ensures Db.FirstTable(dump, name) >= 0 ==> rows == Db.DataRows(dump[Db.FirstTable(dump, name)])
  {
    var k := Db.FirstTable(dump, name);
    if k == -1 then [] else Db.DataRows(dump[k])
  }

  /** The group key of an exercise row: `toNum(e.module_id ?? e.moduleId)`. */
  function GroupKey(e: Json): (k: int)
    ensures !Nullish(Field(e, "module_id")) ==> k == ToNumberOr(Field(e, "module_id"), 0)
    ensures Nullish(Field(e, "module_id")) ==> k == ToNumberOr(Field(e, "moduleId"), 0)
  {
    ToNumberOr(Coalesce(Field(e, "module_id"), Field(e, "moduleId")), 0)
  }

  /** The rows with group key `k`, in input order. */
  function RowsWithKey(rows: seq<Json>, key: Json -> int, k: int): (r: seq<Json>)
    ensures |r| <= |rows|
    ensures forall x :: x in r ==> x in rows && key(x) == k
  {
    if rows == [] then []
    else
      var last := rows[|rows| - 1];
      RowsWithKey(rows[..|rows| - 1], key, k) + (if key(last) == k then [last] else [])
  }

  /**
   * A group is the filter of the rows on its key: a subsequence of `rows`
   * that keeps every row with key `k`, as often as `rows` has it, and no other row.
   */
  lemma RowsWithKeyIsFilter(rows: seq<Json>, key: Json -> int, k: int)
    ensures Subseq(RowsWithKey(rows, key, k), rows)
    ensures multiset(RowsWithKey(rows, key, k)) <= multiset(rows)
    ensures forall x :: x in rows && key(x) == k ==> multiset(RowsWithKey(rows, key, k))[x] == multiset(rows)[x]
  {
    RowsWithKeySubseq(rows, key, k);
    RowsWithKeyCount(rows, key, k);
  }

  lemma {:induction false} RowsWithKeySubseq(rows: seq<Json>, key: Json -> int, k: int)
    ensures Subseq(RowsWithKey(rows, key, k), rows)
    decreases |rows|
  {
    if rows != [] {
      var init := rows[..|rows| - 1];
      var last := rows[|rows| - 1];
      RowsWithKeySubseq(init, key, k);
      assert init + [last] == rows;
      SubseqOne(last, key(last) == k);
      SubseqAppend(RowsWithKey(init, key, k), init, if key(last) == k then [last] else [], [last]);
    }
  }

  lemma {:induction false} RowsWithKeyCount(rows: seq<Json>, key: Json -> int, k: int)
    ensures multiset(RowsWithKey(rows, key, k)) <= multiset(rows)
    ensures forall x :: x in rows && key(x) == k ==> multiset(RowsWithKey(rows, key, k))[x] == multiset(rows)[x]
    decreases |rows|
  {
    if rows != [] {
      var init := rows[..|rows| - 1];
      var last := rows[|rows| - 1];
      var front := RowsWithKey(init, key, k);
      var tail := if key(last) == k then [last] else [];
      assert RowsWithKey(rows, key, k) == front + tail;
      RowsWithKeyCount(init, key, k);
      RowsWithKeyCounts(rows, key, k, front, tail);
    }
  }

  /** The counts of one filter step. */
  lemma RowsWithKeyCounts(rows: seq<Json>, key: Json -> int, k: int, front: seq<Json>, tail: seq<Json>)
    requires rows != []
    requires tail == if key(rows[|rows| - 1]) == k then [rows[|rows| - 1]] else []
    requires multiset(front) <= multiset(rows[..|rows| - 1])
    requires forall x :: x in rows[..|rows| - 1] && key(x) == k ==> multiset(front)[x] == multiset(rows[..|rows| - 1])[x]
    ensures multiset(front + tail) <= multiset(rows)
    ensures forall x :: x in rows && key(x) == k ==> multiset(front + tail)[x] == multiset(rows)[x]
  {
    var init := rows[..|rows| - 1];
    var last := rows[|rows| - 1];
    assert init + [last] == rows;
    assert multiset(rows) == multiset(init) + multiset{last};
    forall x | x in rows && key(x) == k ensures multiset(front + tail)[x] == multiset(rows)[x] {
      if x !in init {
        assert multiset(init)[x] == 0;
      }
    }
  }

  /** Every row is in the group of its own key and in no other. */
  lemma {:induction false} RowInOneGroup(rows: seq<Json>, key: Json -> int, x: Json, k: int)
    requires x in rows
    ensures x in RowsWithKey(rows, key, k) <==> key(x) == k
    decreases |rows|
  {
    var init := rows[..|rows| - 1];
    assert rows == init + [rows[|rows| - 1]];
    if x in init {
      RowInOneGroup(init, key, x, k);
    }
  }

  /** The group keys that occur in `rows`. */
  function Keys(rows: seq<Json>, key: Json -> int): (ks: set<int>)
    ensures forall x :: x in rows ==> key(x) in ks
  {
    if rows == [] then {}
    else
      var init := rows[..|rows| - 1];
      assert rows == init + [rows[|rows| - 1]];
      Keys(init, key) + {key(rows[|rows| - 1])}
  }

  /** A key has a group exactly when some row carries it. */
  lemma {:induction false} KeysHaveRows(rows: seq<Json>, key: Json -> int, k: int)
    ensures k in Keys(rows, key) <==> RowsWithKey(rows, key, k) != []
    decreases |rows|
  {
    if rows != [] {
      var init := rows[..|rows| - 1];
      KeysHaveRows(init, key, k);
    }
  }

  /** The `exercisesByModule` map: each row appended, in input order, to the list of its key. */
  function Groups(rows: seq<Json>, key: Json -> int): map<int, seq<Json>> {
    if rows == [] then map[]
    else
      Added(Groups(rows[..|rows| - 1], key), key, rows[|rows| - 1])
  }

  /** The grouping after one more row: the row goes to the end of its key's list. */
  function Added(g: map<int, seq<Json>>, key: Json -> int, e: Json): map<int, seq<Json>> {
    g[key(e) := GroupOf(g, key(e)) + [e]]
  }

  /** Grouping one more row of a prefix. */
  lemma GroupsSnoc(rows: seq<Json>, key: Json -> int, i: int)
    requires 0 <= i < |rows|
    ensures Groups(rows[..i + 1], key) == Added(Groups(rows[..i], key), key, rows[i])
  {
    assert rows[..i + 1][..i] == rows[..i];
  }

  /** The grouping has a list for each key that occurs, holding exactly the rows with that key, in input order. */
  lemma {:induction false} GroupsAre(rows: seq<Json>, key: Json -> int)
    ensures Groups(rows, key).Keys == Keys(rows, key)
    ensures forall k :: k in Groups(rows, key) ==> Groups(rows, key)[k] == RowsWithKey(rows, key, k)
    decreases |rows|
  {
    if rows != [] {
      var init := rows[..|rows| - 1];
      var e := rows[|rows| - 1];
      GroupsAre(init, key);
      KeysHaveRows(init, key, key(e));
    }
  }

  /** Each group holds only rows of its own key. */
  lemma GroupsKeyed(rows: seq<Json>, key: Json -> int)
    ensures forall k :: k in Groups(rows, key) ==> forall x :: x in Groups(rows, key)[k] ==> key(x) == k
  {
    GroupsAre(rows, key);
  }

  /** The grouping loop; `None` stands for the TypeError of a null or undefined row. */
  method GroupByModule(rows: seq<Json>) returns (r: Option<map<int, seq<Json>>>)
    ensures r.None? <==> HasNullish(rows)
    ensures r.Some? ==> r.value == Groups(rows, GroupKey)
  {
    r := GroupBy(rows, GroupKey);
  }

  /** The loop of `GroupByModule`, for a key function `key`. */
  method GroupBy(rows: seq<Json>, key: Json -> int) returns (r: Option<map<int, seq<Json>>>)
    ensures r.None? <==> HasNullish(rows)
    ensures r.Some? ==> r.value == Groups(rows, key)
  {
    var groups: map<int, seq<Json>> := map[];
    assert rows[..0] == [];
    for i := 0 to |rows|
      invariant groups == Groups(rows[..i], key)
      invariant forall j :: 0 <= j < i ==> !Nullish(rows[j])
    {
      var e := rows[i];
      if Nullish(e) {
        assert Nullish(rows[i]);
        return None;
      }
      GroupsSnoc(rows, key, i);
      groups := AddRow(groups, key, e);
    }
    assert rows[..|rows|] == rows;
    return Some(groups);
  }

  /** One round of the loop: the row goes to the end of its key's list, which is created when missing. */
  method AddRow(groups: map<int, seq<Json>>, key: Json -> int, e: Json) returns (g: map<int, seq<Json>>)
    ensures g == Added(groups, key, e)
  {
    var k := key(e);
    g := groups;
    if k !in g {
      g := g[k := []];
    }
    g := g[k := g[k] + [e]];
  }

  /** The comparator `a.orderIndex - b.orderIndex || a.id - b.id`, on exercises. */
  function ExerciseKey(e: Exercise): seq<int> {
    [e.orderIndex, e.id]
  }

  /** The same comparator on modules. */
  function ModuleKey(m: Module): seq<int> {
    [m.orderIndex, m.id]
  }

  /** `a.orderIndex - b.orderIndex || a.id - b.id`: the id difference decides only when the order indexes are equal. */
  function OrderThenId(aOrder: int, aId: int, bOrder: int, bId: int): int {
    var d := aOrder - bOrder;
    if d != 0 then d else aId - bId
  }

  /** The key order on exercises is the order of the comparator: `a` may precede `b` exactly when it does not compare above it. */
  lemma ExerciseKeyIsComparator(a: Exercise, b: Exercise)
    ensures LexLe(ExerciseKey(a), ExerciseKey(b)) <==> OrderThenId(a.orderIndex, a.id, b.orderIndex, b.id) <= 0
  {
    KeyPairOrder(a.orderIndex, a.id, b.orderIndex, b.id);
  }

  /** The same for modules. */
  lemma ModuleKeyIsComparator(a: Module, b: Module)
    ensures LexLe(ModuleKey(a), ModuleKey(b)) <==> OrderThenId(a.orderIndex, a.id, b.orderIndex, b.id) <= 0
  {
    KeyPairOrder(a.orderIndex, a.id, b.orderIndex, b.id);
  }

  lemma KeyPairOrder(ao: int, ai: int, bo: int, bi: int)
    ensures LexLe([ao, ai], [bo, bi]) <==> OrderThenId(ao, ai, bo, bi) <= 0
  {
    assert [ao, ai][1..] == [ai] && [bo, bi][1..] == [bi];
    assert [ai][1..] == [] && [bi][1..] == [];
    assert LexLe([ai], [bi]) <==> ai <= bi;
    assert LexLe([ao, ai], [bo, bi]) <==> ao < bo || (ao == bo && LexLe([ai], [bi]));
  }

  /** The mapping of one exercise row under the module with id `id`. */
  function ScriptExercise(e: Json, id: int, parse: Parser): (x: Exercise)
    ensures x.kind == (if Field(e, "kind") == JStr("blockly") then Blockly else Puzzle)
    ensures GroupKey(e) == id ==> x.moduleId == id
    ensures x.id == ToNumberOr(Field(e, "id"), 0)
    ensures !Nullish(Field(e, "module_id")) ==> x.moduleId == ToNumberOr(Field(e, "module_id"), 0)
    ensures Nullish(Field(e, "module_id")) && !Nullish(Field(e, "moduleId")) ==>
      x.moduleId == ToNumberOr(Field(e, "moduleId"), 0)
    ensures Nullish(Field(e, "module_id")) && Nullish(Field(e, "moduleId")) ==> x.moduleId == id
    ensures !Nullish(Field(e, "title")) ==> x.title == ToStr(Field(e, "title"))
    ensures Nullish(Field(e, "title")) ==> x.title == []
    ensures !Nullish(Field(e, "instructions_html")) ==> x.instructionsHtml == ToStr(Field(e, "instructions_html"))
    ensures Nullish(Field(e, "instructions_html")) && !Nullish(Field(e, "instructionsHtml")) ==>
      x.instructionsHtml == ToStr(Field(e, "instructionsHtml"))
    ensures Nullish(Field(e, "instructions_html")) && Nullish(Field(e, "instructionsHtml")) ==> x.instructionsHtml == []
    ensures !Nullish(Field(e, "code_parts_json")) ==> x.codeParts == SafeJsonArray(Field(e, "code_parts_json"), parse)
    ensures Nullish(Field(e, "code_parts_json")) && !Nullish(Field(e, "codeParts")) ==>
      x.codeParts == SafeJsonArray(Field(e, "codeParts"), parse)
    ensures Nullish(Field(e, "code_parts_json")) && Nullish(Field(e, "codeParts")) ==>
      x.codeParts == SafeJsonArray(Field(e, "code_parts"), parse)
    ensures !Nullish(Field(e, "ordered_code")) ==> x.orderedCode == ToStr(Field(e, "ordered_code"))
    ensures Nullish(Field(e, "ordered_code")) && !Nullish(Field(e, "orderedCode")) ==>
      x.orderedCode == ToStr(Field(e, "orderedCode"))
    ensures Nullish(Field(e, "ordered_code")) && Nullish(Field(e, "orderedCode")) ==> x.orderedCode == []
    ensures !Nullish(Field(e, "order_index")) ==> x.orderIndex == ToNumberOr(Field(e, "order_index"), 0)
    ensures Nullish(Field(e, "order_index")) ==> x.orderIndex == ToNumberOr(Field(e, "orderIndex"), 0)
    ensures Nullish(Field(e, "order_index")) && Nullish(Field(e, "orderIndex")) ==> x.orderIndex == 0
  {
    Exercise(
      id := ToNumberOr(Field(e, "id"), 0),
      moduleId := ToNumberOr(Coalesce(Coalesce(Field(e, "module_id"), Field(e, "moduleId")), JNum(id)), 0),
      title := ToStr(Coalesce(Field(e, "title"), JStr(""))),
      instructionsHtml := ToStr(Coalesce(Coalesce(Field(e, "instructions_html"), Field(e, "instructionsHtml")), JStr(""))),
      kind := if Field(e, "kind") == JStr("blockly") then Blockly else Puzzle,
      codeParts := SafeJsonArray(Coalesce(Coalesce(Field(e, "code_parts_json"), Field(e, "codeParts")), Field(e, "code_parts")), parse),
      orderedCode := ToStr(Coalesce(Coalesce(Field(e, "ordered_code"), Field(e, "orderedCode")), JStr(""))),
      orderIndex := ToNumberOr(Coalesce(Field(e, "order_index"), Field(e, "orderIndex")), 0))
  }

  /** `exercisesByModule.get(id) ?? []`. */
  function GroupOf(groups: map<int, seq<Json>>, id: int): seq<Json> {
    if id in groups then groups[id] else []
  }

  /** The mapping of one module row: its fields, and its group's exercises ordered by `(orderIndex, id)`. */
  function ScriptModule(m: Json, groups: map<int, seq<Json>>, parse: Parser): (r: Option<Module>)
    ensures r.None? <==> Nullish(m)
    ensures r.Some? ==> r.value.id == ToNumberOr(Field(m, "id"), 0)
    ensures r.Some? ==> |r.value.exercises| == |GroupOf(groups, r.value.id)|
    ensures r.Some? && !Nullish(Field(m, "title")) ==> r.value.title == ToStr(Field(m, "title"))
    ensures r.Some? && Nullish(Field(m, "title")) ==> r.value.title == []
    ensures r.Some? && !Nullish(Field(m, "description")) ==> r.value.description == ToStr(Field(m, "description"))
    ensures r.Some? && Nullish(Field(m, "description")) ==> r.value.description == []
    ensures r.Some? && !Nullish(Field(m, "order_index")) ==> r.value.orderIndex == ToNumberOr(Field(m, "order_index"), 0)
    ensures r.Some? && Nullish(Field(m, "order_index")) ==> r.value.orderIndex == ToNumberOr(Field(m, "orderIndex"), 0)
    ensures r.Some? && Nullish(Field(m, "order_index")) && Nullish(Field(m, "orderIndex")) ==> r.value.orderIndex == 0
  {
    if Nullish(m) then None
    else
      var id := ToNumberOr(Field(m, "id"), 0);
      var exs := Map((e: Json) => ScriptExercise(e, id, parse), GroupOf(groups, id));
      Some(Module(
        id := id,
        title := ToStr(Coalesce(Field(m, "title"), JStr(""))),
        description := ToStr(Coalesce(Field(m, "description"), JStr(""))),
        orderIndex := ToNumberOr(Coalesce(Field(m, "order_index"), Field(m, "orderIndex")), 0),
        exercises := StableSort(exs, ExerciseKey)))
  }

  /** `rows.map(f)` for an `f` that throws on some rows: the results in order, or `None` when a row makes it throw. */
  function MapRows<T>(rows: seq<Json>, f: Json -> Option<T>): (r: Option<seq<T>>)
    ensures r.None? <==> exists i :: 0 <= i < |rows| && f(rows[i]).None?
    ensures r.Some? ==> |r.value| == |rows| && forall i :: 0 <= i < |rows| ==> f(rows[i]) == Some(r.value[i])
  {
    if rows == [] then Some([])
    else
      var tail := MapRows(rows[1..], f);
      assert forall i :: 0 <= i < |rows| - 1 ==> rows[1..][i] == rows[i + 1];
      if f(rows[0]).None? || tail.None? then None
      else Some([f(rows[0]).value] + tail.value)
  }

  /** `modulesRows.map(...)`: one module per row, in order, or the TypeError of a nullish row. */
  function ScriptModules(rows: seq<Json>, groups: map<int, seq<Json>>, parse: Parser): (r: Option<seq<Module>>)
    ensures r.None? <==> HasNullish(rows)
    ensures r.Some? ==> |r.value| == |rows| && forall i :: 0 <= i < |rows| ==> ScriptModule(rows[i], groups, parse) == Some(r.value[i])
  {
    MapRows(rows, row => ScriptModule(row, groups, parse))
  }

  /** What the script writes for a dump that is an array, or the error it stops with. */
  function BuildSpec(dump: seq<Json>, parse: Parser): (r: Result<seq<Module>>)
    ensures r.Err? <==> HasNullish(PickTable(dump, "exercises")) || HasNullish(PickTable(dump, "modules"))
    ensures r.Err? ==> r.message == NullRow
    ensures r.Ok? ==> |r.value| == |PickTable(dump, "modules")|
  {
    var moduleRows := PickTable(dump, "modules");
    var exerciseRows := PickTable(dump, "exercises");
    if HasNullish(exerciseRows) then Err(NullRow)
    else
      match ScriptModules(moduleRows, Groups(exerciseRows, GroupKey), parse)
      case None => Err(NullRow)
      case Some(ms) => Ok(StableSort(ms, ModuleKey))
  }

  /** The script: a dump that is not an array stops it; otherwise it groups, maps and sorts. */
  method BuildModulesJson(raw: Json, parse: Parser) returns (r: Result<seq<Module>>)
    ensures !raw.JArr? ==> r == Err(NotAnArray)
    ensures raw.JArr? ==> r == BuildSpec(raw.items, parse)
  {
    if !raw.JArr? {
      return Err(NotAnArray);
    }
    var moduleRows := PickTable(raw.items, "modules");
    var exerciseRows := PickTable(raw.items, "exercises");
    var groups := GroupByModule(exerciseRows);
    if groups.None? {
      return Err(NullRow);
    }
    var ms := ScriptModules(moduleRows, groups.value, parse);
    if ms.None? {
      return Err(NullRow);
    }
    r := Ok(StableSort(ms.value, ModuleKey));
  }

  /** A module of the output is the mapping of one module row. */
  lemma OutputModuleFromRow(dump: seq<Json>, parse: Parser, m: Module)
    requires BuildSpec(dump, parse).Ok? && m in BuildSpec(dump, parse).value
    ensures exists row :: row in PickTable(dump, "modules") && ScriptModule(row, Groups(PickTable(dump, "exercises"), GroupKey), parse) == Some(m)
  {
    var rows := PickTable(dump, "modules");
    var groups := Groups(PickTable(dump, "exercises"), GroupKey);
    assert BuildSpec(dump, parse).value == StableSort(ScriptModules(rows, groups, parse).value, ModuleKey);
    SortedModuleFromRow(rows, groups, parse, m);
  }

  /** Without nullish rows the script succeeds, and the emitted modules are a permutation of the module rows' modules. */
  lemma BuildSpecPermutes(dump: seq<Json>, parse: Parser)
    requires !HasNullish(PickTable(dump, "exercises")) && !HasNullish(PickTable(dump, "modules"))
    ensures BuildSpec(dump, parse).Ok?
    ensures ScriptModules(PickTable(dump, "modules"), Groups(PickTable(dump, "exercises"), GroupKey), parse).Some?
    ensures multiset(BuildSpec(dump, parse).value)
      == multiset(ScriptModules(PickTable(dump, "modules"), Groups(PickTable(dump, "exercises"), GroupKey), parse).value)
  {
    var rows := PickTable(dump, "modules");
    var groups := Groups(PickTable(dump, "exercises"), GroupKey);
    assert BuildSpec(dump, parse).value == StableSort(ScriptModules(rows, groups, parse).value, ModuleKey);
  }

  /** Without nullish rows every module row yields a module, and that module is emitted. */
  lemma RowModuleEmitted(dump: seq<Json>, parse: Parser, i: int)
    requires !HasNullish(PickTable(dump, "exercises")) && !HasNullish(PickTable(dump, "modules"))
    requires 0 <= i < |PickTable(dump, "modules")|
    ensures BuildSpec(dump, parse).Ok?
    ensures ScriptModule(PickTable(dump, "modules")[i], Groups(PickTable(dump, "exercises"), GroupKey), parse).Some?
    ensures ScriptModule(PickTable(dump, "modules")[i], Groups(PickTable(dump, "exercises"), GroupKey), parse).value
      in BuildSpec(dump, parse).value
  {
    var rows := PickTable(dump, "modules");
    var groups := Groups(PickTable(dump, "exercises"), GroupKey);
    BuildSpecPermutes(dump, parse);
    var ms := ScriptModules(rows, groups, parse).value;
    assert ms[i] in multiset(ms);
  }

  lemma SortedModuleFromRow(rows: seq<Json>, groups: map<int, seq<Json>>, parse: Parser, m: Module)
    requires ScriptModules(rows, groups, parse).Some?
    requires m in StableSort(ScriptModules(rows, groups, parse).value, ModuleKey)
    ensures exists row :: row in rows && ScriptModule(row, groups, parse) == Some(m)
  {
    var ms := ScriptModules(rows, groups, parse).value;
    StableSortMember(ms, ModuleKey, m);
    var i :| 0 <= i < |ms| && ms[i] == m;
    assert ScriptModule(rows[i], groups, parse) == Some(m);
    assert rows[i] in rows;
  }

  /**
   * A module receives exactly the exercise rows whose key is its id (rows
   * whose key matches no module are in no module), in `(orderIndex, id)` order.
   */
  lemma ModuleGetsItsRows(dump: seq<Json>, parse: Parser, m: Module)
    requires BuildSpec(dump, parse).Ok? && m in BuildSpec(dump, parse).value
    ensures var rows := RowsWithKey(PickTable(dump, "exercises"), GroupKey, m.id);
      multiset(m.exercises) == multiset(Map((e: Json) => ScriptExercise(e, m.id, parse), rows))
    ensures SortedBy(m.exercises, ExerciseKey)
  {
    var exRows := PickTable(dump, "exercises");
    var groups := Groups(exRows, GroupKey);
    OutputModuleFromRow(dump, parse, m);
    KeysHaveRows(exRows, GroupKey, m.id);
    GroupsAre(exRows, GroupKey);
    assert GroupOf(groups, m.id) == RowsWithKey(exRows, GroupKey, m.id);
    var exs := Map((e: Json) => ScriptExercise(e, m.id, parse), GroupOf(groups, m.id));
    assert m.exercises == StableSort(exs, ExerciseKey);
    StableSortSorted(exs, ExerciseKey, 2);
  }

  /** Every exercise listed under a module carries that module's id. */
  lemma ExercisesBelong(dump: seq<Json>, parse: Parser, m: Module, e: Exercise)
    requires BuildSpec(dump, parse).Ok? && m in BuildSpec(dump, parse).value && e in m.exercises
    ensures e.moduleId == m.id
  {
    var groups := Groups(PickTable(dump, "exercises"), GroupKey);
    OutputModuleFromRow(dump, parse, m);
    var row :| row in PickTable(dump, "modules") && ScriptModule(row, groups, parse) == Some(m);
    GroupsKeyed(PickTable(dump, "exercises"), GroupKey);
    ModuleExercisesBelong(row, groups, parse, e);
  }

  /** The exercises a module row receives from a grouping carry the module's id. */
  lemma ModuleExercisesBelong(row: Json, groups: map<int, seq<Json>>, parse: Parser, e: Exercise)
    requires ScriptModule(row, groups, parse).Some? && e in ScriptModule(row, groups, parse).value.exercises
    requires forall k :: k in groups ==> forall x :: x in groups[k] ==> GroupKey(x) == k
    ensures e.moduleId == ScriptModule(row, groups, parse).value.id
  {
    var id := ToNumberOr(Field(row, "id"), 0);
    var f := (x: Json) => ScriptExercise(x, id, parse);
    var exs := Map(f, GroupOf(groups, id));
    assert ScriptModule(row, groups, parse).value.exercises == StableSort(exs, ExerciseKey);
    StableSortMember(exs, ExerciseKey, e);
    var i :| 0 <= i < |exs| && exs[i] == e;
    assert GroupOf(groups, id)[i] in GroupOf(groups, id);
  }

  /** The output modules are ordered by `(orderIndex, id)`. */
  lemma ModulesOrdered(dump: seq<Json>, parse: Parser)
    requires BuildSpec(dump, parse).Ok?
    ensures SortedBy(BuildSpec(dump, parse).value, ModuleKey)
  {
    var ms := ScriptModules(PickTable(dump, "modules"), Groups(PickTable(dump, "exercises"), GroupKey), parse).value;
    StableSortSorted(ms, ModuleKey, 2);
  }
}
