/**
 * The client-side catalog decoder of `fetchModules` (src/api/modules.ts):
 * accepts an array of module records or `{ modules: [...] }`, turns every
 * record into a `Module` with field fallbacks and number/text coercions,
 * then orders modules and exercises by `orderIndex`. The HTTP request is
 * not part of this model; the decoded JSON body is the input.
 */
module ModulesApi {
  import opened Wrappers
  import opened Js
  import opened Sorting
  import opened Catalog

  const BadPayload: string := "Bad modules payload (expected array)"

  /** What JavaScript throws when a record is `null` or `undefined` and a property is read from it. */
  const NullRecord: string := "TypeError: cannot read properties of null or undefined"

  /** `String(v ?? "")`. */
  function TextOr(v: Json): (r: string)
    ensures Nullish(v) ==> r == []
    ensures v.JStr? ==> r == v.s
  {
    ToStr(Coalesce(v, JStr("")))
  }

  /** The mapping of one exercise record `e` under module record `m`; `m` is known not to be nullish. */
  function DecodeExercise(e: Json, m: Json, parse: Parser): (r: Option<Exercise>)
    ensures r.None? <==> Nullish(e)
    ensures r.Some? ==> r.value.id == ToNumberOr(Field(e, "id"), 0)
    ensures r.Some? ==> r.value.kind == (if Field(e, "kind") == JStr("blockly") then Blockly else Puzzle)
    ensures r.Some? && Nullish(Field(e, "moduleId")) && Nullish(Field(e, "module_id")) ==>
      r.value.moduleId == ToNumberOr(Field(m, "id"), 0)
    ensures r.Some? && !Nullish(Field(e, "moduleId")) ==> r.value.moduleId == ToNumberOr(Field(e, "moduleId"), 0)
    ensures r.Some? && Nullish(Field(e, "moduleId")) && !Nullish(Field(e, "module_id")) ==>
      r.value.moduleId == ToNumberOr(Field(e, "module_id"), 0)
    ensures r.Some? && !Nullish(Field(e, "title")) ==> r.value.title == ToStr(Field(e, "title"))
    ensures r.Some? && Nullish(Field(e, "title")) ==> r.value.title == []
    ensures r.Some? && !Nullish(Field(e, "instructionsHtml")) ==> r.value.instructionsHtml == ToStr(Field(e, "instructionsHtml"))
    ensures r.Some? && Nullish(Field(e, "instructionsHtml")) && !Nullish(Field(e, "instructions_html")) ==>
      r.value.instructionsHtml == ToStr(Field(e, "instructions_html"))
    ensures r.Some? && Nullish(Field(e, "instructionsHtml")) && Nullish(Field(e, "instructions_html")) ==>
      r.value.instructionsHtml == []
    ensures r.Some? && !Nullish(Field(e, "codeParts")) ==> r.value.codeParts == SafeJsonArray(Field(e, "codeParts"), parse)
    ensures r.Some? && Nullish(Field(e, "codeParts")) && !Nullish(Field(e, "code_parts")) ==>
      r.value.codeParts == SafeJsonArray(Field(e, "code_parts"), parse)
    ensures r.Some? && Nullish(Field(e, "codeParts")) && Nullish(Field(e, "code_parts")) ==>
      r.value.codeParts == SafeJsonArray(Field(e, "code_parts_json"), parse)
    ensures r.Some? && !Nullish(Field(e, "orderedCode")) ==> r.value.orderedCode == ToStr(Field(e, "orderedCode"))
    ensures r.Some? && Nullish(Field(e, "orderedCode")) && !Nullish(Field(e, "ordered_code")) ==>
      r.value.orderedCode == ToStr(Field(e, "ordered_code"))
    ensures r.Some? && Nullish(Field(e, "orderedCode")) && Nullish(Field(e, "ordered_code")) ==> r.value.orderedCode == []
    ensures r.Some? && !Nullish(Field(e, "orderIndex")) ==> r.value.orderIndex == ToNumberOr(Field(e, "orderIndex"), 0)
    ensures r.Some? && Nullish(Field(e, "orderIndex")) && !Nullish(Field(e, "order_index")) ==>
      r.value.orderIndex == ToNumberOr(Field(e, "order_index"), 0)
    ensures r.Some? && Nullish(Field(e, "orderIndex")) && Nullish(Field(e, "order_index")) ==> r.value.orderIndex == 0
  {
    if Nullish(e) then None
    else
      Some(Exercise(
        id := ToNumberOr(Field(e, "id"), 0),
        moduleId := ToNumberOr(Coalesce(Coalesce(Field(e, "moduleId"), Field(e, "module_id")), Field(m, "id")), 0),
        title := TextOr(Field(e, "title")),
        instructionsHtml := TextOr(Coalesce(Field(e, "instructionsHtml"), Field(e, "instructions_html"))),
        kind := if Field(e, "kind") == JStr("blockly") then Blockly else Puzzle,
        codeParts := SafeJsonArray(Coalesce(Coalesce(Field(e, "codeParts"), Field(e, "code_parts")), Field(e, "code_parts_json")), parse),
        orderedCode := TextOr(Coalesce(Field(e, "orderedCode"), Field(e, "ordered_code"))),
        orderIndex := ToNumberOr(Coalesce(Coalesce(Field(e, "orderIndex"), Field(e, "order_index")), JNum(0)), 0)))
  }

  /** `m.exercises.map(...)`: fails on the first nullish record, otherwise one exercise per record. */
  function DecodeExercises(es: seq<Json>, m: Json, parse: Parser): (r: Option<seq<Exercise>>)
    ensures r.None? <==> HasNullish(es)
    ensures r.Some? ==> |r.value| == |es| && forall i :: 0 <= i < |es| ==> DecodeExercise(es[i], m, parse) == Some(r.value[i])
  {
    if es == [] then Some([])
    else
      var head := DecodeExercise(es[0], m, parse);
      var tail := DecodeExercises(es[1..], m, parse);
      HasNullishCons(es);
      if head.None? || tail.None? then None
      else Some([head.value] + tail.value)
  }

  /** A module record's exercises fail to decode: `exercises` is an array holding a nullish record. */
  predicate BadExercises(m: Json) {
    Field(m, "exercises").JArr? && HasNullish(Field(m, "exercises").items)
  }

  /**
   * The mapping of one module record: nullish records throw; a missing or
   * non-array `exercises` gives none; the exercises keep their count.
   */
  function DecodeModule(m: Json, parse: Parser): (r: Option<Module>)
    ensures r.None? <==> Nullish(m) || BadExercises(m)
    ensures r.Some? ==> r.value.id == ToNumberOr(Field(m, "id"), 0)
    ensures r.Some? && !Field(m, "exercises").JArr? ==> r.value.exercises == []
    ensures r.Some? && Field(m, "exercises").JArr? ==> |r.value.exercises| == |Field(m, "exercises").items|
    ensures r.Some? && Field(m, "exercises").JArr? ==>
      var items := Field(m, "exercises").items;
      forall i :: 0 <= i < |items| && Nullish(Field(items[i], "moduleId")) && Nullish(Field(items[i], "module_id")) ==>
        r.value.exercises[i].moduleId == r.value.id
    ensures r.Some? && Field(m, "exercises").JArr? ==>
      var items := Field(m, "exercises").items;
      forall i :: 0 <= i < |items| ==> DecodeExercise(items[i], m, parse) == Some(r.value.exercises[i])
    ensures r.Some? && !Nullish(Field(m, "title")) ==> r.value.title == ToStr(Field(m, "title"))
    ensures r.Some? && Nullish(Field(m, "title")) ==> r.value.title == []
    ensures r.Some? && !Nullish(Field(m, "description")) ==> r.value.description == ToStr(Field(m, "description"))
    ensures r.Some? && Nullish(Field(m, "description")) ==> r.value.description == []
    ensures r.Some? && !Nullish(Field(m, "orderIndex")) ==> r.value.orderIndex == ToNumberOr(Field(m, "orderIndex"), 0)
    ensures r.Some? && Nullish(Field(m, "orderIndex")) && !Nullish(Field(m, "order_index")) ==>
      r.value.orderIndex == ToNumberOr(Field(m, "order_index"), 0)
    ensures r.Some? && Nullish(Field(m, "orderIndex")) && Nullish(Field(m, "order_index")) ==> r.value.orderIndex == 0
  {
    if Nullish(m) then None
    else
      var exs := Field(m, "exercises");
      var decoded := if exs.JArr? then DecodeExercises(exs.items, m, parse) else Some([]);
      if decoded.None? then None
      else
        Some(Module(
          id := ToNumberOr(Field(m, "id"), 0),
          title := TextOr(Field(m, "title")),
          description := TextOr(Field(m, "description")),
          orderIndex := ToNumberOr(Coalesce(Coalesce(Field(m, "orderIndex"), Field(m, "order_index")), JNum(0)), 0),
          exercises := decoded.value))
  }

  /** Some module record of `ms` fails to decode. */
  predicate AnyBadModule(ms: seq<Json>) {
    exists i :: 0 <= i < |ms| && (Nullish(ms[i]) || BadExercises(ms[i]))
  }

  /** A list has a bad module exactly when its head is bad or its tail has one. */
  lemma AnyBadModuleCons(ms: seq<Json>)
    requires ms != []
    ensures AnyBadModule(ms) <==> Nullish(ms[0]) || BadExercises(ms[0]) || AnyBadModule(ms[1..])
  {
    if AnyBadModule(ms) && !(Nullish(ms[0]) || BadExercises(ms[0])) {
      var i :| 0 <= i < |ms| && (Nullish(ms[i]) || BadExercises(ms[i]));
      assert ms[1..][i - 1] == ms[i];
    }
    if AnyBadModule(ms[1..]) {
      var i :| 0 <= i < |ms[1..]| && (Nullish(ms[1..][i]) || BadExercises(ms[1..][i]));
      assert ms[i + 1] == ms[1..][i];
    }
  }

  /** `modulesRaw.map(...)`: one module per record, in order, or the first failure. */
  function DecodeModuleList(ms: seq<Json>, parse: Parser): (r: Option<seq<Module>>)
    ensures r.None? <==> AnyBadModule(ms)
    ensures r.Some? ==> |r.value| == |ms| && forall i :: 0 <= i < |ms| ==> DecodeModule(ms[i], parse) == Some(r.value[i])
  {
    if ms == [] then Some([])
    else
      var head := DecodeModule(ms[0], parse);
      var tail := DecodeModuleList(ms[1..], parse);
      AnyBadModuleCons(ms);
      if head.None? || tail.None? then None
      else Some([head.value] + tail.value)
  }

  /** `Array.isArray(raw) ? raw : raw?.modules`. */
  function ModulesRaw(raw: Json): (r: Json)
    ensures raw.JArr? ==> r == raw
    ensures !raw.JArr? ==> r == Field(raw, "modules")
  {
    if raw.JArr? then raw else Field(raw, "modules")
  }

  /**
   * The decoding part of `fetchModules`: the payload must be an array of
   * records or an object whose `modules` is one; every record must be
   * readable; the result is the decoded catalog put in order.
   */
  function DecodeModules(raw: Json, parse: Parser): (r: Result<seq<Module>>)
    ensures !ModulesRaw(raw).JArr? ==> r == Err(BadPayload)
    ensures ModulesRaw(raw).JArr? && AnyBadModule(ModulesRaw(raw).items) ==> r == Err(NullRecord)
    ensures ModulesRaw(raw).JArr? && !AnyBadModule(ModulesRaw(raw).items) ==>
      r.Ok? && |r.value| == |ModulesRaw(raw).items|
  {
    var modulesRaw := ModulesRaw(raw);
    if !modulesRaw.JArr? then Err(BadPayload)
    else
      match DecodeModuleList(modulesRaw.items, parse)
      case None => Err(NullRecord)
      case Some(ms) => Ok(SortCatalog(ms))
  }

  /**
   * A decoded catalog is ordered: modules by `orderIndex`, each module's
   * exercises by `orderIndex`; it holds exactly the decoded records, each
   * with its exercises reordered.
   */
  lemma DecodedCatalogOrdered(raw: Json, parse: Parser)
    requires DecodeModules(raw, parse).Ok?
    ensures var ms := DecodeModuleList(ModulesRaw(raw).items, parse).value;
      var r := DecodeModules(raw, parse).value;
      && SortedBy(r, ModuleOrder)
      && (forall i :: 0 <= i < |r| ==> SortedBy(r[i].exercises, ExerciseOrder))
      && multiset(r) == multiset(Map(SortExercises, ms))
  {
    SortCatalogOrdered(DecodeModuleList(ModulesRaw(raw).items, parse).value);
  }

  /** The two accepted payload shapes decode the same: a bare array, and the same array under `modules`. */
  lemma WrappedPayloadSame(items: seq<Json>, others: map<string, Json>, parse: Parser)
    ensures DecodeModules(JObj(others["modules" := JArr(items)]), parse) == DecodeModules(JArr(items), parse)
  {
  }
}
