/**
 * The helpers of src/api/db.ts for reading a phpMyAdmin JSON export: picking
 * a table's rows out of the dump, and a parse that falls back instead of
 * throwing. Fetching the dump is not part of this model.
 */
module Db {
  import opened Wrappers
  import opened Js

  /** `item.type === "table" && item.name === tableName`. */
  predicate IsTable(item: Json, name: string) {
    Field(item, "type") == JStr("table") && Field(item, "name") == JStr(name)
  }

  /** The index of the first table entry called `name`, or -1. */
  function FirstTable(items: seq<Json>, name: string): (k: int)
    ensures -1 <= k < |items|
    ensures k == -1 <==> forall j :: 0 <= j < |items| ==> !IsTable(items[j], name)
    ensures k >= 0 ==> IsTable(items[k], name) && forall j :: 0 <= j < k ==> !IsTable(items[j], name)
  {
    if items == [] then -1
    else if IsTable(items[0], name) then 0
    else
      var k := FirstTable(items[1..], name);
      if k == -1 then -1 else k + 1
  }

  /** `(t) => Array.isArray(t.data) ? t.data : []`. */
  function DataRows(t: Json): (rows: seq<Json>)
    ensures Field(t, "data").JArr? ==> rows == Field(t, "data").items
    ensures !Field(t, "data").JArr? ==> rows == []
  {
    match Field(t, "data")
    case JArr(xs) => xs
    case _ => []
  }

  /** Some item before position `k` is `null` or `undefined`. */
  predicate NullishBefore(items: seq<Json>, k: int) {
    exists j :: 0 <= j < k && j < |items| && Nullish(items[j])
  }

  /**
   * `pickTable(dump, tableName)`. `None` stands for the TypeError thrown when
   * `find` reads `type` from a null or undefined item met before the table.
   */
  function PickTable(dump: Json, name: string): (r: Option<seq<Json>>)
    ensures !dump.JArr? ==> r == Some([])
    ensures dump.JArr? ==>
      var k := FirstTable(dump.items, name);
      && (r.None? <==> NullishBefore(dump.items, if k == -1 then |dump.items| else k))
      && (r.Some? && k == -1 ==> r.value == [])
      && (r.Some? && k >= 0 ==> r.value == DataRows(dump.items[k]))
  {
    if !dump.JArr? then Some([])
    else Find(dump.items, name)
  }

  /** `find`, item by item, with the read of `item.type` that throws on a nullish item. */
  function Find(items: seq<Json>, name: string): (r: Option<seq<Json>>)
    ensures var k := FirstTable(items, name);
      && (r.None? <==> NullishBefore(items, if k == -1 then |items| else k))
      && (r.Some? && k == -1 ==> r.value == [])
      && (r.Some? && k >= 0 ==> r.value == DataRows(items[k]))
  {
    if items == [] then Some([])
    else if Nullish(items[0]) then
      assert NullishBefore(items, if FirstTable(items, name) == -1 then |items| else FirstTable(items, name)) by {
        assert !IsTable(items[0], name);
      }
      None
    else if IsTable(items[0], name) then Some(DataRows(items[0]))
    else
      var r := Find(items[1..], name);
      var k := FirstTable(items[1..], name);
      var bound := if k == -1 then |items[1..]| else k;
      assert NullishBefore(items, bound + 1) <==> NullishBefore(items[1..], bound) by {
        if NullishBefore(items, bound + 1) {
          var j :| 0 <= j < bound + 1 && j < |items| && Nullish(items[j]);
          assert items[1..][j - 1] == items[j];
        }
        if NullishBefore(items[1..], bound) {
          var j :| 0 <= j < bound && j < |items[1..]| && Nullish(items[1..][j]);
          assert items[j + 1] == items[1..][j];
        }
      }
      r
  }

  /** A dump with no nullish item never throws, and yields the first matching table's rows. */
  lemma PickTableTotal(items: seq<Json>, name: string)
    requires !HasNullish(items)
    ensures PickTable(JArr(items), name).Some?
  {
  }

  /**
   * `safeParse(raw, fallback)`: the fallback for null or undefined, the
   * parsed value of a text (the fallback when it does not parse), and any
   * other value unchanged.
   */
  function SafeParse(raw: Json, fallback: Json, parse: Parser): (r: Json)
    ensures Nullish(raw) ==> r == fallback
    ensures raw.JStr? && parse(raw.s).Some? ==> r == parse(raw.s).value
    ensures raw.JStr? && parse(raw.s).None? ==> r == fallback
    ensures !Nullish(raw) && !raw.JStr? ==> r == raw
  {
    if Nullish(raw) then fallback
    else if raw.JStr? then parse(raw.s).GetOr(fallback)
    else raw
  }
}
