/**
 * The colour theme (src/theme/theme.ts over the constant palettes of
 * src/theme/palettes.ts): the stored palette key, the hex colour decoder and
 * the choices `applyTheme` makes when it writes the CSS variables.
 */
module Theme {
  import opened Wrappers
  import Js

  /** The localStorage key holding the chosen palette. */
  const StorageKey: string := "ccs_theme_palette_v1"
  const DefaultKey: string := "trans"

  /** `FLAG_PALETTES`. */
  const Palettes: map<string, seq<string>> := map[
    "trans" := ["#5BCEFA", "#F5A9B8", "#FFFFFF", "#F5A9B8", "#5BCEFA"],
    "pride" := ["#E40303", "#FF8C00", "#FFED00", "#008026", "#004CFF", "#732982"],
    "bisexual" := ["#D60270", "#D60270", "#9B4F96", "#0038A8", "#0038A8"],
    "lesbian" := ["#D52D00", "#EF7627", "#FF9A56", "#FFFFFF", "#D162A4", "#B55690", "#A30262"],
    "pansexual" := ["#FF218C", "#FFD800", "#21B1FF"],
    "agender" := ["#000000", "#BCC4C7", "#FFFFFF", "#B7F684", "#FFFFFF", "#BCC4C7", "#000000"],
    "boyflux" := ["#D8E9F8", "#6EACF5", "#033570", "#9FEDAC", "#033570", "#6EACF5", "#D8E9F8"],
    "asexual" := ["#000000", "#A3A3A3", "#FFFFFF", "#800080"],
    "aromantic" := ["#3DA542", "#A7D379", "#FFFFFF", "#A9A9A9", "#000000"],
    "genderfluid" := ["#FF76A4", "#FFFFFF", "#C011D7", "#000000", "#2F3CBE"]
  ]

  /** Every palette has between three and seven colours. */
  lemma PaletteSizes()
    ensures DefaultKey in Palettes
    ensures forall k :: k in Palettes ==> 3 <= |Palettes[k]| <= 7
  {
  }

  // ---------------------------------------------------------------- palette key

  /**
   * The property names every plain object inherits from `Object.prototype`:
   * indexing `FLAG_PALETTES` with one of them yields a function or an object,
   * which is truthy.
   */
  const InheritedNames: set<string> := {
    "constructor", "hasOwnProperty", "isPrototypeOf", "propertyIsEnumerable",
    "toLocaleString", "toString", "valueOf", "__proto__",
    "__defineGetter__", "__defineSetter__", "__lookupGetter__", "__lookupSetter__"
  }

  /** `FLAG_PALETTES[k]` is truthy, as the source tests it. */
  predicate TruthyAsWritten(k: string) {
    k in Palettes || k in InheritedNames
  }

  /** `getThemePaletteKey` as written, from the stored entry (None when absent). */
  function PaletteKeyAsWritten(raw: Option<string>): (r: string)
    ensures r == DefaultKey || (raw == Some(r) && r != [] && TruthyAsWritten(r))
    ensures raw.Some? && raw.value in Palettes ==> r == raw.value
  {
    if raw.Some? && raw.value != [] && TruthyAsWritten(raw.value) then raw.value else DefaultKey
  }

  /** A stored "constructor" survives the check although it names no palette. */
  lemma InheritedNameAccepted()
    ensures PaletteKeyAsWritten(Some("constructor")) == "constructor"
    ensures "constructor" !in Palettes
  {
    assert "constructor" in InheritedNames;
  }

  /** `getThemePaletteKey` with the test meant: the stored key if it names a palette, else the default. */
  function PaletteKey(raw: Option<string>): (r: string)
    ensures r in Palettes
    ensures raw.Some? && raw.value in Palettes ==> r == raw.value
    ensures !(raw.Some? && raw.value in Palettes) ==> r == DefaultKey
  {
    PaletteSizes();
    if raw.Some? && raw.value in Palettes then raw.value else DefaultKey
  }

  /** Both readings agree on every stored value except the inherited names. */
  lemma PaletteKeyAgrees(raw: Option<string>)
    requires raw.None? || raw.value !in InheritedNames
    ensures PaletteKeyAsWritten(raw) == PaletteKey(raw)
  {
  }

  /** The palette key in localStorage. */
  class ThemeStore {
    var items: map<string, string>

    constructor ()
      ensures items == map[]
    {
      items := map[];
    }

    function Stored(): Option<string>
      reads this
    {
      if StorageKey in items then Some(items[StorageKey]) else None
    }

    /** `getThemePaletteKey`. */
    function CurrentKey(): (k: string)
      reads this
      ensures k in Palettes
    {
      PaletteKey(Stored())
    }

    /** `setThemePaletteKey`: an unknown key leaves the storage alone. */
    method SetPaletteKey(key: string)
      modifies this
      ensures key in Palettes ==> items == old(items)[StorageKey := key]
      ensures key !in Palettes ==> items == old(items)
      ensures key in Palettes ==> CurrentKey() == key
      ensures key !in Palettes ==> CurrentKey() == old(CurrentKey())
    {
      if key !in Palettes {
        return;
      }
      items := items[StorageKey := key];
    }

    /** `setThemePaletteKey` as written: the guard lets an inherited property name through. */
    method SetPaletteKeyAsWritten(key: string)
      modifies this
      ensures TruthyAsWritten(key) ==> items == old(items)[StorageKey := key]
      ensures !TruthyAsWritten(key) ==> items == old(items)
    {
      if !TruthyAsWritten(key) {
        return;
      }
      items := items[StorageKey := key];
    }
  }

  /** The setter as written stores "constructor", which names no palette. */
  method ConstructorGetsStored() returns (store: ThemeStore)
    ensures store.Stored() == Some("constructor") && "constructor" !in Palettes
  {
    store := new ThemeStore();
    assert "constructor" in InheritedNames;
    store.SetPaletteKeyAsWritten("constructor");
  }

  // ---------------------------------------------------------------- hex colours

  /** `r` is `s` without its `#` at `i`, the first `#` of `s`. */
  predicate FirstHashRemovedAt(s: string, r: string, i: int) {
    0 <= i < |s| && s[i] == '#' && '#' !in s[..i] && r == s[..i] + s[i + 1..]
  }

  /** `hex.replace("#", "")`: only the first `#` goes. */
  function RemoveFirstHash(s: string): (r: string)
    ensures '#' !in s ==> r == s
    ensures '#' in s ==> |r| == |s| - 1 && exists i :: FirstHashRemovedAt(s, r, i)
    ensures s != [] && s[0] == '#' ==> r == s[1..]
  {
    if s == [] then []
    else if s[0] == '#' then
      assert FirstHashRemovedAt(s, s[1..], 0) by { assert s[..0] + s[1..] == s[1..]; }
      s[1..]
    else
      var t := RemoveFirstHash(s[1..]);
      if '#' in s then
        HashInTail(s);
        var i :| FirstHashRemovedAt(s[1..], t, i);
        FirstHashStep(s, t, i);
        [s[0]] + t
      else
        [s[0]] + t
  }

  lemma HashInTail(s: string)
    requires s != [] && s[0] != '#' && '#' in s
    ensures '#' in s[1..]
  {
    var j :| 0 <= j < |s| && s[j] == '#';
    assert s[1..][j - 1] == '#';
  }

  /** A first `#` of the tail, behind a head that is no `#`, is the first `#` of the whole. */
  lemma FirstHashStep(s: string, t: string, i: int)
    requires s != [] && s[0] != '#' && FirstHashRemovedAt(s[1..], t, i)
    ensures FirstHashRemovedAt(s, [s[0]] + t, i + 1)
  {
    assert s[..i + 1] == [s[0]] + s[1..][..i];
    assert s[i + 2..] == s[1..][i + 1..];
  }

  /** The three-digit short form with every digit doubled; any other text as is. */
  function Expand3(h: string): (r: string)
    ensures |h| == 3 ==> |r| == 6 && forall i :: 0 <= i < 6 ==> r[i] == h[i / 2]
    ensures |h| != 3 ==> r == h
  {
    if |h| == 3 then [h[0], h[0], h[1], h[1], h[2], h[2]] else h
  }

  predicate IsHexDigit(c: char) {
    ('0' <= c <= '9') || ('a' <= c <= 'f') || ('A' <= c <= 'F')
  }

  predicate AllHex(s: string) {
    forall i :: 0 <= i < |s| ==> IsHexDigit(s[i])
  }

  /** The value of a hex digit (a character that is none is never weighed; it counts 0). */
  function HexDigit(c: char): (d: nat)
    ensures d < 16
  {
    if '0' <= c <= '9' then (c - '0') as nat
    else if 'a' <= c <= 'f' then (c - 'a') as nat + 10
    else if 'A' <= c <= 'F' then (c - 'A') as nat + 10
    else 0
  }

  /** The value of a run of hex digits, most significant first. */
  function HexValue(s: string): (n: nat)
  {
    if s == [] then 0 else 16 * HexValue(s[..|s| - 1]) + HexDigit(s[|s| - 1])
  }

  /** The length of the longest run of hex digits at the start of `s`. */
  function HexRun(s: string): (n: nat)
    ensures n <= |s| && AllHex(s[..n])
    ensures n < |s| ==> !IsHexDigit(s[n])
  {
    if s == [] || !IsHexDigit(s[0]) then 0
    else
      var n := 1 + HexRun(s[1..]);
      assert s[..n] == [s[0]] + s[1..][..n - 1];
      n
  }

  /**
   * `parseInt(s, 16)`: leading white space skipped, an optional sign, an
   * optional `0x`/`0X`, then the longest run of hex digits; None (NaN) when
   * that run is empty.
   */
  function ParseHex(s: string): (r: Option<int>)
    ensures r.None? <==> HexRun(HexBody(s)) == 0
  {
    var v := HexBody(s);
    var n := HexRun(v);
    if n == 0 then None
    else
      var m: int := HexValue(v[..n]);
      Some(if Negative(s) then -m else m)
  }

  /** The text after white space is skipped. */
  function Unsigned(s: string): string {
    var t := Js.TrimStart(s);
    if t != [] && (t[0] == '-' || t[0] == '+') then t[1..] else t
  }

  predicate Negative(s: string) {
    var t := Js.TrimStart(s);
    t != [] && t[0] == '-'
  }

  /** The text where the digits start, after white space, sign and `0x`. */
  function HexBody(s: string): string {
    var u := Unsigned(s);
    if |u| >= 2 && u[0] == '0' && (u[1] == 'x' || u[1] == 'X') then u[2..] else u
  }

  datatype Rgb = Rgb(r: int, g: int, b: int)

  /**
   * `hexToRgb`: the parsed value (0 when it is NaN) cut into its three
   * low bytes, as `>>` and `& 255` do on its 32-bit form.
   */
  function HexToRgb(hex: string): (c: Rgb)
    ensures 0 <= c.r < 256 && 0 <= c.g < 256 && 0 <= c.b < 256
    ensures c.r * 65536 + c.g * 256 + c.b == HexNumber(hex) % 16777216
  {
    var n := HexNumber(hex);
    var c := Rgb((n / 65536) % 256, (n / 256) % 256, n % 256);
    Bytes(n);
    c
  }

  /** The number `parseInt` yields in `hexToRgb`, NaN read as 0. */
  function HexNumber(hex: string): int {
    match ParseHex(Expand3(RemoveFirstHash(hex)))
    case None => 0
    case Some(v) => v
  }

  lemma Bytes(n: int)
    ensures ((n / 65536) % 256) * 65536 + ((n / 256) % 256) * 256 + n % 256 == n % 16777216
  {
    var n1 := n / 256;
    var n2 := n1 / 256;
    var n3 := n2 / 256;
    assert n == 256 * n1 + n % 256;
    assert n1 == 256 * n2 + n1 % 256;
    assert n2 == 256 * n3 + n2 % 256;
    assert n == 65536 * n2 + 256 * (n1 % 256) + n % 256;
    assert n / 65536 == n2;
    assert n == 16777216 * n3 + (65536 * (n2 % 256) + 256 * (n1 % 256) + n % 256);
  }

  /** Three bytes written as six hex digits come back as themselves. */
  lemma BytesBack(n: int, x: nat, y: nat, z: nat)
    requires x < 256 && y < 256 && z < 256 && n == x * 65536 + y * 256 + z
    ensures (n / 65536) % 256 == x && (n / 256) % 256 == y && n % 256 == z
  {
  }

  predicate SixDigits(d: string) {
    |d| == 6 && AllHex(d)
  }

  /** `parseInt` of a non-empty run of hex digits is its value. */
  lemma ParseHexDigits(d: string)
    requires d != [] && AllHex(d)
    ensures ParseHex(d) == Some(HexValue(d))
  {
    assert IsHexDigit(d[0]);
    assert !Js.IsSpace(d[0]);
    assert Js.TrimStart(d) == d;
    assert Unsigned(d) == d;
    if |d| >= 2 {
      assert IsHexDigit(d[1]);
    }
    assert HexBody(d) == d;
    HexRunAll(d);
    assert d[..|d|] == d;
  }

  /** A colour whose number is the value of six hex digits decodes to their three two-digit values. */
  lemma ColorOfValue(hex: string, d: string)
    requires SixDigits(d) && HexNumber(hex) == HexValue(d)
    ensures HexToRgb(hex) == Rgb(HexValue(d[..2]), HexValue(d[2..4]), HexValue(d[4..]))
  {
    SixValue(d);
    var x, y, z := HexValue(d[..2]), HexValue(d[2..4]), HexValue(d[4..]);
    var n := HexNumber(hex);
    assert n == x * 65536 + y * 256 + z;
    BytesBack(n, x, y, z);
    assert HexToRgb(hex) == Rgb((n / 65536) % 256, (n / 256) % 256, n % 256);
  }

  /** `#rrggbb` decodes to its three two-digit values. */
  lemma SixDigitColor(d: string)
    requires SixDigits(d)
    ensures HexToRgb("#" + d) == Rgb(HexValue(d[..2]), HexValue(d[2..4]), HexValue(d[4..]))
  {
    assert RemoveFirstHash("#" + d) == d;
    ParseHexDigits(d);
    ColorOfValue("#" + d, d);
  }

  /** One more digit on the right: sixteen times the value so far, plus the digit. */
  lemma HexPrefix(d: string, k: nat)
    requires 1 <= k <= |d|
    ensures HexValue(d[..k]) == 16 * HexValue(d[..k - 1]) + HexDigit(d[k - 1])
  {
    assert d[..k][..k - 1] == d[..k - 1];
  }

  lemma TwoValue(x: string)
    requires |x| == 2
    ensures HexValue(x) == 16 * HexDigit(x[0]) + HexDigit(x[1])
  {
    HexPrefix(x, 1);
    assert x[..1][..0] == [];
    assert x[..2] == x;
  }

  /** The value of six hex digits, two by two. */
  lemma SixValue(d: string)
    requires |d| == 6
    ensures HexValue(d[..2]) == 16 * HexDigit(d[0]) + HexDigit(d[1])
    ensures HexValue(d[2..4]) == 16 * HexDigit(d[2]) + HexDigit(d[3])
    ensures HexValue(d[4..]) == 16 * HexDigit(d[4]) + HexDigit(d[5])
    ensures HexValue(d) == HexValue(d[..2]) * 65536 + HexValue(d[2..4]) * 256 + HexValue(d[4..])
  {
    TwoValue(d[..2]);
    TwoValue(d[2..4]);
    TwoValue(d[4..]);
    HexPrefix(d, 3);
    HexPrefix(d, 4);
    HexPrefix(d, 5);
    HexPrefix(d, 6);
    assert d[..6] == d;
  }

  lemma {:induction false} HexRunAll(s: string)
    requires AllHex(s)
    ensures HexRun(s) == |s|
    decreases |s|
  {
    if s != [] {
      assert AllHex(s[1..]) by {
        forall i | 0 <= i < |s[1..]| ensures IsHexDigit(s[1..][i]) {
          assert s[1..][i] == s[i + 1];
        }
      }
      HexRunAll(s[1..]);
    }
  }

  /** `#rgb` decodes with each digit doubled, so a digit d gives the byte 17 * d. */
  lemma ThreeDigitColor(x: char, y: char, z: char)
    requires IsHexDigit(x) && IsHexDigit(y) && IsHexDigit(z)
    ensures HexToRgb(['#', x, y, z]) == Rgb(17 * HexDigit(x), 17 * HexDigit(y), 17 * HexDigit(z))
  {
    var d := [x, x, y, y, z, z];
    ThreeDigitNumber(x, y, z);
    ColorOfValue(['#', x, y, z], d);
    DoubledChannels(x, y, z);
  }

  /** Each doubled digit d of `rrggbb` is worth 17 * d. */
  lemma DoubledChannels(x: char, y: char, z: char)
    ensures var d := [x, x, y, y, z, z];
      HexValue(d[..2]) == 17 * HexDigit(x) && HexValue(d[2..4]) == 17 * HexDigit(y) && HexValue(d[4..]) == 17 * HexDigit(z)
  {
    var d := [x, x, y, y, z, z];
    assert d[..2] == [x, x] && d[2..4] == [y, y] && d[4..] == [z, z];
    TwoValue([x, x]);
    TwoValue([y, y]);
    TwoValue([z, z]);
  }

  lemma ThreeDigitNumber(x: char, y: char, z: char)
    requires IsHexDigit(x) && IsHexDigit(y) && IsHexDigit(z)
    ensures SixDigits([x, x, y, y, z, z]) && HexNumber(['#', x, y, z]) == HexValue([x, x, y, y, z, z])
  {
    var d := [x, x, y, y, z, z];
    assert RemoveFirstHash(['#', x, y, z]) == [x, y, z];
    assert Expand3([x, y, z]) == d;
    assert AllHex(d);
    ParseHexDigits(d);
  }

  /** A colour without any hex digit decodes as black. */
  lemma NoDigitsIsBlack(hex: string)
    requires HexRun(HexBody(Expand3(RemoveFirstHash(hex)))) == 0
    ensures HexToRgb(hex) == Rgb(0, 0, 0)
  {
    var body := Expand3(RemoveFirstHash(hex));
    assert ParseHex(body).None?;
    assert HexNumber(hex) == 0;
    Bytes(0);
  }

  // ---------------------------------------------------------------- applyTheme

  /** `FLAG_PALETTES[key] ?? FLAG_PALETTES.trans`, with own keys only. */
  function PaletteFor(key: string): (colors: seq<string>)
    ensures key in Palettes ==> colors == Palettes[key]
    ensures key !in Palettes ==> colors == Palettes[DefaultKey]
    ensures 3 <= |colors| <= 7
  {
    PaletteSizes();
    if key in Palettes then Palettes[key] else Palettes[DefaultKey]
  }

  /** The colour index of slot `--p{i+1}`: the last colour repeats when the palette is short. */
  function SlotIndex(i: nat, len: nat): (k: nat)
    requires len >= 1
    ensures k < len
    ensures i < len ==> k == i
    ensures i >= len ==> k == len - 1
  {
    if i < len - 1 then i else len - 1
  }

  /** `--accent2` is the middle colour (the `?? accent` fallback never applies to a non-empty palette). */
  function Accent2Index(len: nat): (k: nat)
    requires len >= 1
    ensures k < len && 2 * k <= len < 2 * k + 2
  {
    len / 2
  }

  /** `Math.round(i / max(1, len - 1) * 100)`, with exact rational arithmetic. */
  function StopPercent(i: nat, len: nat): (pct: int)
    ensures var d := if len <= 1 then 1 else len - 1; 2 * d * pct <= 200 * i + d < 2 * d * (pct + 1)
  {
    var d := if len <= 1 then 1 else len - 1;
    (200 * i + d) / (2 * d)
  }

  /** The first stop is at 0%, the last at 100%, and every stop lies within [0, 100]. */
  lemma StopsSpan(len: nat)
    ensures StopPercent(0, len) == 0
    ensures len >= 2 ==> StopPercent(len - 1, len) == 100
    ensures forall i :: 0 <= i < len ==> 0 <= StopPercent(i, len) <= 100
  {
    var d := if len <= 1 then 1 else len - 1;
    DivBelow(d, 2 * d, 1);
    forall i | 0 <= i < len ensures 0 <= StopPercent(i, len) <= 100 {
      DivBelow(200 * i + d, 2 * d, 101);
    }
    if len >= 2 {
      DivAtLeast(200 * (len - 1) + d, 2 * d, 100);
    }
  }

  /** A non-negative number below `k * q` divides by `k` to less than `q`. */
  lemma DivBelow(x: int, k: int, q: int)
    requires k > 0 && 0 <= x < k * q
    ensures 0 <= x / k < q
  {
    if x / k >= q {
      MulMono(k, q, x / k);
    }
  }

  lemma MulMono(k: int, a: int, b: int)
    requires k > 0 && a <= b
    ensures k * a <= k * b
  {
  }

  /** At least `k * q` divides by `k` to at least `q`. */
  lemma DivAtLeast(x: int, k: int, q: int)
    requires k > 0 && k * q <= x
    ensures q <= x / k
  {
    if x / k < q {
      MulMono(k, x / k + 1, q);
    }
  }

  /** Later colours never get an earlier stop. */
  lemma StopsClimb(i: nat, j: nat, len: nat)
    requires i <= j
    ensures StopPercent(i, len) <= StopPercent(j, len)
  {
    var d := if len <= 1 then 1 else len - 1;
    var p, q := StopPercent(i, len), StopPercent(j, len);
    if p > q {
      MulMono(2 * d, q + 1, p);
    }
  }

  /** One `${c} ${pct}%` stop per colour, in order. */
  function Stops(colors: seq<string>): (r: seq<string>)
    ensures |r| == |colors|
    ensures forall i :: 0 <= i < |r| ==> r[i] == colors[i] + " " + Js.IntToString(StopPercent(i, |colors|)) + "%"
  {
    seq(|colors|, i requires 0 <= i < |colors| => colors[i] + " " + Js.IntToString(StopPercent(i, |colors|)) + "%")
  }

  function Join(xs: seq<string>, sep: string): string {
    if xs == [] then [] else if |xs| == 1 then xs[0] else xs[0] + sep + Join(xs[1..], sep)
  }

  /** The `--flag-grad` value. */
  function Gradient(colors: seq<string>): string {
    "linear-gradient(135deg, " + Join(Stops(colors), ", ") + ")"
  }

  /** The gradient is a 135-degree linear gradient; a single colour is one stop at 0%. */
  lemma GradientShape(colors: seq<string>)
    ensures var g := Gradient(colors);
      |g| >= 25 && g[..24] == "linear-gradient(135deg, " && g[|g| - 1] == ')'
    ensures |colors| == 1 ==> Gradient(colors) == "linear-gradient(135deg, " + colors[0] + " 0%)"
  {
    if |colors| == 1 {
      assert StopPercent(0, 1) == 0;
      assert Js.IntToString(0) == "0";
    }
  }

  /** `--p1` … `--p7`. */
  function SlotName(i: nat): (name: string)
    requires i < 7
    ensures |name| == 4 && name[..3] == "--p" && name[3] == ('1' as int + i) as char
  {
    "--p" + [('1' as int + i) as char]
  }

  /** The variables `applyTheme` writes besides the seven slots. */
  const FixedNames: set<string> := {"--accent", "--accent2", "--bg", "--card", "--text", "--muted", "--border", "--shadow", "--flag-grad"}

  predicate IsSlotName(name: string) {
    |name| == 4 && name[..3] == "--p" && '1' <= name[3] <= '7'
  }

  lemma SlotNamesDistinct()
    ensures forall i, j :: 0 <= i < 7 && 0 <= j < 7 && i != j ==> SlotName(i) != SlotName(j)
    ensures forall i :: 0 <= i < 7 ==> IsSlotName(SlotName(i)) && SlotName(i) !in FixedNames
  {
    forall i | 0 <= i < 7 ensures SlotName(i) !in FixedNames {
      var n := SlotName(i);
      assert n[2] == 'p';
    }
    forall i, j | 0 <= i < 7 && 0 <= j < 7 && i != j ensures SlotName(i) != SlotName(j) {
      assert SlotName(i)[3] != SlotName(j)[3];
    }
  }

  /** Slot `i` holds the colour `applyTheme` picks for it. */
  predicate SlotsHold(style: map<string, string>, colors: seq<string>, upto: nat)
    requires |colors| >= 1 && upto <= 7
  {
    forall i :: 0 <= i < upto ==> SlotName(i) in style && style[SlotName(i)] == colors[SlotIndex(i, |colors|)]
  }

  /** The document root: its inline CSS variables and its `data-palette` attribute. */
  class DocumentRoot {
    var style: map<string, string>
    var palette: Option<string>

    constructor ()
      ensures style == map[] && palette == None
    {
      style := map[];
      palette := None;
    }

    /**
     * `applyTheme`. The background colour mixes the accent with white in
     * floating point; it is the parameter `background` here.
     */
    method ApplyTheme(key: string, background: string -> string)
      modifies this
      ensures var colors := PaletteFor(key);
        && SlotsHold(style, colors, 7)
        && FixedHold(style, colors, background)
      ensures forall name :: !IsSlotName(name) && name !in FixedNames ==>
        (name in style <==> name in old(style)) && (name in style ==> style[name] == old(style)[name])
      ensures palette == Some(key)
    {
      var colors := PaletteFor(key);
      SetSlots(colors);
      SetFixed(colors, background);
      palette := Some(key);
    }

    /** The loop over `--p1` … `--p7`. */
    method SetSlots(colors: seq<string>)
      requires |colors| >= 1
      modifies this
      ensures SlotsHold(style, colors, 7)
      ensures forall name :: !IsSlotName(name) ==>
        (name in style <==> name in old(style)) && (name in style ==> style[name] == old(style)[name])
      ensures palette == old(palette)
    {
      SlotNamesDistinct();
      for i := 0 to 7
        invariant SlotsHold(style, colors, i)
        invariant forall name :: !IsSlotName(name) ==>
          (name in style <==> name in old(style)) && (name in style ==> style[name] == old(style)[name])
        invariant palette == old(palette)
      {
        style := style[SlotName(i) := colors[SlotIndex(i, |colors|)]];
      }
    }

    /** The accents, the background, the fixed colours and the gradient; every other variable stays. */
    method SetFixed(colors: seq<string>, background: string -> string)
      requires |colors| >= 1
      modifies this
      ensures FixedHold(style, colors, background)
      ensures forall name :: name !in FixedNames ==>
        (name in style <==> name in old(style)) && (name in style ==> style[name] == old(style)[name])
      ensures SlotsHold(old(style), colors, 7) ==> SlotsHold(style, colors, 7)
      ensures palette == old(palette)
    {
      SlotNamesDistinct();
      style := style + FixedValues(colors, background);
    }
  }

  /** The values `applyTheme` gives the fixed variables. */
  function FixedValues(colors: seq<string>, background: string -> string): (m: map<string, string>)
    requires |colors| >= 1
    ensures m.Keys == FixedNames
  {
    map[
      "--accent" := colors[0],
      "--accent2" := colors[Accent2Index(|colors|)],
      "--bg" := background(colors[0]),
      "--card" := "rgba(255,255,255,0.9)",
      "--text" := "rgb(20 20 22)",
      "--muted" := "rgb(105 105 115)",
      "--border" := "rgba(0,0,0,0.08)",
      "--shadow" := "0 10px 30px rgba(0,0,0,0.10)",
      "--flag-grad" := Gradient(colors)
    ]
  }

  /** Every fixed variable holds the value `applyTheme` gives it. */
  predicate FixedHold(style: map<string, string>, colors: seq<string>, background: string -> string)
    requires |colors| >= 1
  {
    var m := FixedValues(colors, background);
    forall name :: name in m ==> name in style && style[name] == m[name]
  }

  /**
   * The accent is the first colour and the second accent the middle one, the
   * background comes from the accent, and the gradient runs through all colours.
   */
  lemma FixedValuesAre(colors: seq<string>, background: string -> string)
    requires |colors| >= 1
    ensures var m := FixedValues(colors, background);
      && m["--accent"] == colors[0]
      && m["--accent2"] == colors[Accent2Index(|colors|)]
      && m["--bg"] == background(colors[0])
      && m["--flag-grad"] == Gradient(colors)
  {
    var m := FixedValues(colors, background);
    assert m["--flag-grad"] == Gradient(colors);
    assert m["--bg"] == background(colors[0]) by { assert "--bg" != "--flag-grad" && "--bg" != "--shadow" && "--bg" != "--border" && "--bg" != "--muted" && "--bg" != "--text" && "--bg" != "--card"; }
    assert m["--accent2"] == colors[Accent2Index(|colors|)] by { assert |"--accent2"| == 9; }
    assert m["--accent"] == colors[0] by { assert |"--accent"| == 8 && "--accent" != "--accent2"; }
  }

  /** An unknown key themes the page exactly like the default palette. */
  lemma UnknownKeyIsDefault(key: string)
    requires key !in Palettes
    ensures PaletteFor(key) == PaletteFor(DefaultKey)
  {
    PaletteSizes();
  }

  /** With fewer than seven colours the last one fills the remaining slots; with seven each slot has its own. */
  lemma SlotsOfPalette(colors: seq<string>, i: nat)
    requires |colors| >= 1 && i < 7
    ensures i < |colors| ==> colors[SlotIndex(i, |colors|)] == colors[i]
    ensures i >= |colors| ==> colors[SlotIndex(i, |colors|)] == colors[|colors| - 1]
  {
  }
}
