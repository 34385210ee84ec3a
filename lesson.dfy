/**
 * The segmentation of a lesson's explanation (src/components/LessonExplanation.tsx):
 * the text is cut into html parts and code parts, where every
 * `<pre><code>…</code></pre>` span (the inner text matched lazily) becomes a
 * code part holding the entity-decoded inner text. Entity decoding needs a
 * DOM; it is the parameter `decode` here.
 */
module Lesson {
  import opened Wrappers

  datatype Part = Html(value: string) | Code(value: string)

  const Open: string := "<pre><code>"
  const Close: string := "</code></pre>"

  /** `pat` occurs in `s` at position `i`. */
  predicate IsAt(s: string, pat: string, i: int) {
    0 <= i && i + |pat| <= |s| && s[i..i + |pat|] == pat
  }

  /** The first position at or after `from` where `pat` occurs, or -1. */
  function FirstAt(s: string, pat: string, from: nat): (k: int)
    ensures k == -1 || from <= k
    ensures k == -1 ==> forall i :: from <= i ==> !IsAt(s, pat, i)
    ensures k >= 0 ==> IsAt(s, pat, k) && forall i :: from <= i < k ==> !IsAt(s, pat, i)
    decreases |s| - from
  {
    if from + |pat| > |s| then -1
    else if s[from..from + |pat|] == pat then from
    else FirstAt(s, pat, from + 1)
  }

  /**
   * What `re.exec` finds from `last`: the first `<pre><code>` at or after
   * `last` and the first `</code></pre>` after it. When the first opening has
   * no closing after it, no later opening has one either, so there is no match.
   */
  function NextMatch(s: string, last: nat): (r: Option<(nat, nat)>)
    ensures r.Some? ==> last <= r.value.0 && r.value.0 + |Open| <= r.value.1 && r.value.1 + |Close| <= |s|
  {
    var p := FirstAt(s, Open, last);
    if p == -1 then None
    else
      var c := FirstAt(s, Close, p + |Open|);
      if c == -1 then None else Some((p, c))
  }

  /** A match is the leftmost opening and the nearest closing after it; no match means no complete span. */
  lemma NextMatchFacts(s: string, last: nat)
    ensures NextMatch(s, last).Some? ==> var (p, c) := NextMatch(s, last).value;
      && IsAt(s, Open, p) && IsAt(s, Close, c)
      && (forall i :: last <= i < p ==> !IsAt(s, Open, i))
      && (forall i :: p + |Open| <= i < c ==> !IsAt(s, Close, i))
    ensures NextMatch(s, last).None? ==>
      forall p, c :: last <= p && p + |Open| <= c && IsAt(s, Open, p) ==> !IsAt(s, Close, c)
  {
    var p := FirstAt(s, Open, last);
    if p != -1 {
      var c := FirstAt(s, Close, p + |Open|);
      if c == -1 {
        forall p', c' | last <= p' && p' + |Open| <= c' && IsAt(s, Open, p') ensures !IsAt(s, Close, c') {
          assert p <= p';
        }
      }
    }
  }

  /** The two tags of a match are where the match says. */
  lemma MatchTags(s: string, last: nat)
    ensures NextMatch(s, last).Some? ==>
      IsAt(s, Open, NextMatch(s, last).value.0) && IsAt(s, Close, NextMatch(s, last).value.1)
  {
  }

  /** The parts from position `last` on, with each code part holding its raw inner text. */
  function Split(s: string, last: nat): seq<Part>
    requires last <= |s|
    decreases |s| - last
  {
    match NextMatch(s, last)
    case None => if last < |s| then [Html(s[last..])] else []
    case Some((p, c)) =>
      (if p > last then [Html(s[last..p])] else []) + [Code(s[p + |Open|..c])] + Split(s, c + |Close|)
  }

  function DecodePart(p: Part, decode: string -> string): Part {
    match p
    case Html(v) => Html(v)
    case Code(v) => Code(decode(v))
  }

  /** Code parts with their inner text entity-decoded; html parts unchanged. */
  function Decoded(parts: seq<Part>, decode: string -> string): (r: seq<Part>)
    ensures |r| == |parts|
  {
    if parts == [] then [] else [DecodePart(parts[0], decode)] + Decoded(parts[1..], decode)
  }

  lemma {:induction false} DecodedAt(parts: seq<Part>, decode: string -> string, i: int)
    requires 0 <= i < |parts|
    ensures Decoded(parts, decode)[i] == DecodePart(parts[i], decode)
    decreases |parts|
  {
    if i > 0 {
      DecodedAt(parts[1..], decode, i - 1);
    }
  }

  lemma {:induction false} DecodedAppend(a: seq<Part>, b: seq<Part>, decode: string -> string)
    ensures Decoded(a + b, decode) == Decoded(a, decode) + Decoded(b, decode)
    decreases |a|
  {
    if a == [] {
      assert a + b == b;
    } else {
      DecodedAppend(a[1..], b, decode);
      assert (a + b)[0] == a[0];
      assert (a + b)[1..] == a[1..] + b;
      var x, d1, db := [DecodePart(a[0], decode)], Decoded(a[1..], decode), Decoded(b, decode);
      assert x + (d1 + db) == (x + d1) + db;
    }
  }

  /** One round of the loop: the parts from `last` are the html before the match, the code, then the rest. */
  lemma SplitStep(s: string, last: nat, p: nat, c: nat)
    requires last <= |s| && NextMatch(s, last) == Some((p, c))
    ensures Split(s, last) == (if p > last then [Html(s[last..p])] else []) + [Code(s[p + |Open|..c])] + Split(s, c + |Close|)
  {
  }

  /** One round of the loop, after decoding. */
  lemma SegmentStep(s: string, last: nat, p: nat, c: nat, decode: string -> string)
    requires last <= |s| && NextMatch(s, last) == Some((p, c))
    ensures c + |Close| <= |s|
    ensures Decoded(Split(s, last), decode) ==
      (if p > last then [Html(s[last..p])] else []) + [Code(decode(s[p + |Open|..c]))] + Decoded(Split(s, c + |Close|), decode)
  {
    SplitStep(s, last, p, c);
    var head := if p > last then [Html(s[last..p])] else [];
    var raw := s[p + |Open|..c];
    var rest := Split(s, c + |Close|);
    DecodedAppend(head + [Code(raw)], rest, decode);
    DecodedAppend(head, [Code(raw)], decode);
    assert Decoded(head, decode) == head by {
      if p > last {
        assert head[1..] == [];
      }
    }
    assert Decoded([Code(raw)], decode) == [Code(decode(raw))] by {
      assert [Code(raw)][1..] == [];
    }
  }

  /** The `parts` memo: the `re.exec` loop over the whole text. */
  method Segments(html: string, decode: string -> string) returns (out: seq<Part>)
    ensures out == Decoded(Split(html, 0), decode)
  {
    out := [];
    var last: nat := 0;
    while true
      invariant last <= |html|
      invariant Decoded(Split(html, 0), decode) == out + Decoded(Split(html, last), decode)
      decreases |html| - last
    {
      var m := NextMatch(html, last);
      if m.None? {
        break;
      }
      var (start, close) := m.value;
      var end := close + |Close|;
      var head := if start > last then [Html(html[last..start])] else [];
      var code := Code(decode(html[start + |Open|..close]));
      SegmentStep(html, last, start, close, decode);
      Regroup(out, head, code, Decoded(Split(html, end), decode));
      out := out + head + [code];
      last := end;
    }
    SegmentEnd(html, last, decode);
    if last < |html| {
      out := out + [Html(html[last..])];
    }
  }

  lemma Regroup<T>(out: seq<T>, head: seq<T>, x: T, rest: seq<T>)
    ensures out + (head + [x] + rest) == (out + head + [x]) + rest
  {
  }

  /** After the last match, what is left is one html part, unless nothing is left. */
  lemma SegmentEnd(s: string, last: nat, decode: string -> string)
    requires last <= |s| && NextMatch(s, last).None?
    ensures Decoded(Split(s, last), decode) == if last < |s| then [Html(s[last..])] else []
  {
    if last < |s| {
      var one := [Html(s[last..])];
      assert Split(s, last) == one;
      assert one[1..] == [];
      assert Decoded(one, decode) == [DecodePart(one[0], decode)] + Decoded([], decode);
    }
  }

  /** The text a part stands for: html as is, code back inside its tags. */
  function PartText(p: Part): string {
    match p
    case Html(v) => v
    case Code(v) => Open + v + Close
  }

  function Render(parts: seq<Part>): string {
    if parts == [] then [] else PartText(parts[0]) + Render(parts[1..])
  }

  lemma {:induction false} RenderAppend(a: seq<Part>, b: seq<Part>)
    ensures Render(a + b) == Render(a) + Render(b)
    decreases |a|
  {
    if a == [] {
      assert a + b == b;
    } else {
      var ab := a + b;
      assert ab != [] && ab[0] == a[0] && ab[1..] == a[1..] + b;
      calc {
        Render(ab);
        PartText(a[0]) + Render(a[1..] + b);
        { RenderAppend(a[1..], b); }
        PartText(a[0]) + (Render(a[1..]) + Render(b));
        (PartText(a[0]) + Render(a[1..])) + Render(b);
        Render(a) + Render(b);
      }
    }
  }

  /** Interleaving the html parts with the matched spans gives back the text. */
  lemma {:induction false} SplitRenders(s: string, last: nat)
    requires last <= |s|
    ensures Render(Split(s, last)) == s[last..]
    decreases |s| - last
  {
    var m := NextMatch(s, last);
    if m.None? {
      if last < |s| {
        var one := [Html(s[last..])];
        assert Split(s, last) == one;
        assert one[1..] == [];
        assert Render(one) == s[last..] + [];
      }
    } else {
      var (p, c) := m.value;
      SplitRenders(s, c + |Close|);
      MatchTags(s, last);
      RenderStep(s, last, p, c, Split(s, c + |Close|));
      SplitStep(s, last, p, c);
    }
  }

  /** One match rendered back: the html before it, the span, then the rest. */
  lemma RenderStep(s: string, last: nat, p: nat, c: nat, rest: seq<Part>)
    requires last <= p && p + |Open| <= c && c + |Close| <= |s|
    requires IsAt(s, Open, p) && IsAt(s, Close, c)
    requires Render(rest) == s[c + |Close|..]
    ensures Render((if p > last then [Html(s[last..p])] else []) + [Code(s[p + |Open|..c])] + rest) == s[last..]
  {
    var head := if p > last then [Html(s[last..p])] else [];
    var raw := s[p + |Open|..c];
    RenderHead(s, last, p);
    RenderCode(raw);
    Pieces(s, last, p, c);
    RenderThree(head, [Code(raw)], rest);
  }

  lemma RenderThree(a: seq<Part>, b: seq<Part>, c: seq<Part>)
    ensures Render(a + b + c) == (Render(a) + Render(b)) + Render(c)
  {
    RenderAppend(a + b, c);
    RenderAppend(a, b);
  }

  lemma RenderHead(s: string, last: nat, p: nat)
    requires last <= p <= |s|
    ensures Render(if p > last then [Html(s[last..p])] else []) == s[last..p]
  {
    if p > last {
      var head := [Html(s[last..p])];
      assert head[1..] == [];
      assert Render(head) == s[last..p] + [];
    }
  }

  lemma RenderCode(raw: string)
    ensures Render([Code(raw)]) == Open + raw + Close
  {
    var code := [Code(raw)];
    assert code[1..] == [];
    assert Render(code) == (Open + raw + Close) + [];
  }

  /** Cutting the text at the two tags of a match. */
  lemma Pieces(s: string, last: nat, p: nat, c: nat)
    requires last <= p && p + |Open| <= c && c + |Close| <= |s|
    requires IsAt(s, Open, p) && IsAt(s, Close, c)
    ensures s[last..] == (s[last..p] + (Open + s[p + |Open|..c] + Close)) + s[c + |Close|..]
  {
    assert s[last..] == s[last..p] + s[p..];
    assert s[p..] == s[p..p + |Open|] + s[p + |Open|..];
    assert s[p + |Open|..] == s[p + |Open|..c] + s[c..];
    assert s[c..] == s[c..c + |Close|] + s[c + |Close|..];
  }

  /**
   * Html parts are never empty, an html part is always followed by a code
   * part (no two html parts are adjacent), and no code part's inner text
   * contains `</code></pre>` (the match is lazy).
   */
  ghost predicate WellFormed(parts: seq<Part>) {
    && (forall i :: 0 <= i < |parts| && parts[i].Html? ==> parts[i].value != [])
    && (forall i :: 0 <= i < |parts| - 1 && parts[i].Html? ==> parts[i + 1].Code?)
    && (forall i, j :: 0 <= i < |parts| && parts[i].Code? ==> !IsAt(parts[i].value, Close, j))
  }

  lemma {:induction false} SplitWellFormed(s: string, last: nat)
    requires last <= |s|
    ensures WellFormed(Split(s, last))
    decreases |s| - last
  {
    var m := NextMatch(s, last);
    if m.Some? {
      var (p, c) := m.value;
      SplitWellFormed(s, c + |Close|);
      WellFormedAfter(s, last, p, c);
    } else {
      SplitEnd(s, last);
    }
  }

  lemma WellFormedAfter(s: string, last: nat, p: nat, c: nat)
    requires last <= |s| && NextMatch(s, last) == Some((p, c))
    requires WellFormed(Split(s, c + |Close|))
    ensures WellFormed(Split(s, last))
  {
    var raw := s[p + |Open|..c];
    MatchInnerClean(s, last, p, c, raw);
    var head := if p > last then [Html(s[last..p])] else [];
    assert head == [] || (|head| == 1 && head[0].Html? && head[0].value != []);
    WellFormedStep(head, raw, Split(s, c + |Close|));
    SplitStep(s, last, p, c);
  }

  /** Without a further match the parts from `last` are at most one html part, never an empty one. */
  lemma SplitEnd(s: string, last: nat)
    requires last <= |s| && NextMatch(s, last).None?
    ensures Split(s, last) == if last < |s| then [Html(s[last..])] else []
    ensures WellFormed(Split(s, last))
  {
  }

  /** The inner text of a match holds no closing tag. */
  lemma MatchInnerClean(s: string, last: nat, p: nat, c: nat, inner: string)
    requires NextMatch(s, last) == Some((p, c)) && inner == s[p + |Open|..c]
    ensures forall j :: !IsAt(inner, Close, j)
  {
    NextMatchFacts(s, last);
    InnerHasNoClose(s, p + |Open|, c);
  }

  /** Text strictly between an opening and the nearest closing holds no closing tag. */
  lemma InnerHasNoClose(s: string, from: nat, c: nat)
    requires from <= c <= |s|
    requires forall i :: from <= i < c ==> !IsAt(s, Close, i)
    ensures forall j :: !IsAt(s[from..c], Close, j)
  {
    forall j | IsAt(s[from..c], Close, j) ensures false {
      var inner := s[from..c];
      assert 0 <= j && j + |Close| <= |inner|;
      forall k | j <= k < j + |Close| ensures inner[k] == s[from + k] {
      }
      assert inner[j..j + |Close|] == s[from + j..from + j + |Close|];
      assert IsAt(s, Close, from + j);
    }
  }

  /** An optional non-empty html part, a code part free of the closing tag, then well-formed parts. */
  lemma WellFormedStep(head: seq<Part>, raw: string, rest: seq<Part>)
    requires head == [] || (|head| == 1 && head[0].Html? && head[0].value != [])
    requires forall j :: !IsAt(raw, Close, j)
    requires WellFormed(rest)
    ensures WellFormed(head + [Code(raw)] + rest)
  {
    var r := head + [Code(raw)] + rest;
    assert forall i :: |head| < i < |r| ==> r[i] == rest[i - |head| - 1];
  }

  /** The properties above hold for what the component shows. */
  lemma SegmentsWellFormed(s: string, decode: string -> string)
    ensures var parts := Decoded(Split(s, 0), decode);
      && (forall i :: 0 <= i < |parts| && parts[i].Html? ==> parts[i].value != [])
      && (forall i :: 0 <= i < |parts| - 1 && parts[i].Html? ==> parts[i + 1].Code?)
  {
    var raw := Split(s, 0);
    SplitWellFormed(s, 0);
    forall i | 0 <= i < |raw| ensures Decoded(raw, decode)[i] == DecodePart(raw[i], decode) {
      DecodedAt(raw, decode, i);
    }
  }

  /** An empty explanation has no parts; one without any complete span is a single html part. */
  lemma NoMatchIsOnePart(s: string)
    requires forall p, c :: 0 <= p && p + |Open| <= c && IsAt(s, Open, p) ==> !IsAt(s, Close, c)
    ensures s == [] ==> Split(s, 0) == []
    ensures s != [] ==> Split(s, 0) == [Html(s)]
  {
    NextMatchFacts(s, 0);
  }
}
