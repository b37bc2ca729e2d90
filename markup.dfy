/**
 * Shared vocabulary of the three parsing components: the element types, the
 * element record the scanners produce, and the JavaScript string primitives
 * they rely on (the `\s` class, `trim`, prefix and suffix tests, lowercasing).
 */
module Markup {

  datatype Option<+T> = None | Some(value: T) {
    function GetOr(default: T): T {
      match this
      case Some(v) => v
      case None => default
    }
  }

  /** The six element types (node-htmlparser.js:25-32; lib/ElementType.js is not part of this model). */
  datatype ElementType = Text | Directive | Comment | Script | Style | Tag

  /** The special regions a scanner can be inside, kept on its tag stack. */
  type Region = t: ElementType | t == Script || t == Style || t == Comment witness Script

  /** Position of an element in the document, 1-based line and column. */
  datatype Location = Location(line: int, col: int)

  /**
   * One lexical element. `name`, `attribs` and `location` are the properties
   * the source adds only in some cases; `None` stands for an absent property.
   */
  datatype Element = Element(
    raw: string,
    data: string,
    etype: ElementType,
    name: Option<string>,
    attribs: Option<map<string, string>>,
    location: Option<Location>)

  /** The element types that can hold children and carry attributes. */
  predicate IsContainerType(t: ElementType) {
    t == Tag || t == Script || t == Style
  }

  /** JavaScript's `\s` character class (also what `String.prototype.trim` strips). */
  predicate IsSpace(c: char) {
    c == ' ' || c == '\t' || c == '\n' || c == '\r' || c == '\U{0B}' || c == '\U{0C}'
    || c == '\U{A0}' || c == '\U{1680}' || ('\U{2000}' <= c <= '\U{200A}')
    || c == '\U{2028}' || c == '\U{2029}' || c == '\U{202F}' || c == '\U{205F}'
    || c == '\U{3000}' || c == '\U{FEFF}'
  }

  /** The UTF-16 code units of a character: two outside the Basic Multilingual Plane. */
  function CharUnits(c: char): nat {
    if c as int < 0x10000 then 1 else 2
  }

  /**
   * JavaScript's `length` of a string: its UTF-16 code units. The model's
   * strings hold Unicode scalar values, so a character beyond U+FFFF counts twice.
   */
  function Units(s: string): (n: nat)
    ensures |s| <= n <= 2 * |s|
    ensures n == |s| <==> forall k :: 0 <= k < |s| ==> CharUnits(s[k]) == 1
  {
    if s == [] then 0
    else
      var n := Units(s[..|s| - 1]) + CharUnits(s[|s| - 1]);
      assert forall k :: 0 <= k < |s| - 1 ==> s[..|s| - 1][k] == s[k];
      n
  }

  /** The code units of a concatenation are those of its parts. */
  lemma {:induction false} UnitsAppend(a: string, b: string)
    ensures Units(a + b) == Units(a) + Units(b)
    decreases |b|
  {
    if b != [] {
      assert (a + b)[..|a + b| - 1] == a + b[..|b| - 1];
      UnitsAppend(a, b[..|b| - 1]);
    } else {
      assert a + b == a;
    }
  }

  /**
   * A position `i` is more than one code unit before the end exactly when at
   * least two code units follow it, and then some character follows it.
   */
  lemma UnitsTail(s: string, i: nat)
    requires i <= |s|
    ensures Units(s[..i]) < Units(s) - 1 <==> Units(s[i..]) >= 2
    ensures Units(s[..i]) < Units(s) - 1 ==> i < |s|
  {
    assert s[..i] + s[i..] == s;
    UnitsAppend(s[..i], s[i..]);
    var b := Units(s[i..]);
    assert b <= 2 * (|s| - i);
  }

  /** U+1F600 is one character of the model and two code units in JavaScript. */
  lemma AstralUnits()
    ensures |"\U{1F600}"| == 1 && Units("\U{1F600}") == 2
  {
    assert "\U{1F600}"[..0] == [];
  }

  predicate AllSpace(s: string) {
    forall i :: 0 <= i < |s| ==> IsSpace(s[i])
  }

  predicate NoSpace(s: string) {
    forall i :: 0 <= i < |s| ==> !IsSpace(s[i])
  }

  predicate StartsWith(s: string, prefix: string) {
    |prefix| <= |s| && s[..|prefix|] == prefix
  }

  predicate EndsWith(s: string, suffix: string) {
    |suffix| <= |s| && s[|s| - |suffix|..] == suffix
  }

  /** Index of the first non-space character at or after `i`. */
  function SkipSpace(s: string, i: nat): (j: nat)
    requires i <= |s|
    ensures i <= j <= |s|
    ensures AllSpace(s[i..j])
    ensures j == |s| || !IsSpace(s[j])
    decreases |s| - i
  {
    if i == |s| || !IsSpace(s[i]) then i else SkipSpace(s, i + 1)
  }

  /** Index just after the last non-space character before `j`. */
  function SkipSpaceBack(s: string, j: nat): (i: nat)
    requires j <= |s|
    ensures i <= j
    ensures AllSpace(s[i..j])
    ensures i == 0 || !IsSpace(s[i - 1])
  {
    if j == 0 || !IsSpace(s[j - 1]) then j
    else
      var i := SkipSpaceBack(s, j - 1);
      assert s[i..j] == s[i..j - 1] + [s[j - 1]];
      i
  }

  /** `String.prototype.trim`. */
  function Trim(s: string): (r: string)
    ensures |r| <= |s|
    ensures r == "" || (!IsSpace(r[0]) && !IsSpace(r[|r| - 1]))
  {
    var i := SkipSpace(s, 0);
    var j := SkipSpaceBack(s, |s|);
    if i < j then s[i..j] else ""
  }

  /**
   * `trim` removes leading and trailing spaces and nothing else: only
   * whitespace trims to nothing, and otherwise the result is a slice of the
   * input with only spaces before and after it.
   */
  lemma TrimSlice(s: string)
    ensures Trim(s) == "" <==> AllSpace(s)
    ensures Trim(s) != "" ==> exists i, j :: 0 <= i <= j <= |s| && Trim(s) == s[i..j] && AllSpace(s[..i]) && AllSpace(s[j..])
  {
    var i := SkipSpace(s, 0);
    var j := SkipSpaceBack(s, |s|);
    if i < j {
      assert s[..i] == s[0..i] && s[j..] == s[j..|s|];
      assert !IsSpace(s[i]);
    } else {
      assert forall k :: 0 <= k < |s| ==> (k < i ==> s[k] == s[0..i][k]) && (j <= k ==> s[k] == s[j..|s|][k - j]);
    }
  }

  /** Index of the first space character at or after `i`, or `|s|`. */
  function NextSpace(s: string, i: nat): (j: nat)
    requires i <= |s|
    ensures i <= j <= |s|
    ensures NoSpace(s[i..j])
    ensures j == |s| || IsSpace(s[j])
    decreases |s| - i
  {
    if i == |s| || IsSpace(s[i]) then i else NextSpace(s, i + 1)
  }

  /** `s.split(/\s/)[0]`: the text before the first space character. */
  function FirstWord(s: string): (w: string)
    ensures NoSpace(w)
    ensures StartsWith(s, w)
    ensures |w| == |s| || IsSpace(s[|w|])
  {
    s[..NextSpace(s, 0)]
  }

  predicate IsUpper(c: char) {
    'A' <= c <= 'Z'
  }

  function LowerChar(c: char): char {
    if IsUpper(c) then (c as int + 32) as char else c
  }

  /** `String.prototype.toLowerCase`, restricted to the ASCII letters. */
  function Lower(s: string): (r: string)
    ensures |r| == |s|
    ensures forall i :: 0 <= i < |s| ==> r[i] == LowerChar(s[i])
  {
    if s == [] then [] else [LowerChar(s[0])] + Lower(s[1..])
  }

  /** Text with no upper-case letter is its own lower-case form. */
  lemma LowerUnchanged(s: string)
    requires forall i :: 0 <= i < |s| ==> !IsUpper(s[i])
    ensures Lower(s) == s
  {
    assert forall i :: 0 <= i < |s| ==> Lower(s)[i] == s[i];
  }

  lemma NotStartsWith(s: string, prefix: string)
    requires s != [] && prefix != [] && s[0] != prefix[0]
    ensures !StartsWith(s, prefix)
  {
    if |prefix| <= |s| {
      assert s[..|prefix|][0] == s[0];
    }
  }

  lemma NotEndsWith(s: string, suffix: string)
    requires s != [] && suffix != [] && s[|s| - 1] != suffix[|suffix| - 1]
    ensures !EndsWith(s, suffix)
  {
    if |suffix| <= |s| {
      assert s[|s| - |suffix|..][|suffix| - 1] == s[|s| - 1];
    }
  }

  /** A string that neither starts nor ends with a space trims to itself. */
  lemma TrimUnpadded(s: string)
    requires s != [] && !IsSpace(s[0]) && !IsSpace(s[|s| - 1])
    ensures Trim(s) == s
  {
    assert SkipSpace(s, 0) == 0;
    assert SkipSpaceBack(s, |s|) == |s|;
  }

  /** Spaces around a non-empty unpadded word are exactly what `trim` removes. */
  lemma TrimPadded(ws1: string, w: string, ws2: string)
    requires AllSpace(ws1) && AllSpace(ws2)
    requires w != [] && !IsSpace(w[0]) && !IsSpace(w[|w| - 1])
    ensures Trim(ws1 + w + ws2) == w
  {
    var s := ws1 + w + ws2;
    assert s == ws1 + (w + ws2);
    SkipSpacePrefix(ws1, w + ws2);
    assert forall k :: |ws1| + |w| <= k < |s| ==> s[k] == ws2[k - |ws1| - |w|];
    assert s[|ws1| + |w| - 1] == w[|w| - 1];
    SkipSpaceBackExact(s, |ws1| + |w|, |s|);
    assert s[|ws1|..|ws1| + |w|] == w;
  }

  /** `SkipSpaceBack` stops exactly at the start of a run of spaces. */
  lemma {:induction false} SkipSpaceBackExact(s: string, i: nat, j: nat)
    requires i <= j <= |s|
    requires forall t :: i <= t < j ==> IsSpace(s[t])
    requires i == 0 || !IsSpace(s[i - 1])
    ensures SkipSpaceBack(s, j) == i
    decreases j - i
  {
    if i < j {
      SkipSpaceBackExact(s, i, j - 1);
    }
  }

  /** Whitespace alone trims to the empty string. */
  lemma TrimAllSpace(s: string)
    requires AllSpace(s)
    ensures Trim(s) == ""
  {
    SkipSpaceAll(s, 0);
  }

  lemma {:induction false} SkipSpaceAll(s: string, i: nat)
    requires i <= |s| && AllSpace(s)
    ensures SkipSpace(s, i) == |s|
    decreases |s| - i
  {
    if i < |s| {
      SkipSpaceAll(s, i + 1);
    }
  }

  /** `SkipSpace` stops exactly at the end of a run of spaces. */
  lemma {:induction false} SkipSpaceExact(s: string, i: nat, j: nat)
    requires i <= j <= |s|
    requires forall t :: i <= t < j ==> IsSpace(s[t])
    requires j == |s| || !IsSpace(s[j])
    ensures SkipSpace(s, i) == j
    decreases j - i
  {
    if i < j {
      SkipSpaceExact(s, i + 1, j);
    }
  }
  lemma {:induction false} SkipSpaceShift(s: string, i: nat)
    requires i <= |s|
    ensures SkipSpace(s, i) == i + SkipSpace(s[i..], 0)
    decreases |s| - i
  {
    if i < |s| && IsSpace(s[i]) {
      SkipSpaceShift(s, i + 1);
      SkipSpaceShift(s[i..], 1);
      assert s[i..][1..] == s[i + 1..];
    }
  }

  /** Leading spaces followed by the end or a non-space are skipped as a whole. */
  lemma SkipSpacePrefix(ws: string, t: string)
    requires AllSpace(ws) && (t == [] || !IsSpace(t[0]))
    ensures SkipSpace(ws + t, 0) == |ws|
  {
    var s := ws + t;
    assert forall k :: 0 <= k < |ws| ==> s[k] == ws[k];
    assert |ws| < |s| ==> s[|ws|] == t[0];
    SkipSpaceExact(s, 0, |ws|);
  }


  /** The first word of a space-free word followed by nothing or by a space is that word. */
  lemma FirstWordOf(w: string, rest: string)
    requires NoSpace(w)
    requires rest == [] || IsSpace(rest[0])
    ensures FirstWord(w + rest) == w
  {
    var s := w + rest;
    assert forall i :: 0 <= i < |w| ==> s[i] == w[i];
    NextSpaceExact(s, 0, |w|);
  }

  /** `NextSpace` stops exactly at the end of a run of non-space characters. */
  lemma {:induction false} NextSpaceExact(s: string, i: nat, j: nat)
    requires i <= j <= |s|
    requires forall t :: i <= t < j ==> !IsSpace(s[t])
    requires j == |s| || IsSpace(s[j])
    ensures NextSpace(s, i) == j
    decreases j - i
  {
    if i < j {
      NextSpaceExact(s, i + 1, j);
    }
  }

  /** The tag markers `<` and `>` (the pattern `[<>]`). */
  predicate IsMarker(c: char) {
    c == '<' || c == '>'
  }

  /** Index of the first tag marker at or after `i`, or `|s|` when there is none. */
  function NextMarker(s: string, i: nat): (j: nat)
    requires i <= |s|
    ensures i <= j <= |s|
    ensures j == |s| || IsMarker(s[j])
    ensures forall k :: i <= k < j ==> !IsMarker(s[k])
    decreases |s| - i
  {
    if i == |s| || IsMarker(s[i]) then i else NextMarker(s, i + 1)
  }

  /**
   * `s.replace(/(^\!--|--$)/g, "")`: drops a leading `!--` and then a
   * trailing `--` of what is left (the second match cannot overlap the first).
   */
  function TrimComment(s: string): (r: string)
    ensures |r| <= |s|
    ensures StartsWith(s, "!--") && EndsWith(s[3..], "--") ==> r == s[3..|s| - 2]
    ensures !StartsWith(s, "!--") && !EndsWith(s, "--") ==> r == s
  {
    var t := if StartsWith(s, "!--") then s[3..] else s;
    if EndsWith(t, "--") then t[..|t| - 2] else t
  }

  /** `NextMarker` stops at the first marker. */
  lemma {:induction false} NextMarkerExact(s: string, i: nat, j: nat)
    requires i <= j <= |s|
    requires forall t :: i <= t < j ==> !IsMarker(s[t])
    requires j == |s| || IsMarker(s[j])
    ensures NextMarker(s, i) == j
    decreases j - i
  {
    if i < j {
      NextMarkerExact(s, i + 1, j);
    }
  }

  // ---------------------------------------------------------------------
  // The element queue shared by both scanners

  /** `el.raw = el.data = s` on the element at index `i`. */
  function SetRawData(es: seq<Element>, i: nat, s: string): (r: seq<Element>)
    requires i < |es|
    ensures |r| == |es| && r[i].raw == s && r[i].data == s && r[i].etype == es[i].etype
    ensures forall j :: 0 <= j < |es| && j != i ==> r[j] == es[j]
  {
    es[i := es[i].(raw := s, data := s)]
  }

  predicate LastIs(es: seq<Element>, t: ElementType) {
    |es| > 0 && es[|es| - 1].etype == t
  }

  /** A queued container whose data ends in `/` (node-htmlparser.js:372-377, lib/Parser.js:337-342). */
  predicate SelfClosing(e: Element) {
    IsContainerType(e.etype) && EndsWith(e.data, "/")
  }

  /** The explicit close synthesised after a self-closing element. */
  function CloseOf(e: Element): (c: Element)
    ensures c.etype == e.etype && c.raw == c.data && Some(c.data) == c.name
  {
    var n := "/" + e.name.GetOr("undefined");
    Element(n, n, e.etype, Some(n), None, None)
  }

  /** Empty text is never queued (node-htmlparser.js:369, lib/Parser.js:328). */
  predicate NoEmptyText(es: seq<Element>) {
    forall i :: 0 <= i < |es| && es[i].etype == Text ==> es[i].raw != ""
  }

  /** Every tag, script or style element carries a name. */
  predicate WellNamed(es: seq<Element>) {
    forall i :: 0 <= i < |es| && IsContainerType(es[i].etype) ==> es[i].name.Some?
  }

  predicate IsCloseName(e: Element) {
    e.name.Some? && StartsWith(e.name.value, "/")
  }

  /** Among the first `n` elements, every self-closing opening element is followed by its synthesised close. */
  predicate ClosedAfter(es: seq<Element>, n: int) {
    forall i {:trigger SelfClosing(es[i])} :: 0 <= i < n && i < |es| && SelfClosing(es[i]) && !IsCloseName(es[i]) ==>
      i + 1 < |es| && es[i + 1] == CloseOf(es[i])
  }

  predicate Queued(es: seq<Element>) {
    NoEmptyText(es) && WellNamed(es) && ClosedAfter(es, |es|)
  }

  /** `reTags.test` with `lastIndex` at `current`: the next marker or the end (node-htmlparser.js:198-201, lib/Parser.js:160). */
  method FindMarker(data: string, current: nat) returns (next: nat)
    requires current <= |data|
    ensures next == NextMarker(data, current)
  {
    next := current;
    while next < |data| && !IsMarker(data[next])
      invariant current <= next <= |data|
      invariant forall k :: current <= k < next ==> !IsMarker(data[k])
    {
      next := next + 1;
    }
  }

  /** node-htmlparser.js:369-384 and lib/Parser.js:328-348: empty text is dropped; a self-closing element is followed by its close. */
  function Enqueue(es: seq<Element>, e: Element): seq<Element> {
    if e.raw != "" || e.etype != Text then
      if SelfClosing(e) then es + [e, CloseOf(e)] else es + [e]
    else es
  }

  lemma EnqueueQueued(es: seq<Element>, e: Element)
    requires Queued(es)
    requires IsContainerType(e.etype) ==> e.name.Some?
    ensures Queued(Enqueue(es, e))
  {
    var r := Enqueue(es, e);
    if e.raw != "" || e.etype != Text {
      assert r[..|es|] == es;
      forall i | 0 <= i < |r| && SelfClosing(r[i]) && !IsCloseName(r[i])
        ensures i + 1 < |r| && r[i + 1] == CloseOf(r[i])
      {
        if i < |es| {
          assert r[i] == es[i];
        }
      }
    }
  }

  /** An element appended last, with no close after it, leaves only itself unchecked. */
  lemma AppendQueued(es: seq<Element>, e: Element)
    requires Queued(es)
    requires e.raw != "" && (IsContainerType(e.etype) ==> e.name.Some?)
    ensures NoEmptyText(es + [e]) && WellNamed(es + [e]) && ClosedAfter(es + [e], |es|)
  {
    var r := es + [e];
    forall i | 0 <= i < |es| && SelfClosing(r[i]) && !IsCloseName(r[i])
      ensures i + 1 < |r| && r[i + 1] == CloseOf(r[i])
    {
      assert r[i] == es[i];
    }
  }
}
