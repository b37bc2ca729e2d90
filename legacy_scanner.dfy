/**
 * The scanner of the legacy single-shot engine (node-htmlparser.js): tag-name
 * normalisation (`ParseTagName`), the split of the whole document at every
 * `<` and `>` (`ParseTags`) and the attribute pass (`ParseTagAttribs`).
 */
module LegacyScanner {
  import opened Markup
  import opened Attributes

  // ---------------------------------------------------------------------
  // ParseTagName (node-htmlparser.js:176-183)

  /** `replace(/^\s*\/\s*\/g, "/")`: a leading slash and the spaces around it become one slash. */
  function TrimEndTag(s: string): (r: string)
    ensures |r| <= |s|
  {
    var i := SkipSpace(s, 0);
    if i < |s| && s[i] == '/' then "/" + s[SkipSpace(s, i + 1)..] else s
  }

  /** `replace(/\s*\/\s*$/g, "")`: a trailing slash and the spaces around it are dropped. */
  function TrimTag(s: string): (r: string)
    ensures StartsWith(s, r)
  {
    var j := SkipSpaceBack(s, |s|);
    if j > 0 && s[j - 1] == '/' then s[..SkipSpaceBack(s, j - 1)] else s
  }

  /**
   * `ParseTagName`: the slash-normalised data, split at the first space,
   * lowercased. Unlike lib/Parser.js it lowercases, and data that starts with
   * a space gives the empty name.
   */
  function LegacyTagName(data: string): (name: string)
    ensures NoSpace(name)
    ensures forall i :: 0 <= i < |name| ==> !IsUpper(name[i])
  {
    var w := FirstWord(TrimTag(TrimEndTag(data)));
    var r := Lower(w);
    assert forall i :: 0 <= i < |r| ==> !IsSpace(r[i]) by {
      forall i | 0 <= i < |r|
        ensures !IsSpace(r[i])
      {
        assert !IsSpace(w[i]);
      }
    }
    r
  }

  predicate NoSlash(s: string) {
    forall i :: 0 <= i < |s| ==> s[i] != '/'
  }

  /** A word of `[^\s/]` characters followed by nothing or by a space. */
  predicate Word(w: string, rest: string) {
    w != [] && NoSpace(w) && NoSlash(w) && (rest == [] || IsSpace(rest[0]))
  }

  lemma TrimTagKeepsWord(p: string, rest: string)
    requires p != [] && NoSpace(p) && p[|p| - 1] != '/' && (rest == [] || IsSpace(rest[0]))
    ensures FirstWord(TrimTag(p + rest)) == p
  {
    var s := p + rest;
    var t := TrimTag(s);
    var j := SkipSpaceBack(s, |s|);
    assert s[|p| - 1] == p[|p| - 1];
    assert j >= |p|;
    if j > 0 && s[j - 1] == '/' {
      assert SkipSpaceBack(s, j - 1) >= |p|;
    }
    assert |t| >= |p| && t[..|p|] == p;
    assert |t| == |p| || IsSpace(t[|p|]);
    FirstWordOf(p, t[|p|..]);
    assert t == p + t[|p|..];
  }

  /** An opening tag's data: its first word, lowercased. */
  lemma LegacyTagNameOpen(w: string, rest: string)
    requires Word(w, rest)
    ensures LegacyTagName(w + rest) == Lower(w)
  {
    assert (w + rest)[0] == w[0];
    assert TrimEndTag(w + rest) == w + rest;
    TrimTagKeepsWord(w, rest);
  }

  /** The trailing slash of a self-closing tag and the spaces around it are cut off the word. */
  lemma TrimTagSelfClosing(w: string, ws1: string, ws2: string)
    requires w != [] && !IsSpace(w[|w| - 1]) && AllSpace(ws1) && AllSpace(ws2)
    ensures TrimTag(w + ws1 + "/" + ws2) == w
  {
    var s := w + ws1 + "/" + ws2;
    var k := |w| + |ws1|;
    assert s[k] == '/';
    assert forall i :: k < i < |s| ==> s[i] == ws2[i - k - 1];
    SkipSpaceBackExact(s, k + 1, |s|);
    assert s[|w| - 1] == w[|w| - 1];
    assert forall i :: |w| <= i < k ==> s[i] == ws1[i - |w|];
    SkipSpaceBackExact(s, |w|, k);
    assert s[..|w|] == w;
  }

  /**
   * A self-closing tag's data, `br/` or `br /`: the word before the slash,
   * lowercased, the one case where the trailing-slash replacement decides the name.
   */
  lemma LegacyTagNameSelfClosing(w: string, ws1: string, ws2: string)
    requires w != [] && NoSpace(w) && NoSlash(w) && AllSpace(ws1) && AllSpace(ws2)
    ensures LegacyTagName(w + ws1 + "/" + ws2) == Lower(w)
  {
    var s := w + ws1 + "/" + ws2;
    assert s[0] == w[0];
    SkipSpaceExact(s, 0, 0);
    assert TrimEndTag(s) == s;
    TrimTagSelfClosing(w, ws1, ws2);
    FirstWordOf(w, []);
    assert w + [] == w;
  }

  /** Data that starts with spaces and a slash: one slash, then what follows once its spaces are skipped. */
  lemma TrimEndTagSlash(ws: string, u: string)
    requires AllSpace(ws)
    ensures TrimEndTag(ws + ("/" + u)) == "/" + u[SkipSpace(u, 0)..]
  {
    var s := ws + ("/" + u);
    var k := |ws| + 1;
    SkipSpacePrefix(ws, "/" + u);
    assert s[|ws|] == '/';
    SkipSpaceShift(s, k);
    assert s[k..] == u;
    assert s[k + SkipSpace(u, 0)..] == u[SkipSpace(u, 0)..];
  }

  lemma TrimEndTagClose(ws1: string, ws2: string, w: string, rest: string)
    requires AllSpace(ws1) && AllSpace(ws2) && w != [] && !IsSpace(w[0])
    ensures TrimEndTag(ws1 + "/" + ws2 + w + rest) == "/" + w + rest
  {
    var t := w + rest;
    var u := ws2 + t;
    assert ws1 + "/" + ws2 + w + rest == ws1 + ("/" + u);
    TrimEndTagSlash(ws1, u);
    assert t[0] == w[0];
    SkipSpacePrefix(ws2, t);
    assert u[|ws2|..] == t;
    assert "/" + t == "/" + w + rest;
  }

  /** A closing tag's data: the slash, with any spaces around it dropped, then the first word, lowercased. */
  lemma LegacyTagNameClose(ws1: string, ws2: string, w: string, rest: string)
    requires AllSpace(ws1) && AllSpace(ws2) && Word(w, rest)
    ensures LegacyTagName(ws1 + "/" + ws2 + w + rest) == "/" + Lower(w)
  {
    TrimEndTagClose(ws1, ws2, w, rest);
    var p := "/" + w;
    assert p + rest == "/" + w + rest;
    TrimTagKeepsWord(p, rest);
    assert Lower(p) == [LowerChar('/')] + Lower(w);
  }

  // ---------------------------------------------------------------------
  // ParseTags (node-htmlparser.js:186-411)

  /**
   * The loop's state between two markers. `prevElement` is the index of the
   * element the function-scoped variable `prevElement` refers to: it is
   * assigned only where an element is merged into the previous one, and the
   * branches for an empty slice inside script or style use whatever it holds.
   */
  datatype LegacyState = LegacyState(
    elements: seq<Element>,
    tagStack: seq<Region>,
    state: ElementType,
    prevTagSep: string,
    prevElement: Option<nat>)

  predicate ValidState(st: LegacyState) {
    && (st.state == Text || st.state == Tag)
    && (st.prevElement.Some? ==>
          st.prevElement.value < |st.elements| && !IsContainerType(st.elements[st.prevElement.value].etype))
  }

  const LegacyInit := LegacyState([], [], Text, "", None)

  /**
   * Inside a script, style or comment region (node-htmlparser.js:217-321):
   * the new state and the element as it leaves this section, or `None`
   * where the source dereferences an unassigned `prevElement` and throws a
   * TypeError. With `repaired`, the empty-slice branches use the last element,
   * as lib/Parser.js:226-239 does.
   */
  function RegionStep(st: LegacyState, e: Element, elementName: string, sep: char, repaired: bool)
    : (r: Option<(LegacyState, Element)>)
    requires ValidState(st)
    ensures r.Some? ==> ValidState(r.value.0) && |r.value.0.elements| == |st.elements|
    ensures r.Some? ==> forall j :: 0 <= j < |st.elements| ==> r.value.0.elements[j].etype == st.elements[j].etype
    ensures r.Some? ==> r.value.0.state == st.state && r.value.0.prevTagSep == st.prevTagSep
    ensures r.Some? ==> forall j :: 0 <= j < |st.elements| && IsContainerType(st.elements[j].etype) ==>
      r.value.0.elements[j] == st.elements[j]
    ensures r.Some? ==> forall j :: 0 <= j < |st.elements| && st.elements[j].raw != "" ==>
      r.value.0.elements[j].raw != "" || r.value.0.elements[j].etype == Comment
    ensures r.Some? ==> r.value.1.etype == e.etype || !IsContainerType(r.value.1.etype)
    ensures repaired ==> r.Some?
  {
    if st.tagStack == [] then Some((st, e))
    else
      var top := st.tagStack[|st.tagStack| - 1];
      var popped := st.(tagStack := st.tagStack[..|st.tagStack| - 1]);
      var es := st.elements;
      var last := |es| - 1;
      if top == Script || top == Style then
        var closer := if top == Script then "/script" else "/style";
        if elementName == closer then Some((popped, e))
        else if StartsWith(e.raw, "!--") then Some((st, e))
        else
          var e := e.(etype := Text);
          if LastIs(es, Text) then
            if e.raw != "" then
              var merged := SetRawData(es, last, es[last].raw + st.prevTagSep + e.raw);
              Some((st.(elements := merged, prevElement := Some(last)), e.(raw := "", data := "")))
            else
              var target := if repaired then Some(last) else st.prevElement;
              if target.None? then None
              else Some((st.(elements := SetRawData(es, target.value, es[target.value].raw + st.prevTagSep)), e))
          else if e.raw != "" then Some((st, e.(data := e.raw)))
          else Some((st, e))
      else if EndsWith(e.raw, "-") && sep == '>' then
        if LastIs(es, Comment) then
          var merged := SetRawData(es, last, TrimComment(es[last].raw + e.raw));
          Some((popped.(elements := merged, prevElement := Some(last)), e.(raw := "", data := "", etype := Text)))
        else Some((popped, e.(etype := Comment)))
      else if LastIs(es, Comment) then
        var merged := SetRawData(es, last, es[last].raw + e.raw + [sep]);
        Some((st.(elements := merged, prevElement := Some(last)), e.(raw := "", data := "", etype := Text)))
      else Some((st, e.(raw := e.raw + [sep], data := e.raw + [sep], etype := Comment)))
  }

  /** Processing of a slice that is still a tag (node-htmlparser.js:324-366): its type, name and data, and the new tag stack. */
  function TagStep(e: Element, stack: seq<Region>, elementName: string, sep: char): (r: (Element, seq<Region>))
    requires e.etype == Tag
    ensures IsContainerType(r.0.etype) ==> r.0.name == Some(elementName)
    ensures r.0.etype != Text
  {
    var e := e.(name := Some(elementName));
    if StartsWith(e.raw, "!--") then
      var e := e.(etype := Comment, name := None);
      if EndsWith(e.raw, "--") && sep == '>' then (e.(raw := TrimComment(e.raw), data := TrimComment(e.raw)), stack)
      else (e.(raw := e.raw + [sep]), stack + [Comment])
    else
      var (e, stack) :=
        if StartsWith(e.raw, "!") then (e.(etype := Directive), stack)
        else if elementName == "script" then (e.(etype := Script), if EndsWith(e.data, "/") then stack else stack + [Script])
        else if elementName == "/script" then (e.(etype := Script), stack)
        else if elementName == "style" then (e.(etype := Style), if EndsWith(e.data, "/") then stack else stack + [Style])
        else if elementName == "/style" then (e.(etype := Style), stack)
        else (e, stack);
      (if elementName != "" && elementName[0] == '/' then e.(data := elementName) else e, stack)
  }

  /** One pass of the loop body: the slice `raw` before the marker `sep`. */
  function LegacyStep(st: LegacyState, raw: string, sep: char, repaired: bool): (r: Option<LegacyState>)
    requires ValidState(st)
    ensures r.Some? ==> ValidState(r.value)
    ensures repaired ==> r.Some?
  {
    var data := if st.state == Text then raw else Trim(raw);
    var e := Element(raw, data, st.state, None, None, None);
    var elementName := LegacyTagName(data);
    var region := RegionStep(st, e, elementName, sep, repaired);
    if region.None? then None
    else
      var st1 := region.value.0;
      var tagged := if region.value.1.etype == Tag then TagStep(region.value.1, st1.tagStack, elementName, sep)
        else (region.value.1, st1.tagStack);
      Some(LegacyState(Enqueue(st1.elements, tagged.0), tagged.1, if sep == '<' then Tag else Text, [sep], st1.prevElement))
  }

  // ---------------------------------------------------------------------
  // What the queue holds

  /** What a finished scan holds: the trailing element has no synthesised close. */
  predicate QueuedResult(r: Option<seq<Element>>) {
    r.Some? ==> NoEmptyText(r.value) && WellNamed(r.value) && ClosedAfter(r.value, |r.value| - 1)
  }

  lemma StepQueued(st: LegacyState, raw: string, sep: char, repaired: bool)
    requires ValidState(st) && Queued(st.elements)
    ensures LegacyStep(st, raw, sep, repaired).Some? ==> Queued(LegacyStep(st, raw, sep, repaired).value.elements)
  {
    var data := if st.state == Text then raw else Trim(raw);
    var e := Element(raw, data, st.state, None, None, None);
    var elementName := LegacyTagName(data);
    var rs := RegionStep(st, e, elementName, sep, repaired);
    if rs.Some? {
      var st1 := rs.value.0;
      var e1 := rs.value.1;
      var es := st.elements;
      var es1 := st1.elements;
      assert Queued(es1) by {
        forall i | 0 <= i < |es1| && SelfClosing(es1[i]) && !IsCloseName(es1[i])
          ensures i + 1 < |es1| && es1[i + 1] == CloseOf(es1[i])
        {
          assert es1[i] == es[i];
          assert es[i + 1] == CloseOf(es[i]);
        }
      }
      var tagged := if e1.etype == Tag then TagStep(e1, st1.tagStack, elementName, sep) else (e1, st1.tagStack);
      EnqueueQueued(es1, tagged.0);
    }
  }

  lemma FinishQueued(data: string, current: nat, st: LegacyState)
    requires current <= |data| && ValidState(st) && Queued(st.elements)
    ensures QueuedResult(Some(LegacyFinish(data, current, st)))
  {
    var es := LegacyFinish(data, current, st);
    UnitsTail(data, current);
    if Units(data[..current]) < Units(data) - 1 {
      var raw := data[current..];
      var d := if st.state == Text then raw else Trim(raw);
      var t := Element(raw, d, st.state, if IsContainerType(st.state) then Some(LegacyTagName(d)) else None, None, None);
      assert es == st.elements + [t];
      AppendQueued(st.elements, t);
    }
  }

  lemma {:induction false} ScanFromQueued(data: string, current: nat, st: LegacyState, repaired: bool)
    requires current <= |data| && ValidState(st) && Queued(st.elements)
    ensures QueuedResult(LegacyScanFrom(data, current, st, repaired))
    decreases |data| - current
  {
    var next := NextMarker(data, current);
    if next == |data| {
      ScanFromEnd(data, current, st, repaired);
      FinishQueued(data, current, st);
    } else {
      var st' := LegacyStep(st, data[current..next], data[next], repaired);
      ScanFromStep(data, current, st, repaired);
      if st'.Some? {
        StepQueued(st, data[current..next], data[next], repaired);
        ScanAfterSome(data, next, st'.value, repaired);
        ScanFromQueued(data, next + 1, st'.value, repaired);
      }
    }
  }

  /**
   * Whatever ParseTags returns holds no empty text, names every tag, script and
   * style, and follows every self-closing opening element, except a trailing
   * one, with its synthesised close (node-htmlparser.js:369-384, 391-408).
   */
  lemma ParseTagsQueued(data: string, repaired: bool)
    ensures QueuedResult(LegacyParseTags(data, repaired))
  {
    ScanFromQueued(data, 0, LegacyInit, repaired);
  }

  /**
   * node-htmlparser.js:391-408: the rest after the last marker, only when
   * `current < data.length - 1`, both sides counted in UTF-16 code units.
   */
  function LegacyFinish(data: string, current: nat, st: LegacyState): seq<Element>
    requires current <= |data|
  {
    if Units(data[..current]) < Units(data) - 1 then
      var raw := data[current..];
      var d := if st.state == Text then raw else Trim(raw);
      st.elements + [Element(raw, d, st.state, if IsContainerType(st.state) then Some(LegacyTagName(d)) else None, None, None)]
    else st.elements
  }

  /** Nothing is left after a marker that ends the data. */
  lemma FinishAtEnd(data: string, st: LegacyState)
    ensures LegacyFinish(data, |data|, st) == st.elements
  {
    assert data[..|data|] == data;
  }

  /** The scan from position `current` to the end: `None` where the source throws. */
  function LegacyScanFrom(data: string, current: nat, st: LegacyState, repaired: bool): Option<seq<Element>>
    requires current <= |data| && ValidState(st)
    decreases |data| - current, 3
  {
    ScanAt(data, current, NextMarker(data, current), st, repaired)
  }

  /** The scan from `current`, given the position `next` of the next marker (or the end). */
  function ScanAt(data: string, current: nat, next: nat, st: LegacyState, repaired: bool): Option<seq<Element>>
    requires current <= next <= |data| && ValidState(st)
    decreases |data| - current, 2
  {
    if next == |data| then Some(LegacyFinish(data, current, st))
    else ScanSlice(data, current, next, st, repaired)
  }

  /** The slice from `current` up to the marker at `next`, then the rest. */
  function ScanSlice(data: string, current: nat, next: nat, st: LegacyState, repaired: bool): Option<seq<Element>>
    requires current <= next < |data| && ValidState(st)
    decreases |data| - current, 1
  {
    ScanAfter(data, next, LegacyStep(st, data[current..next], data[next], repaired), repaired)
  }

  /** The scan after the marker at `next`, given the outcome of the slice before it. */
  function ScanAfter(data: string, next: nat, step: Option<LegacyState>, repaired: bool): Option<seq<Element>>
    requires next < |data| && (step.Some? ==> ValidState(step.value))
    decreases |data| - next - 1, 4
  {
    match step
    case None => None
    case Some(st) => LegacyScanFrom(data, next + 1, st, repaired)
  }

  function LegacyParseTags(data: string, repaired: bool): Option<seq<Element>> {
    LegacyScanFrom(data, 0, LegacyInit, repaired)
  }

  /** One pass of the loop: the slice before the next marker, then the rest. */
  lemma ScanFromStep(data: string, current: nat, st: LegacyState, repaired: bool)
    requires current <= |data| && ValidState(st)
    requires NextMarker(data, current) < |data|
    ensures var next := NextMarker(data, current);
      LegacyScanFrom(data, current, st, repaired) == ScanAfter(data, next, LegacyStep(st, data[current..next], data[next], repaired), repaired)
  {
    var next := NextMarker(data, current);
    assert LegacyScanFrom(data, current, st, repaired) == ScanAt(data, current, next, st, repaired);
  }

  lemma ScanAfterSome(data: string, next: nat, st: LegacyState, repaired: bool)
    requires next < |data| && ValidState(st)
    ensures ScanAfter(data, next, Some(st), repaired) == LegacyScanFrom(data, next + 1, st, repaired)
  {
  }

  lemma ScanFromEnd(data: string, current: nat, st: LegacyState, repaired: bool)
    requires current <= |data| && ValidState(st)
    requires NextMarker(data, current) == |data|
    ensures LegacyScanFrom(data, current, st, repaired) == Some(LegacyFinish(data, current, st))
  {
    assert LegacyScanFrom(data, current, st, repaired) == ScanAt(data, current, |data|, st, repaired);
  }

  /**
   * The body of the loop in `ParseTags` (node-htmlparser.js:203-387): the
   * slice before the marker at `next` is classified, and the scan goes on
   * from after the marker, or stops where the source throws.
   */
  method ClassifySlice(data: string, current: nat, next: nat, st: LegacyState, repaired: bool) returns (st': Option<LegacyState>)
    requires current <= next < |data| && next == NextMarker(data, current) && ValidState(st)
    ensures st'.Some? ==> ValidState(st'.value)
    ensures LegacyScanFrom(data, current, st, repaired) == ScanAfter(data, next, st', repaired)
  {
    st' := LegacyStep(st, data[current..next], data[next], repaired);
    ScanFromStep(data, current, st, repaired);
  }

  /**
   * `ParseTags` (node-htmlparser.js:186-411): the loop over the markers, each
   * slice classified by one `LegacyStep`.
   */
  method ParseTags(data: string, repaired: bool) returns (r: Option<seq<Element>>)
    ensures r == LegacyParseTags(data, repaired)
  {
    ghost var expected := LegacyParseTags(data, repaired);
    var st := LegacyInit;
    var current := 0;
    var next := FindMarker(data, current);
    while next < |data|
      invariant current <= next <= |data| && next == NextMarker(data, current) && ValidState(st)
      invariant LegacyScanFrom(data, current, st, repaired) == expected
      decreases |data| - current
    {
      var st' := ClassifySlice(data, current, next, st, repaired);
      if st'.None? {
        return None;
      }
      ScanAfterSome(data, next, st'.value, repaired);
      st := st'.value;
      current := next + 1;
      next := FindMarker(data, current);
    }
    ScanFromEnd(data, current, st, repaired);
    r := Some(LegacyFinish(data, current, st));
  }

  // ---------------------------------------------------------------------
  // Properties of the scan

  lemma {:induction false} ScanFromTotal(data: string, current: nat, st: LegacyState)
    requires current <= |data| && ValidState(st)
    ensures LegacyScanFrom(data, current, st, true).Some?
    decreases |data| - current
  {
    var next := NextMarker(data, current);
    if next < |data| {
      var st2 := RepairedStep(data, current, st);
      ScanAfterSome(data, next, st2, true);
      ScanFromTotal(data, next + 1, st2);
    } else {
      ScanFromEnd(data, current, st, true);
    }
  }

  /** With `repaired`, a slice always gives a next state. */
  lemma RepairedStep(data: string, current: nat, st: LegacyState) returns (st2: LegacyState)
    requires current <= |data| && ValidState(st) && NextMarker(data, current) < |data|
    ensures ValidState(st2)
    ensures LegacyScanFrom(data, current, st, true) == ScanAfter(data, NextMarker(data, current), Some(st2), true)
  {
    var next := NextMarker(data, current);
    var step := LegacyStep(st, data[current..next], data[next], true);
    ScanFromStep(data, current, st, true);
    st2 := step.value;
  }

  /** With the empty-slice branches repaired, ParseTags never throws. */
  lemma RepairedParseTagsTotal(data: string)
    ensures LegacyParseTags(data, true).Some?
  {
    ScanFromTotal(data, 0, LegacyInit);
  }

  /**
   * Text with no marker is one text element, and only when it is at least two
   * UTF-16 code units long: the loop never runs and the trailing test is
   * `current < data.length - 1` (node-htmlparser.js:391).
   */
  lemma PlainText(data: string, repaired: bool)
    requires forall k :: 0 <= k < |data| ==> !IsMarker(data[k])
    ensures LegacyParseTags(data, repaired) ==
      if Units(data) >= 2 then Some([Element(data, data, Text, None, None, None)]) else Some([])
  {
    NextMarkerExact(data, 0, |data|);
    ScanFromEnd(data, 0, LegacyInit, repaired);
    assert data[..0] == [] && data[0..] == data;
    var t := Element(data, data, Text, None, None, None);
    assert [] + [t] == [t];
  }

  /** A lone character beyond U+FFFF is two code units, so it is kept as text. */
  lemma LoneAstralText(repaired: bool)
    ensures LegacyParseTags("\U{1F600}", repaired) == Some([Element("\U{1F600}", "\U{1F600}", Text, None, None, None)])
  {
    AstralUnits();
    PlainText("\U{1F600}", repaired);
  }

  /**
   * A comment that is all in one slice loses its delimiters and becomes one
   * comment element (node-htmlparser.js:326-333).
   */
  lemma WholeComment(c: string, repaired: bool)
    requires forall k :: 0 <= k < |c| ==> !IsMarker(c[k])
    ensures LegacyParseTags("<!--" + c + "-->", repaired) == Some([Element(c, c, Comment, None, None, None)])
  {
    var raw := "!--" + c + "--";
    assert "<!--" + c + "-->" == "<" + raw + ">";
    assert forall k :: 0 <= k < |raw| ==> !IsMarker(raw[k]) by {
      forall k | 0 <= k < |raw|
        ensures !IsMarker(raw[k])
      {
        if 3 <= k < 3 + |c| {
          assert raw[k] == c[k - 3];
        }
      }
    }
    var st2 := LegacyState([Element(c, c, Comment, None, None, None)], [], Text, ">", None);
    WholeCommentStep(c, repaired);
    OneTag("<" + raw + ">", raw, st2, repaired);
  }

  /** A document that is one tag: the empty slice before it, then the tag's own slice, then nothing. */
  lemma OneTag(data: string, raw: string, st2: LegacyState, repaired: bool)
    requires data == "<" + raw + ">"
    requires forall k :: 0 <= k < |raw| ==> !IsMarker(raw[k])
    requires ValidState(st2)
    requires LegacyStep(LegacyState([], [], Tag, "<", None), raw, '>', repaired) == Some(st2)
    ensures LegacyParseTags(data, repaired) == Some(st2.elements)
  {
    OneTagLayout(data, raw);
    LeadingMarker(data, repaired);
    LastSlice(data, raw, st2, repaired);
  }

  lemma OneTagLayout(data: string, raw: string)
    requires data == "<" + raw + ">"
    requires forall k :: 0 <= k < |raw| ==> !IsMarker(raw[k])
    ensures data[0] == '<' && data[|data| - 1] == '>' && data[1..|data| - 1] == raw
    ensures NextMarker(data, 1) == |data| - 1 && NextMarker(data, |data|) == |data|
  {
    var n := |data|;
    assert forall k :: 1 <= k < n - 1 ==> data[k] == raw[k - 1];
    NextMarkerExact(data, 1, n - 1);
    NextMarkerExact(data, n, n);
  }

  /** The slice of the one tag runs to the last character, and nothing follows it. */
  lemma LastSlice(data: string, raw: string, st2: LegacyState, repaired: bool)
    requires 2 <= |data| && data[|data| - 1] == '>' && data[1..|data| - 1] == raw
    requires NextMarker(data, 1) == |data| - 1 && NextMarker(data, |data|) == |data|
    requires ValidState(st2)
    requires LegacyStep(LegacyState([], [], Tag, "<", None), raw, '>', repaired) == Some(st2)
    ensures LegacyScanFrom(data, 1, LegacyState([], [], Tag, "<", None), repaired) == Some(st2.elements)
  {
    ScanFromStep(data, 1, LegacyState([], [], Tag, "<", None), repaired);
    ScanAfterSome(data, |data| - 1, st2, repaired);
    ScanFromEnd(data, |data|, st2, repaired);
    FinishAtEnd(data, st2);
  }

  /** The empty slice before a leading `<`. */
  lemma OpenedState(repaired: bool) returns (st: LegacyState)
    ensures st == LegacyState([], [], Tag, "<", None)
    ensures LegacyStep(LegacyInit, "", '<', repaired) == Some(st)
  {
    st := LegacyState([], [], Tag, "<", None);
  }

  lemma WholeCommentStep(c: string, repaired: bool)
    ensures LegacyStep(LegacyState([], [], Tag, "<", None), "!--" + c + "--", '>', repaired)
      == Some(LegacyState([Element(c, c, Comment, None, None, None)], [], Text, ">", None))
  {
    CommentSlice(c);
    CommentStep("!--" + c + "--", c, repaired);
  }

  /** The slice of a whole comment: delimited, unpadded, and trimmed back to its text. */
  lemma CommentSlice(c: string)
    ensures var raw := "!--" + c + "--";
      StartsWith(raw, "!--") && EndsWith(raw, "--") && Trim(raw) == raw && TrimComment(raw) == c
  {
    var cc := c + "--";
    var raw := "!--" + cc;
    assert raw == "!--" + c + "--";
    assert raw[..3] == "!--" && raw[3..] == cc;
    assert raw[|raw| - 2..] == "--" && cc[|cc| - 2..] == "--";
    assert cc[..|cc| - 2] == c;
    assert raw[0] == '!' && raw[|raw| - 1] == '-';
    TrimUnpadded(raw);
  }

  lemma CommentStep(raw: string, c: string, repaired: bool)
    requires StartsWith(raw, "!--") && EndsWith(raw, "--") && Trim(raw) == raw && TrimComment(raw) == c
    ensures LegacyStep(LegacyState([], [], Tag, "<", None), raw, '>', repaired)
      == Some(LegacyState([Element(c, c, Comment, None, None, None)], [], Text, ">", None))
  {
    var e2 := Element(c, c, Comment, None, None, None);
    CommentTagStep(raw, c, LegacyTagName(raw));
    assert Enqueue([], e2) == [e2];
    FirstTagStep(raw, e2, [], repaired);
  }

  /** The first tag of a document, closed by `>`, outside any region: its element is queued alone. */
  lemma FirstTagStep(raw: string, e: Element, stack: seq<Region>, repaired: bool)
    requires Trim(raw) == raw
    requires TagStep(Element(raw, raw, Tag, None, None, None), [], LegacyTagName(raw), '>') == (e, stack)
    requires Enqueue([], e) == [e]
    ensures LegacyStep(LegacyState([], [], Tag, "<", None), raw, '>', repaired) == Some(LegacyState([e], stack, Text, ">", None))
  {
  }

  /** A tag slice that opens and closes a comment becomes a comment element and opens no region. */
  lemma CommentTagStep(raw: string, c: string, name: string)
    requires StartsWith(raw, "!--") && EndsWith(raw, "--") && TrimComment(raw) == c
    ensures TagStep(Element(raw, raw, Tag, None, None, None), [], name, '>') == (Element(c, c, Comment, None, None, None), [])
  {
  }

  /** A name read from data with no slash has no slash. */
  lemma NoSlashName(t: string)
    requires NoSlash(t)
    ensures NoSlash(LegacyTagName(t))
  {
    var w := FirstWord(TrimTag(TrimEndTag(t)));
    assert TrimEndTag(t) == t;
    assert TrimTag(t) == t;
    assert forall i :: 0 <= i < |w| ==> w[i] == t[i];
  }

  /** The slice `raw` runs from `i` up to a marker at `j`. */
  lemma SliceAt(data: string, i: nat, j: nat, raw: string)
    requires i <= j < |data| && data[i..j] == raw && IsMarker(data[j])
    requires forall k :: 0 <= k < |raw| ==> !IsMarker(raw[k])
    ensures NextMarker(data, i) == j
  {
    assert forall k :: i <= k < j ==> data[k] == raw[k - i];
    NextMarkerExact(data, i, j);
  }

  /** The text inside a script, where no text precedes it: queued as it is. */
  predicate PlainScriptText(t: string) {
    && t != []
    && (forall k :: 0 <= k < |t| ==> !IsMarker(t[k]))
    && NoSlash(t)
    && !StartsWith(t, "!--")
  }

  const ScriptElement := Element("script", "script", Script, Some("script"), None, None)

  lemma ScriptName()
    ensures Trim("script") == "script" && LegacyTagName("script") == "script"
  {
    ScriptTrimmed();
    ScriptWord();
  }

  lemma ScriptTrimmed()
    ensures Trim("script") == "script"
  {
    TrimUnpadded("script");
  }

  lemma ScriptWord()
    ensures LegacyTagName("script") == "script"
  {
    ScriptIsWord();
    LegacyTagNameOpen("script", "");
    ScriptLower();
  }

  lemma ScriptIsWord()
    ensures Word("script", "") && "script" + "" == "script"
  {
  }

  lemma ScriptLower()
    ensures Lower("script") == "script"
  {
    LowerUnchanged("script");
  }

  lemma ScriptTagStep()
    ensures TagStep(Element("script", "script", Tag, None, None, None), [], "script", '>') == (ScriptElement, [Script])
  {
    NotStartsWith("script", "!--");
    NotStartsWith("script", "!");
    NotEndsWith("script", "/");
    var stack: seq<Region> := [];
    assert stack + [Script] == [Script];
  }

  lemma ScriptOpenStep(repaired: bool)
    ensures LegacyStep(LegacyState([], [], Tag, "<", None), "script", '>', repaired)
      == Some(LegacyState([ScriptElement], [Script], Text, ">", None))
  {
    ScriptName();
    ScriptTagStep();
    ScriptQueued();
    FirstTagStep("script", ScriptElement, [Script], repaired);
  }

  lemma ScriptQueued()
    ensures Enqueue([], ScriptElement) == [ScriptElement]
  {
    NotEndsWith("script", "/");
  }

  lemma ScriptTextStep(t: string, repaired: bool)
    requires PlainScriptText(t)
    ensures LegacyStep(LegacyState([ScriptElement], [Script], Text, ">", None), t, '<', repaired)
      == Some(LegacyState([ScriptElement, Element(t, t, Text, None, None, None)], [Script], Tag, "<", None))
  {
    NoSlashName(t);
    var name := LegacyTagName(t);
    assert name != "/script" by {
      assert "/script"[0] == '/';
    }
    var st := LegacyState([ScriptElement], [Script], Text, ">", None);
    var e := Element(t, t, Text, None, None, None);
    assert RegionStep(st, e, name, '<', repaired) == Some((st, e));
    assert Enqueue([ScriptElement], e) == [ScriptElement, e];
  }

  lemma ScriptEmptyStep(t: string)
    ensures var st := LegacyState([ScriptElement, Element(t, t, Text, None, None, None)], [Script], Tag, "<", None);
      && LegacyStep(st, "", '<', false) == None
      && LegacyStep(st, "", '<', true)
         == Some(LegacyState([ScriptElement, Element(t + "<", t + "<", Text, None, None, None)], [Script], Tag, "<", None))
  {
    assert Trim("") == "";
    assert LegacyTagName("") == "";
    var e := Element(t, t, Text, None, None, None);
    var st := LegacyState([ScriptElement, e], [Script], Tag, "<", None);
    var empty := Element("", "", Tag, None, None, None);
    assert RegionStep(st, empty, "", '<', false) == None;
    var merged := [ScriptElement, Element(t + "<", t + "<", Text, None, None, None)];
    assert SetRawData(st.elements, 1, t + "<") == merged;
    assert RegionStep(st, empty, "", '<', true) == Some((st.(elements := merged), empty.(etype := Text)));
  }

  /**
   * An empty slice inside a script whose last element is text, before any
   * merge has assigned `prevElement`, makes the source dereference undefined
   * (node-htmlparser.js:240-243); the repaired branch appends the marker to
   * the script's text.
   */
  lemma UnassignedPrevElement(t: string)
    requires PlainScriptText(t)
    ensures LegacyParseTags("<script>" + t + "<<", false) == None
    ensures LegacyParseTags("<script>" + t + "<<", true) ==
      Some([ScriptElement, Element(t + "<", t + "<", Text, None, None, None)])
  {
    ScriptPrefix(t, false);
    ScriptPrefix(t, true);
    ScriptTail(t);
  }

  function ScriptTextState(t: string): LegacyState {
    LegacyState([ScriptElement, Element(t, t, Text, None, None, None)], [Script], Tag, "<", None)
  }

  lemma ScriptPrefix(t: string, repaired: bool)
    requires PlainScriptText(t)
    ensures LegacyScanFrom("<script>" + t + "<<", 0, LegacyInit, repaired)
      == LegacyScanFrom("<script>" + t + "<<", 9 + |t|, ScriptTextState(t), repaired)
  {
    var data := "<script>" + t + "<<";
    ScriptPrefixOpen(data, t, repaired);
    ScriptPrefixText(data, t, repaired);
  }

  lemma ScriptPrefixOpen(data: string, t: string, repaired: bool)
    requires data == "<script>" + t + "<<"
    ensures LegacyScanFrom(data, 0, LegacyInit, repaired)
      == LegacyScanFrom(data, 8, LegacyState([ScriptElement], [Script], Text, ">", None), repaired)
  {
    LeadingMarker(data, repaired);
    ScriptOpenScan(data, t, repaired);
  }

  /** The empty slice before a leading `<` only switches to the tag state. */
  lemma LeadingMarker(data: string, repaired: bool)
    requires data != [] && data[0] == '<'
    ensures LegacyScanFrom(data, 0, LegacyInit, repaired) == LegacyScanFrom(data, 1, LegacyState([], [], Tag, "<", None), repaired)
  {
    var st1 := OpenedState(repaired);
    assert data[0..0] == "";
    SliceAt(data, 0, 0, "");
    ScanFromStep(data, 0, LegacyInit, repaired);
    ScanAfterSome(data, 0, st1, repaired);
  }

  lemma ScriptOpenScan(data: string, t: string, repaired: bool)
    requires data == "<script>" + t + "<<"
    ensures LegacyScanFrom(data, 1, LegacyState([], [], Tag, "<", None), repaired)
      == LegacyScanFrom(data, 8, LegacyState([ScriptElement], [Script], Text, ">", None), repaired)
  {
    var st := LegacyState([], [], Tag, "<", None);
    assert NextMarker(data, 1) == 7 by {
      assert forall k :: 1 <= k < 7 ==> data[k] == "script"[k - 1];
      NextMarkerExact(data, 1, 7);
    }
    assert LegacyStep(st, data[1..7], data[7], repaired) == Some(LegacyState([ScriptElement], [Script], Text, ">", None)) by {
      assert data[1..7] == "script" && data[7] == '>';
      ScriptOpenStep(repaired);
    }
    ScanFromStep(data, 1, st, repaired);
    ScanAfterSome(data, 7, LegacyState([ScriptElement], [Script], Text, ">", None), repaired);
  }

  lemma ScriptPrefixText(data: string, t: string, repaired: bool)
    requires data == "<script>" + t + "<<" && PlainScriptText(t)
    ensures LegacyScanFrom(data, 8, LegacyState([ScriptElement], [Script], Text, ">", None), repaired)
      == LegacyScanFrom(data, 9 + |t|, ScriptTextState(t), repaired)
  {
    assert data[8..8 + |t|] == t && data[8 + |t|] == '<';
    SliceAt(data, 8, 8 + |t|, t);
    ScriptTextStep(t, repaired);
    ScanFromStep(data, 8, LegacyState([ScriptElement], [Script], Text, ">", None), repaired);
    ScanAfterSome(data, 8 + |t|, ScriptTextState(t), repaired);
  }

  lemma ScriptTail(t: string)
    ensures LegacyScanFrom("<script>" + t + "<<", 9 + |t|, ScriptTextState(t), false) == None
    ensures LegacyScanFrom("<script>" + t + "<<", 9 + |t|, ScriptTextState(t), true)
      == Some([ScriptElement, Element(t + "<", t + "<", Text, None, None, None)])
  {
    var data := "<script>" + t + "<<";
    var i := 9 + |t|;
    assert data[i] == '<';
    NextMarkerExact(data, i, i);
    ScriptTailThrows(data, t);
    ScriptTailRepaired(data, t);
  }

  lemma ScriptTailThrows(data: string, t: string)
    requires 9 + |t| < |data| && NextMarker(data, 9 + |t|) == 9 + |t| && data[9 + |t|] == '<'
    ensures LegacyScanFrom(data, 9 + |t|, ScriptTextState(t), false) == None
  {
    ScriptEmptyStep(t);
    assert data[9 + |t|..9 + |t|] == "";
    ScanFromStep(data, 9 + |t|, ScriptTextState(t), false);
  }

  lemma ScriptTailRepaired(data: string, t: string)
    requires data == "<script>" + t + "<<"
    requires NextMarker(data, 9 + |t|) == 9 + |t|
    ensures LegacyScanFrom(data, 9 + |t|, ScriptTextState(t), true)
      == Some([ScriptElement, Element(t + "<", t + "<", Text, None, None, None)])
  {
    var n := |data|;
    var st4 := LegacyState([ScriptElement, Element(t + "<", t + "<", Text, None, None, None)], [Script], Tag, "<", None);
    ScriptEmptyStep(t);
    assert data[9 + |t|..9 + |t|] == "" && data[9 + |t|] == '<';
    ScanFromStep(data, 9 + |t|, ScriptTextState(t), true);
    ScanAfterSome(data, 9 + |t|, st4, true);
    NextMarkerExact(data, n, n);
    ScanFromEnd(data, n, st4, true);
    FinishAtEnd(data, st4);
  }
}
