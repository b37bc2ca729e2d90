/**
 * The streaming tokenizer of lib/Parser.js as a state machine over the
 * parser's fields. `ParserState` holds what the `Parser` object keeps between
 * calls; each `After...` function gives the state one of its operations
 * leaves behind, and the class in StreamParser is proved against them.
 *
 * The handler is represented by the calls the parser makes on it, in order.
 */
module StreamScanner {
  import opened Markup
  import Attributes

  // ---------------------------------------------------------------------
  // parseTagName (lib/Parser.js:33, lib/Parser.js:149-154)

  /** A character of the name group `[^\s\/]`. */
  predicate IsNameChar(c: char) {
    !IsSpace(c) && c != '/'
  }

  predicate AllNameChars(w: string) {
    forall k :: 0 <= k < |w| ==> IsNameChar(w[k])
  }

  /** End of the run of name characters that starts at `i`. */
  function NameEnd(s: string, i: nat): (j: nat)
    requires i <= |s|
    ensures i <= j <= |s|
    ensures forall k :: i <= k < j ==> IsNameChar(s[k])
    ensures j == |s| || !IsNameChar(s[j])
    decreases |s| - i
  {
    if i == |s| || !IsNameChar(s[i]) then i else NameEnd(s, i + 1)
  }

  /**
   * `parseTagName`: the pattern `^\s*(\/?)\s*([^\s\/]+)` gives the slash, if
   * there is one, followed by the first run of characters that are neither
   * spaces nor slashes; no match gives "". Nothing is lowercased.
   */
  function TagName(data: string): (name: string)
    ensures NoSpace(name)
    ensures forall k :: 0 < k < |name| ==> name[k] != '/'
  {
    var i := SkipSpace(data, 0);
    var slash := i < |data| && data[i] == '/';
    var k := if slash then SkipSpace(data, i + 1) else i;
    var n := NameEnd(data, k);
    var w := data[k..n];
    assert AllNameChars(w);
    if n == k then "" else (if slash then "/" else "") + w
  }

  lemma {:induction false} NameEndExact(s: string, i: nat, j: nat)
    requires i <= j <= |s|
    requires forall t :: i <= t < j ==> IsNameChar(s[t])
    requires j == |s| || !IsNameChar(s[j])
    ensures NameEnd(s, i) == j
    decreases j - i
  {
    if i < j {
      NameEndExact(s, i + 1, j);
    }
  }

  /** A run of name characters at `k`, ended by the end of `s` or by a character outside names. */
  lemma NameRun(s: string, k: nat, w: string, rest: string)
    requires k <= |s| && s[k..] == w + rest && AllNameChars(w)
    requires rest == [] || !IsNameChar(rest[0])
    ensures NameEnd(s, k) == k + |w| && s[k..k + |w|] == w
  {
    assert forall t :: k <= t < k + |w| ==> s[t] == (w + rest)[t - k] == w[t - k];
    assert k + |w| < |s| ==> s[k + |w|] == (w + rest)[|w|] == rest[0];
    NameEndExact(s, k, k + |w|);
    assert s[k..k + |w|] == (w + rest)[..|w|];
  }

  /** An opening name: spaces, a run of name characters, then the end, a space or a slash. */
  lemma TagNameOpen(ws: string, w: string, rest: string)
    requires AllSpace(ws) && w != [] && AllNameChars(w)
    requires rest == [] || !IsNameChar(rest[0])
    ensures TagName(ws + w + rest) == w
  {
    var s := ws + w + rest;
    assert s == ws + (w + rest);
    assert (w + rest)[0] == w[0];
    SkipSpacePrefix(ws, w + rest);
    assert s[|ws|] == w[0];
    assert s[|ws|..] == w + rest;
    NameRun(s, |ws|, w, rest);
  }

  /** The text after the slash of `ws1 + "/" + u` starts at the first non-space of `u`. */
  lemma AfterSlash(ws1: string, ws2: string, t: string) returns (k: nat)
    requires AllSpace(ws1) && AllSpace(ws2) && (t == [] || !IsSpace(t[0]))
    ensures var s := ws1 + "/" + ws2 + t;
      k == |ws1| + 1 + |ws2| && k <= |s| && s[k..] == t
      && SkipSpace(s, 0) == |ws1| && s[|ws1|] == '/' && SkipSpace(s, |ws1| + 1) == k
  {
    var s := ws1 + "/" + ws2 + t;
    k := |ws1| + 1 + |ws2|;
    assert s == ws1 + ("/" + ws2 + t);
    SkipSpacePrefix(ws1, "/" + ws2 + t);
    assert forall i :: |ws1| + 1 <= i < k ==> s[i] == ws2[i - |ws1| - 1];
    assert s[k..] == t;
    assert k < |s| ==> s[k] == t[0];
    SkipSpaceExact(s, |ws1| + 1, k);
  }

  /** A closing name: spaces, a slash, spaces, then a run of name characters. */
  lemma TagNameClose(ws1: string, ws2: string, w: string, rest: string)
    requires AllSpace(ws1) && AllSpace(ws2) && w != [] && AllNameChars(w)
    requires rest == [] || !IsNameChar(rest[0])
    ensures TagName(ws1 + "/" + ws2 + w + rest) == "/" + w
  {
    var s := ws1 + "/" + ws2 + w + rest;
    assert s == ws1 + "/" + ws2 + (w + rest);
    assert (w + rest)[0] == w[0];
    var k := AfterSlash(ws1, ws2, w + rest);
    NameRun(s, k, w, rest);
  }

  /** Only spaces, or a slash not followed by a name: the pattern does not match. */
  lemma TagNameNone(ws1: string, ws2: string, rest: string)
    requires AllSpace(ws1) && AllSpace(ws2) && (rest == [] || rest[0] == '/')
    ensures TagName(ws1) == ""
    ensures TagName(ws1 + "/" + ws2 + rest) == ""
  {
    SkipSpaceAll(ws1, 0);
    var s := ws1 + "/" + ws2 + rest;
    var k := AfterSlash(ws1, ws2, rest);
    assert k < |s| ==> s[k] == rest[0];
    NameEndExact(s, k, k);
  }

  /** A name read from data that starts with a character other than a space or a slash starts with that character. */
  lemma TagNameFirst(data: string)
    requires data != [] && !IsSpace(data[0]) && data[0] != '/'
    ensures TagName(data) == "" || TagName(data)[0] == data[0]
  {
  }

  /** Trimming keeps a first character that is not a space. */
  lemma TrimFirst(s: string)
    requires s != [] && !IsSpace(s[0])
    ensures Trim(s) != [] && Trim(s)[0] == s[0]
  {
  }

  // ---------------------------------------------------------------------
  // The parser's state

  /**
   * The `_location` counters: rows before the buffer, the column, how far the
   * buffer has been counted, rows counted in it. The column is in UTF-16 code
   * units, as the source counts it; `charOffset` is the character index of the
   * position whose code-unit index the source keeps.
   */
  datatype Counters = Counters(row: nat, col: nat, charOffset: nat, inBuffer: nat)

  const Zero := Counters(0, 0, 0, 0)

  /** A call the parser makes on its handler. */
  datatype Call =
    | ResetCall
    | DoneCall
    | WriteTag(element: Element)
    | WriteText(element: Element)
    | WriteComment(element: Element)
    | WriteDirective(element: Element)
    | ErrorCall(message: string)

  /**
   * The fields of a `Parser` (lib/Parser.js:12-26) and the calls made on its
   * handler so far. `parseState` is Text or Tag; `tagStack` holds the open
   * script, style and comment regions.
   */
  datatype ParserState = ParserState(
    buffer: string,
    current: nat,
    elements: seq<Element>,
    tagStack: seq<Region>,
    parseState: ElementType,
    prevTagSep: string,
    location: Counters,
    calls: seq<Call>,
    done: bool)

  /** The fields as the constructor sets them (lib/Parser.js:12-26). */
  const Initial := ParserState("", 0, [], [], Text, "", Zero, [], false)

  // ---------------------------------------------------------------------
  // getLocation (lib/Parser.js:368-387)

  /**
   * The passes of the counting loop over the character `c`: one per code
   * unit, so a character beyond U+FFFF advances the column by two.
   */
  function Tick(l: Counters, c: char): Counters {
    var l1 :=
      if c == '\n' then l.(inBuffer := l.inBuffer + 1, col := 0)
      else if c != '\r' then l.(col := l.col + CharUnits(c))
      else l;
    l1.(charOffset := l.charOffset + 1)
  }

  /** The counting loop: the characters of `s` from `charOffset` up to `end`. */
  function Advance(s: string, l: Counters, end: int): (r: Counters)
    requires end <= |s|
    ensures r.row == l.row
    decreases end - l.charOffset
  {
    if l.charOffset >= end then l else Advance(s, Tick(l, s[l.charOffset]), end)
  }

  /**
   * `getLocation(startTag)`: counts up to `_current`, or one character less
   * for a tag, and gives the 1-based line and the column; the column is not
   * advanced for a tag found at the very start of a chunk.
   */
  function Locate(s: ParserState, startTag: bool): (r: (ParserState, Location))
    requires s.current <= |s.buffer|
    ensures r.0 == s.(location := r.0.location)
  {
    var end := if startTag then s.current - 1 else s.current;
    var chunk := startTag && s.location.charOffset == 0 && s.current == 0;
    var l := Advance(s.buffer, s.location, end);
    (s.(location := l), Location(l.row + l.inBuffer + 1, l.col + if chunk then 0 else 1))
  }

  /** The newlines in `t`. */
  function Lines(t: string): nat {
    if t == [] then 0 else Lines(t[..|t| - 1]) + if t[|t| - 1] == '\n' then 1 else 0
  }

  /** The column after `t` from column `col`: code units since the last newline, carriage returns not counted. */
  function Column(col: nat, t: string): nat {
    if t == [] then col
    else if t[|t| - 1] == '\n' then 0
    else Column(col, t[..|t| - 1]) + if t[|t| - 1] == '\r' then 0 else CharUnits(t[|t| - 1])
  }

  lemma {:induction false} AdvanceSnoc(s: string, l: Counters, end: nat)
    requires l.charOffset < end <= |s|
    ensures Advance(s, l, end) == Tick(Advance(s, l, end - 1), s[end - 1])
    decreases end - l.charOffset
  {
    if l.charOffset < end - 1 {
      AdvanceSnoc(s, Tick(l, s[l.charOffset]), end);
    }
  }

  /**
   * The loop counts exactly the newlines of the text it passes, and leaves
   * the column at the number of UTF-16 code units since the last of them,
   * carriage returns not counted.
   */
  lemma {:induction false} AdvanceCounts(s: string, l: Counters, end: nat)
    requires l.charOffset <= end <= |s|
    ensures Advance(s, l, end) ==
      l.(charOffset := end, inBuffer := l.inBuffer + Lines(s[l.charOffset..end]), col := Column(l.col, s[l.charOffset..end]))
    decreases end - l.charOffset
  {
    if l.charOffset < end {
      AdvanceSnoc(s, l, end);
      AdvanceCounts(s, l, end - 1);
      var t := s[l.charOffset..end];
      assert t[..|t| - 1] == s[l.charOffset..end - 1];
    }
  }

  /** On a line without line breaks, the column advances by the text's JavaScript `length`. */
  lemma {:induction false} ColumnUnits(col: nat, t: string)
    requires forall k :: 0 <= k < |t| ==> t[k] != '\n' && t[k] != '\r'
    ensures Column(col, t) == col + Units(t)
    decreases |t|
  {
    if t != [] {
      ColumnUnits(col, t[..|t| - 1]);
    }
  }

  /** Counting in two steps is counting at once. */
  lemma {:induction false} AdvanceTwice(s: string, l: Counters, m: nat, end: nat)
    requires l.charOffset <= m <= end <= |s|
    ensures Advance(s, Advance(s, l, m), end) == Advance(s, l, end)
    decreases m - l.charOffset
  {
    if l.charOffset < m {
      AdvanceTwice(s, Tick(l, s[l.charOffset]), m, end);
    }
  }

  // ---------------------------------------------------------------------
  // parseAttribs (lib/Parser.js:123-146)

  /** `parseAttribs`: the attribute loop runs on tags, scripts and styles only. */
  function Annotate(e: Element): (r: Element)
    ensures r == e.(attribs := r.attribs)
    ensures !IsContainerType(e.etype) ==> r == e
  {
    if IsContainerType(e.etype) then e.(attribs := Attributes.AttribsAfter(e)) else e
  }

  // ---------------------------------------------------------------------
  // One pass of the loop in parseTags (lib/Parser.js:161-352)

  /** The element built from a slice (lib/Parser.js:166-173): its data is trimmed unless the state is Text. */
  function Candidate(raw: string, state: ElementType): Element {
    Element(raw, if state == Text then raw else Trim(raw), state, None, None, None)
  }

  function Top(stack: seq<Region>): Region
    requires stack != []
  {
    stack[|stack| - 1]
  }

  function Pop(stack: seq<Region>): seq<Region>
    requires stack != []
  {
    stack[..|stack| - 1]
  }

  /** The name that ends a script or style region. */
  function Closer(t: Region): string {
    if t == Script then "/script" else "/style"
  }

  /**
   * `es2` is `es` with only the raw text and data of text or comment
   * elements rewritten, and no text element emptied.
   */
  predicate Retouched(es: seq<Element>, es2: seq<Element>) {
    && |es2| == |es|
    && (forall j :: 0 <= j < |es| ==> es2[j].etype == es[j].etype)
    && (forall j :: 0 <= j < |es| && IsContainerType(es[j].etype) ==> es2[j] == es[j])
    && (NoEmptyText(es) ==> NoEmptyText(es2))
  }

  /** Rewriting the last element when it is a text or comment element, without shortening a text. */
  lemma RetouchLast(es: seq<Element>, t: ElementType, text: string)
    requires LastIs(es, t) && (t == Text || t == Comment)
    requires t == Text ==> |text| >= |es[|es| - 1].raw|
    ensures Retouched(es, SetRawData(es, |es| - 1, text))
  {
  }

  /**
   * Inside a script or style region (lib/Parser.js:184-245): the closing tag
   * pops the region; any other slice not starting a comment becomes text,
   * appended with its leading marker to a preceding text element.
   */
  function TextRegionPass(s: ParserState, e: Element, name: string): (r: (ParserState, Element))
    requires s.tagStack != [] && Top(s.tagStack) != Comment
    ensures r.0 == s.(elements := r.0.elements, tagStack := r.0.tagStack)
    ensures Retouched(s.elements, r.0.elements)
    ensures r.1.etype == e.etype || r.1.etype == Text
  {
    var top := Top(s.tagStack);
    var es := s.elements;
    var last := |es| - 1;
    if name == Closer(top) then (s.(tagStack := Pop(s.tagStack)), e)
    else if StartsWith(e.raw, "!--") then (s, e)
    else
      var e := e.(etype := Text);
      if top == Script then
        if LastIs(es, Text) then
          RetouchLast(es, Text, es[last].raw + s.prevTagSep + e.raw);
          (s.(elements := SetRawData(es, last, es[last].raw + s.prevTagSep + e.raw)), e.(raw := "", data := ""))
        else (s, e)
      else if LastIs(es, Text) then
        if e.raw != "" then
          RetouchLast(es, Text, es[last].raw + s.prevTagSep + e.raw);
          (s.(elements := SetRawData(es, last, es[last].raw + s.prevTagSep + e.raw)), e.(raw := "", data := ""))
        else
          RetouchLast(es, Text, es[last].raw + s.prevTagSep);
          (s.(elements := SetRawData(es, last, es[last].raw + s.prevTagSep)), e)
      else if e.raw != "" then (s, e.(data := e.raw))
      else (s, e)
  }

  /**
   * Inside a comment region (lib/Parser.js:246-281): a slice ending in `--`
   * before `>` pops the region; the slice and its marker are appended to a
   * preceding comment element.
   */
  function CommentRegionPass(s: ParserState, e: Element, sep: char): (r: (ParserState, Element))
    requires s.tagStack != []
    ensures r.0 == s.(elements := r.0.elements, tagStack := r.0.tagStack)
    ensures Retouched(s.elements, r.0.elements)
    ensures r.1.etype == Text || r.1.etype == Comment
  {
    var es := s.elements;
    var last := |es| - 1;
    if EndsWith(e.raw, "--") && sep == '>' then
      if LastIs(es, Comment) then
        RetouchLast(es, Comment, TrimComment(es[last].raw + e.raw));
        (s.(tagStack := Pop(s.tagStack), elements := SetRawData(es, last, TrimComment(es[last].raw + e.raw))),
         e.(raw := "", data := "", etype := Text))
      else (s.(tagStack := Pop(s.tagStack)), e.(etype := Comment))
    else if LastIs(es, Comment) then
      RetouchLast(es, Comment, es[last].raw + e.raw + [sep]);
      (s.(elements := SetRawData(es, last, es[last].raw + e.raw + [sep])), e.(raw := "", data := "", etype := Text))
    else (s, e.(raw := e.raw + [sep], data := e.raw + [sep], etype := Comment))
  }

  /** The section that inspects the tag stack (lib/Parser.js:181-282). */
  function RegionPass(s: ParserState, e: Element, name: string, sep: char): (r: (ParserState, Element))
    ensures r.0 == s.(elements := r.0.elements, tagStack := r.0.tagStack)
    ensures Retouched(s.elements, r.0.elements)
    ensures r.1.etype == e.etype || r.1.etype == Text || r.1.etype == Comment
  {
    if s.tagStack == [] then (s, e)
    else if Top(s.tagStack) == Comment then CommentRegionPass(s, e, sep)
    else TextRegionPass(s, e, name)
  }

  /** Processing of a slice that is still a tag (lib/Parser.js:285-325). */
  function TagPass(s: ParserState, e: Element, name: string, sep: char): (r: (ParserState, Element))
    requires e.etype == Tag
    ensures r.0 == s.(tagStack := r.0.tagStack)
    ensures r.1.etype != Text
    ensures IsContainerType(r.1.etype) ==> r.1.name == Some(name)
    ensures r.0.tagStack == s.tagStack || r.0.tagStack == s.tagStack + [r.1.etype]
    ensures StartsWith(name, "/") && !StartsWith(e.raw, "!--") ==> r.0.tagStack == s.tagStack
  {
    if StartsWith(e.raw, "!--") then
      var e := e.(etype := Comment);
      if EndsWith(e.raw, "--") && sep == '>' then
        var t := TrimComment(e.raw);
        (s, e.(raw := t, data := t))
      else (s.(tagStack := s.tagStack + [Comment]), e.(raw := e.raw + [sep]))
    else
      var e := e.(name := Some(name));
      if StartsWith(e.raw, "!") || StartsWith(e.raw, "?") then (s, e.(etype := Directive))
      else if StartsWith(name, "/") then
        (s, e.(data := name, etype := if name == "/script" then Script else if name == "/style" then Style else Tag))
      else if name == "script" then
        (if EndsWith(e.data, "/") then s else s.(tagStack := s.tagStack + [Script]), e.(etype := Script))
      else if name == "style" then
        (if EndsWith(e.data, "/") then s else s.(tagStack := s.tagStack + [Style]), e.(etype := Style))
      else (s, e)
  }

  /**
   * lib/Parser.js:327-349: a kept element gets its location (when locations
   * are on) and its attributes, and is queued, followed by its close when it
   * is a self-closing tag, script or style.
   */
  function Push(s: ParserState, e: Element, incl: bool): (r: ParserState)
    requires s.current <= |s.buffer|
    ensures r == s.(elements := r.elements, location := r.location)
  {
    if e.raw == "" && e.etype == Text then s
    else
      var locate := incl && e.location.None?;
      var found := Locate(s, e.etype == Tag);
      var s1 := if locate then found.0 else s;
      var e1 := if locate then e.(location := Some(found.1)) else e;
      s1.(elements := Enqueue(s1.elements, Annotate(e1)))
  }

  /**
   * The element work of one pass of the loop: the slice from `current` up to
   * the marker at `next` is classified and queued (lib/Parser.js:165-349).
   */
  function Classify(s: ParserState, next: nat, incl: bool): (r: ParserState)
    requires s.current <= next < |s.buffer|
    ensures r == s.(elements := r.elements, tagStack := r.tagStack, location := r.location)
  {
    var tagged := Inspect(s, next);
    Push(tagged.0, tagged.1, incl)
  }

  /** The element a slice gives, and the regions and queue after inspecting it (lib/Parser.js:165-325). */
  function Inspect(s: ParserState, next: nat): (r: (ParserState, Element))
    requires s.current <= next < |s.buffer|
    ensures r.0 == s.(elements := r.0.elements, tagStack := r.0.tagStack)
  {
    var sep := s.buffer[next];
    var e := Candidate(s.buffer[s.current..next], s.parseState);
    var name := TagName(e.data);
    var inspected := RegionPass(s, e, name, sep);
    if inspected.1.etype == Tag then TagPass(inspected.0, inspected.1, name, sep) else inspected
  }

  /**
   * A state just after a marker: the last character scanned is `<` or `>`,
   * and the state and separator record it (lib/Parser.js:350-352).
   */
  predicate AfterMarker(s: ParserState) {
    && 0 < s.current <= |s.buffer|
    && IsMarker(s.buffer[s.current - 1])
    && s.parseState == (if s.buffer[s.current - 1] == '<' then Tag else Text)
    && s.prevTagSep == [s.buffer[s.current - 1]]
  }

  /** One pass of the loop, ending with the state the marker selects (lib/Parser.js:350-352). */
  function Step(s: ParserState, next: nat, incl: bool): (r: ParserState)
    requires s.current <= next < |s.buffer|
    ensures r.buffer == s.buffer && r.current == next + 1 && r.calls == s.calls && r.done == s.done
    ensures r.parseState == (if s.buffer[next] == '<' then Tag else Text) && r.prevTagSep == [s.buffer[next]]
    ensures IsMarker(s.buffer[next]) ==> AfterMarker(r)
  {
    var sep := s.buffer[next];
    Classify(s, next, incl).(parseState := if sep == '<' then Tag else Text, current := next + 1, prevTagSep := [sep])
  }

  /**
   * The loop of `parseTags` (lib/Parser.js:160-353): every slice before a
   * marker, in order. It stops after the last marker: nothing after it is a
   * marker, and the state and separator record that marker.
   */
  function Scan(s: ParserState, incl: bool): (r: ParserState)
    requires s.current <= |s.buffer|
    ensures r.buffer == s.buffer && s.current <= r.current <= |s.buffer|
    ensures r.calls == s.calls && r.done == s.done
    decreases |s.buffer| - s.current
  {
    var next := NextMarker(s.buffer, s.current);
    if next == |s.buffer| then s else Scan(Step(s, next, incl), incl)
  }

  /** The counters once the buffer is cut (lib/Parser.js:355-360). */
  function Settle(l: Counters): Counters {
    l.(row := l.row + l.inBuffer, inBuffer := 0, charOffset := 0)
  }

  /** After the loop (lib/Parser.js:355-363): the buffer keeps the text after the last marker. */
  function Finish(s: ParserState, incl: bool): (r: ParserState)
    requires s.current <= |s.buffer|
    ensures r == s.(location := r.location, buffer := s.buffer[s.current..], current := 0)
  {
    var l := if incl then Settle(Locate(s, false).0.location) else s.location;
    s.(location := l, buffer := if s.current <= |s.buffer| - 1 then s.buffer[s.current..] else "", current := 0)
  }

  // ---------------------------------------------------------------------
  // writeHandler (lib/Parser.js:406-424)

  /** The handler method an element is delivered to. */
  function CallFor(e: Element): (c: Call)
    ensures !c.ResetCall? && !c.DoneCall? && !c.ErrorCall? && c.element == e
  {
    match e.etype
    case Comment => WriteComment(e)
    case Directive => WriteDirective(e)
    case Text => WriteText(e)
    case _ => WriteTag(e)
  }

  /** The calls that deliver `es`, in order. */
  function Dispatch(es: seq<Element>): (r: seq<Call>)
    ensures |r| == |es|
    ensures forall i :: 0 <= i < |es| ==> r[i] == CallFor(es[i])
  {
    if es == [] then [] else [CallFor(es[0])] + Dispatch(es[1..])
  }

  function AfterWriteHandler(s: ParserState, forceFlush: bool): (r: ParserState)
    ensures r == s.(elements := r.elements, calls := r.calls)
    ensures |r.calls| >= |s.calls| && r.calls[..|s.calls|] == s.calls
  {
    if s.tagStack != [] && !forceFlush then s
    else s.(elements := [], calls := s.calls + Dispatch(s.elements))
  }

  /** `parseTags` (lib/Parser.js:158-366). */
  function AfterParseTags(s: ParserState, incl: bool): (r: ParserState)
    requires s.current <= |s.buffer|
    ensures |r.calls| >= |s.calls| && r.calls[..|s.calls|] == s.calls && r.done == s.done
  {
    AfterWriteHandler(Finish(Scan(s, incl), incl), false)
  }

  // ---------------------------------------------------------------------
  // The public operations

  /** The element `done` builds from the leftover buffer (lib/Parser.js:69-83). */
  function FinalElement(raw: string, state: ElementType): Element {
    var data := if state == Text then raw else Trim(raw);
    Annotate(Element(raw, data, state, if IsContainerType(state) then Some(TagName(data)) else None, None, None))
  }

  /** `done` (lib/Parser.js:64-88). */
  function AfterDone(s: ParserState): ParserState {
    if s.done then s
    else
      var s1 := if |s.buffer| > 0 then s.(buffer := "", elements := s.elements + [FinalElement(s.buffer, s.parseState)]) else s;
      var s2 := AfterWriteHandler(s1.(done := true), false);
      s2.(calls := s2.calls + [DoneCall])
  }

  /** `reset` (lib/Parser.js:91-108): the constructor's state, and `handler.reset` is called. */
  function AfterReset(s: ParserState): ParserState {
    Initial.(calls := s.calls + [ResetCall])
  }

  const AfterDoneError := "Attempted to parse chunk after parsing already done"

  /**
   * `parseChunk` (lib/Parser.js:54-61) and the error it throws, if any. Once
   * done, the error goes to `handler.error` when there is one and parsing
   * goes on; otherwise it is thrown and nothing changes.
   */
  function AfterParseChunk(s: ParserState, data: string, hasError: bool, incl: bool): (ParserState, Option<string>)
    requires s.current <= |s.buffer|
  {
    if s.done && !hasError then (s, Some(AfterDoneError))
    else
      var s1 := if s.done then s.(calls := s.calls + [ErrorCall(AfterDoneError)]) else s;
      (AfterParseTags(s1.(buffer := s1.buffer + data), incl), None)
  }

  /** `parseComplete` (lib/Parser.js:47-51). */
  function AfterParseComplete(s: ParserState, data: string, hasError: bool, incl: bool): ParserState {
    AfterDone(AfterParseChunk(AfterReset(s), data, hasError, incl).0)
  }

  // ---------------------------------------------------------------------
  // Properties of the loop

  /**
   * The loop stops after the last marker: nothing after it is a marker, and
   * the state and separator record that marker; with no marker nothing
   * changes.
   */
  lemma {:induction false} ScanMarkerFree(s: ParserState, incl: bool)
    requires s.current <= |s.buffer|
    ensures forall k :: Scan(s, incl).current <= k < |s.buffer| ==> !IsMarker(s.buffer[k])
    decreases |s.buffer| - s.current
  {
    var next := NextMarker(s.buffer, s.current);
    if next < |s.buffer| {
      var s1 := Step(s, next, incl);
      assert Scan(s, incl) == Scan(s1, incl);
      ScanMarkerFree(s1, incl);
    }
  }

  /** With no marker left the loop does nothing. */
  lemma ScanIdle(s: ParserState, incl: bool)
    requires s.current <= |s.buffer|
    ensures Scan(s, incl).current == s.current ==> Scan(s, incl) == s
  {
  }

  lemma ScanUnfold(s: ParserState, incl: bool)
    requires s.current <= |s.buffer| && NextMarker(s.buffer, s.current) < |s.buffer|
    ensures Scan(s, incl) == Scan(Step(s, NextMarker(s.buffer, s.current), incl), incl)
  {
  }

  lemma {:induction false} ScanLast(s: ParserState, incl: bool)
    requires s.current <= |s.buffer|
    ensures Scan(s, incl).current > s.current ==> AfterMarker(Scan(s, incl))
    decreases |s.buffer| - s.current
  {
    var next := NextMarker(s.buffer, s.current);
    if next < |s.buffer| {
      var s1 := Step(s, next, incl);
      ScanUnfold(s, incl);
      ScanIdle(s1, incl);
      ScanLast(s1, incl);
    }
  }

  /** What the end of `parseTags` keeps of a scanned state `t` (lib/Parser.js:355-365). */
  lemma FinishRest(s: ParserState, t: ParserState, incl: bool)
    requires t.buffer == s.buffer && t.current <= |t.buffer|
    requires forall k :: t.current <= k < |t.buffer| ==> !IsMarker(t.buffer[k])
    ensures var r := AfterWriteHandler(Finish(t, incl), false);
      && r.current == 0 && r.parseState == t.parseState && r.prevTagSep == t.prevTagSep
      && r.buffer == s.buffer[t.current..]
      && EndsWith(s.buffer, r.buffer)
      && (forall k :: 0 <= k < |r.buffer| ==> !IsMarker(r.buffer[k]))
  {
    var r := AfterWriteHandler(Finish(t, incl), false);
    assert r.buffer == s.buffer[t.current..];
    forall k | 0 <= k < |r.buffer|
      ensures !IsMarker(r.buffer[k])
    {
      assert r.buffer[k] == s.buffer[t.current + k];
    }
  }

  /**
   * After `parseTags` the buffer is exactly the text after the last marker,
   * so it holds no marker, and `_current` is 0 (lib/Parser.js:160, 361-363).
   */
  lemma ParseTagsRest(s: ParserState, incl: bool)
    requires s.current == 0
    ensures var r := AfterParseTags(s, incl);
      && r.current == 0
      && EndsWith(s.buffer, r.buffer)
      && (forall k :: 0 <= k < |r.buffer| ==> !IsMarker(r.buffer[k]))
  {
    ScanMarkerFree(s, incl);
    FinishRest(s, Scan(s, incl), incl);
  }

  /**
   * After `parseTags` the state is Tag exactly when the last marker was `<`,
   * and the separator is that marker; with no marker both are unchanged
   * (lib/Parser.js:350-352).
   */
  lemma ParseTagsState(s: ParserState, incl: bool)
    requires s.current == 0
    ensures var r := AfterParseTags(s, incl);
      && (|r.buffer| == |s.buffer| ==> r.parseState == s.parseState && r.prevTagSep == s.prevTagSep)
      && (|r.buffer| < |s.buffer| ==>
            var m := s.buffer[|s.buffer| - |r.buffer| - 1];
            IsMarker(m) && r.parseState == (if m == '<' then Tag else Text) && r.prevTagSep == [m])
  {
    var t := Scan(s, incl);
    ScanMarkerFree(s, incl);
    FinishRest(s, t, incl);
    var r := AfterWriteHandler(Finish(t, incl), false);
    assert AfterParseTags(s, incl) == r;
    if t.current == 0 {
      ScanIdle(s, incl);
    } else {
      ScanLast(s, incl);
      assert AfterMarker(t);
      assert |s.buffer| - |r.buffer| - 1 == t.current - 1;
    }
  }

  /** Retouching text and comments keeps a queue well formed. */
  lemma RetouchedQueued(es: seq<Element>, es2: seq<Element>)
    requires Queued(es) && Retouched(es, es2)
    ensures Queued(es2)
  {
    forall i | 0 <= i < |es2| && SelfClosing(es2[i]) && !IsCloseName(es2[i])
      ensures i + 1 < |es2| && es2[i + 1] == CloseOf(es2[i])
    {
      assert es2[i] == es[i];
      assert SelfClosing(es[i]);
    }
  }

  lemma PushQueued(s: ParserState, e: Element, incl: bool)
    requires s.current <= |s.buffer| && Queued(s.elements)
    requires IsContainerType(e.etype) ==> e.name.Some?
    ensures Queued(Push(s, e, incl).elements)
  {
    if !(e.raw == "" && e.etype == Text) {
      var locate := incl && e.location.None?;
      var found := Locate(s, e.etype == Tag);
      var e1 := if locate then e.(location := Some(found.1)) else e;
      EnqueueQueued(s.elements, Annotate(e1));
    }
  }

  /**
   * A pass of the loop keeps the queue well formed: no empty text, every
   * tag, script and style named, and every self-closing one followed by its
   * synthesised close (lib/Parser.js:327-349).
   */
  lemma StepQueued(s: ParserState, next: nat, incl: bool)
    requires s.current <= next < |s.buffer| && (s.parseState == Text || s.parseState == Tag)
    requires Queued(s.elements)
    ensures Queued(Step(s, next, incl).elements)
  {
    var sep := s.buffer[next];
    var e := Candidate(s.buffer[s.current..next], s.parseState);
    var name := TagName(e.data);
    var inspected := RegionPass(s, e, name, sep);
    RetouchedQueued(s.elements, inspected.0.elements);
    var tagged := if inspected.1.etype == Tag then TagPass(inspected.0, inspected.1, name, sep) else inspected;
    PushQueued(tagged.0, tagged.1, incl);
  }

  lemma {:induction false} ScanQueued(s: ParserState, incl: bool)
    requires s.current <= |s.buffer| && (s.parseState == Text || s.parseState == Tag)
    requires Queued(s.elements)
    ensures Queued(Scan(s, incl).elements)
    decreases |s.buffer| - s.current
  {
    var next := NextMarker(s.buffer, s.current);
    if next < |s.buffer| {
      var s1 := Step(s, next, incl);
      assert Scan(s, incl) == Scan(s1, incl);
      StepQueued(s, next, incl);
      ScanQueued(s1, incl);
    }
  }

  /** Whatever `parseTags` leaves queued, or has delivered, is a well-formed queue. */
  lemma ParseTagsQueued(s: ParserState, incl: bool)
    requires s.current <= |s.buffer| && (s.parseState == Text || s.parseState == Tag)
    requires Queued(s.elements)
    ensures Queued(AfterParseTags(s, incl).elements)
    ensures Queued(Scan(s, incl).elements)
  {
    ScanQueued(s, incl);
  }

  // ---------------------------------------------------------------------
  // Regions

  /** A pass of the loop queues what inspecting the slice leaves. */
  lemma StepParts(s: ParserState, next: nat, incl: bool)
    requires s.current <= next < |s.buffer|
    ensures var inspected := Inspect(s, next);
      && Step(s, next, incl).tagStack == inspected.0.tagStack
      && Step(s, next, incl).elements == Push(inspected.0, inspected.1, incl).elements
  {
  }

  /** A text or comment element without a location is queued alone, as it is apart from its location. */
  lemma PushPlain(s: ParserState, e: Element, incl: bool)
    requires s.current <= |s.buffer| && (e.etype == Text || e.etype == Comment) && e.location.None?
    requires e.etype == Text ==> e.raw != ""
    ensures var r := Push(s, e, incl).elements;
      |r| == |s.elements| + 1 && r[..|s.elements|] == s.elements && r[|s.elements|].(location := None) == e
  {
    var r := Push(s, e, incl).elements;
    assert r[..|s.elements|] == s.elements;
  }

  /**
   * Inside a script or style region, a non-empty slice that is not the
   * region's closing tag and does not start a comment is appended, with the
   * marker before it, to the text element queued last, and nothing new is
   * queued (lib/Parser.js:184-245).
   */
  lemma RegionText(s: ParserState, next: nat, incl: bool)
    requires s.current <= next < |s.buffer| && s.tagStack != [] && Top(s.tagStack) != Comment
    requires var raw := s.buffer[s.current..next];
      raw != "" && !StartsWith(raw, "!--") && TagName(Candidate(raw, s.parseState).data) != Closer(Top(s.tagStack))
    requires LastIs(s.elements, Text)
    ensures var r := Step(s, next, incl);
      && r.tagStack == s.tagStack
      && r.elements == SetRawData(s.elements, |s.elements| - 1,
           s.elements[|s.elements| - 1].raw + s.prevTagSep + s.buffer[s.current..next])
  {
    StepParts(s, next, incl);
    var inspected := Inspect(s, next);
    assert inspected.0.tagStack == s.tagStack && inspected.1.raw == "" && inspected.1.etype == Text;
  }

  /**
   * The same slice with no text before it is queued as text; a style keeps
   * its raw text as data, a script the trimmed data of a slice that followed
   * a `<`.
   */
  lemma RegionTextFirst(s: ParserState, next: nat, incl: bool)
    requires s.current <= next < |s.buffer| && s.tagStack != [] && Top(s.tagStack) != Comment
    requires var raw := s.buffer[s.current..next];
      raw != "" && !StartsWith(raw, "!--") && TagName(Candidate(raw, s.parseState).data) != Closer(Top(s.tagStack))
    requires !LastIs(s.elements, Text)
    ensures var r := Step(s, next, incl); var raw := s.buffer[s.current..next];
      && r.tagStack == s.tagStack
      && |r.elements| == |s.elements| + 1 && r.elements[..|s.elements|] == s.elements
      && r.elements[|s.elements|].(location := None) ==
           Element(raw, if Top(s.tagStack) == Style || s.parseState == Text then raw else Trim(raw), Text, None, None, None)
  {
    StepParts(s, next, incl);
    var raw := s.buffer[s.current..next];
    var inspected := Inspect(s, next);
    assert inspected.0 == s;
    assert inspected.1 == Element(raw, if Top(s.tagStack) == Style || s.parseState == Text then raw else Trim(raw), Text, None, None, None);
    PushPlain(s, inspected.1, incl);
  }

  /** A slice whose tag name is a closing region name does not open a comment. */
  lemma CloserNotComment(raw: string, state: ElementType, t: Region)
    requires TagName(Candidate(raw, state).data) == Closer(t)
    ensures !StartsWith(raw, "!--")
  {
    if StartsWith(raw, "!--") {
      TrimFirst(raw);
      TagNameFirst(Candidate(raw, state).data);
      assert false;
    }
  }

  /** The region's closing tag pops it. */
  lemma RegionEnd(s: ParserState, next: nat, incl: bool)
    requires s.current <= next < |s.buffer| && s.tagStack != [] && Top(s.tagStack) != Comment
    requires TagName(Candidate(s.buffer[s.current..next], s.parseState).data) == Closer(Top(s.tagStack))
    ensures Step(s, next, incl).tagStack == Pop(s.tagStack)
  {
    var raw := s.buffer[s.current..next];
    var e := Candidate(raw, s.parseState);
    CloserNotComment(raw, s.parseState, Top(s.tagStack));
    StepParts(s, next, incl);
    var inspected := RegionPass(s, e, TagName(e.data), s.buffer[next]);
    assert inspected.0.tagStack == Pop(s.tagStack) && inspected.1 == e;
  }

  /**
   * A comment that opens and closes in one slice, outside any region,
   * becomes one comment element without its `!--` and `--`
   * (lib/Parser.js:286-295).
   */
  lemma CommentWhole(s: ParserState, next: nat, incl: bool)
    requires s.current <= next < |s.buffer| && s.tagStack == [] && s.parseState == Tag && s.buffer[next] == '>'
    requires StartsWith(s.buffer[s.current..next], "!--") && EndsWith(s.buffer[s.current..next], "--")
    ensures var r := Step(s, next, incl); var c := TrimComment(s.buffer[s.current..next]);
      && r.tagStack == []
      && |r.elements| == |s.elements| + 1 && r.elements[..|s.elements|] == s.elements
      && r.elements[|s.elements|].(location := None) == Element(c, c, Comment, None, None, None)
  {
  }

  /** A comment not closed in its slice opens a comment region; the element keeps the marker after it. */
  lemma CommentOpen(s: ParserState, next: nat, incl: bool)
    requires s.current <= next < |s.buffer| && s.tagStack == [] && s.parseState == Tag
    requires var raw := s.buffer[s.current..next];
      StartsWith(raw, "!--") && !(EndsWith(raw, "--") && s.buffer[next] == '>')
    ensures var r := Step(s, next, incl); var raw := s.buffer[s.current..next];
      && r.tagStack == [Comment]
      && |r.elements| == |s.elements| + 1 && r.elements[..|s.elements|] == s.elements
      && r.elements[|s.elements|].(location := None) == Element(raw + [s.buffer[next]], Trim(raw), Comment, None, None, None)
  {
  }

  /** Inside a comment region, a slice that does not end it is appended with its marker to the comment queued last. */
  lemma CommentGrows(s: ParserState, next: nat, incl: bool)
    requires s.current <= next < |s.buffer| && s.tagStack != [] && Top(s.tagStack) == Comment
    requires !(EndsWith(s.buffer[s.current..next], "--") && s.buffer[next] == '>')
    requires LastIs(s.elements, Comment)
    ensures var r := Step(s, next, incl); var last := |s.elements| - 1;
      && r.tagStack == s.tagStack
      && r.elements == SetRawData(s.elements, last, s.elements[last].raw + s.buffer[s.current..next] + [s.buffer[next]])
  {
  }

  /** A slice ending in `--` before `>` ends the comment region; the comment loses its `!--` and `--`. */
  lemma CommentEnd(s: ParserState, next: nat, incl: bool)
    requires s.current <= next < |s.buffer| && s.tagStack != [] && Top(s.tagStack) == Comment
    requires EndsWith(s.buffer[s.current..next], "--") && s.buffer[next] == '>'
    requires LastIs(s.elements, Comment)
    ensures var r := Step(s, next, incl); var last := |s.elements| - 1;
      && r.tagStack == Pop(s.tagStack)
      && r.elements == SetRawData(s.elements, last, TrimComment(s.elements[last].raw + s.buffer[s.current..next]))
  {
  }

  // ---------------------------------------------------------------------
  // Delivery and the public operations

  /**
   * Delivery keeps the queue's order and calls the method for each
   * element's type: comments, directives and text have their own, and
   * everything else goes to `writeTag` (lib/Parser.js:408-423).
   */
  lemma DispatchKinds(es: seq<Element>)
    ensures forall i :: 0 <= i < |es| ==> Dispatch(es)[i].element == es[i]
    ensures forall i :: 0 <= i < |es| ==>
      && (Dispatch(es)[i].WriteComment? <==> es[i].etype == Comment)
      && (Dispatch(es)[i].WriteDirective? <==> es[i].etype == Directive)
      && (Dispatch(es)[i].WriteText? <==> es[i].etype == Text)
      && (Dispatch(es)[i].WriteTag? <==> IsContainerType(es[i].etype))
  {
  }

  /** Delivering two queues in turn is delivering them as one. */
  lemma {:induction false} DispatchAppend(a: seq<Element>, b: seq<Element>)
    ensures Dispatch(a + b) == Dispatch(a) + Dispatch(b)
  {
    if a != [] {
      assert (a + b)[1..] == a[1..] + b;
      DispatchAppend(a[1..], b);
    }
  }

  /** A second `done` changes nothing (lib/Parser.js:65). */
  lemma DoneIdempotent(s: ParserState)
    ensures AfterDone(s).done
    ensures AfterDone(AfterDone(s)) == AfterDone(s)
  {
  }

  /**
   * The first `done` empties the buffer into one last element, then
   * delivers the queue unless a region is open, and then calls
   * `handler.done` (lib/Parser.js:66-87).
   */
  lemma DoneFlushes(s: ParserState)
    requires !s.done
    ensures var r := AfterDone(s);
      var queued := s.elements + if s.buffer == "" then [] else [FinalElement(s.buffer, s.parseState)];
      && r.done && r.buffer == "" && r.tagStack == s.tagStack
      && (s.tagStack == [] ==> r.elements == [] && r.calls == s.calls + Dispatch(queued) + [DoneCall])
      && (s.tagStack != [] ==> r.elements == queued && r.calls == s.calls + [DoneCall])
  {
  }

  /**
   * The last element: its data is trimmed unless the state is Text, and in
   * the Tag state it gets a name and attributes.
   */
  lemma FinalElementShape(raw: string, state: ElementType)
    requires state == Text || state == Tag
    ensures var e := FinalElement(raw, state);
      && e.raw == raw && e.etype == state && e.location.None?
      && (state == Text ==> e.data == raw && e.name.None? && e.attribs.None?)
      && (state == Tag ==> e.data == Trim(raw) && e.name == Some(TagName(Trim(raw))))
  {
  }

  /**
   * `parseChunk` after `done` reports the error: through `handler.error`,
   * after which the chunk is parsed as usual, or by throwing, which leaves
   * everything as it was (lib/Parser.js:55-58, 426-429).
   */
  lemma ChunkAfterDone(s: ParserState, data: string, hasError: bool, incl: bool)
    requires s.done && s.current <= |s.buffer|
    ensures !hasError ==> AfterParseChunk(s, data, hasError, incl) == (s, Some(AfterDoneError))
    ensures hasError ==>
      var r := AfterParseChunk(s, data, hasError, incl);
      && r.1.None?
      && |r.0.calls| > |s.calls| && r.0.calls[..|s.calls| + 1] == s.calls + [ErrorCall(AfterDoneError)]
  {
    if hasError {
      var s1 := s.(calls := s.calls + [ErrorCall(AfterDoneError)]);
      var r := AfterParseTags(s1.(buffer := s1.buffer + data), incl);
      assert r.calls[..|s1.calls|] == s1.calls;
      assert r.calls[..|s.calls| + 1] == r.calls[..|s1.calls|];
    }
  }

  /** `parseComplete` never reports an error: `reset` has cleared `_done`. */
  lemma CompleteNoError(s: ParserState, data: string, hasError: bool, incl: bool)
    ensures AfterParseChunk(AfterReset(s), data, hasError, incl).1.None?
    ensures var r := AfterParseComplete(s, data, hasError, incl);
      && r.done && r.buffer == ""
      && |r.calls| >= |s.calls| + 2 && r.calls[..|s.calls| + 1] == s.calls + [ResetCall]
      && r.calls[|r.calls| - 1] == DoneCall
  {
    ChunkFromReset(s, data, hasError, incl);
    var s0 := AfterReset(s);
    var s1 := AfterParseTags(s0.(buffer := data), incl);
    assert s1.calls[..|s0.calls|] == s0.calls;
    DoneCalls(s1);
    var r := AfterDone(s1);
    assert r.calls[..|s.calls| + 1] == s1.calls[..|s0.calls|];
  }

  /** `done` keeps the calls made so far and ends with `handler.done`. */
  lemma DoneCalls(s: ParserState)
    requires !s.done
    ensures var r := AfterDone(s);
      && r.done && r.buffer == ""
      && |r.calls| > |s.calls| && r.calls[..|s.calls|] == s.calls && r.calls[|r.calls| - 1] == DoneCall
  {
    var r := AfterDone(s);
    assert r.calls[..|s.calls|] == s.calls;
  }

  /**
   * A document without markers is one text element, delivered between the
   * handler's `reset` and `done`.
   */
  lemma CompletePlainText(s: ParserState, data: string, hasError: bool, incl: bool)
    requires data != [] && forall k :: 0 <= k < |data| ==> !IsMarker(data[k])
    ensures AfterParseComplete(s, data, hasError, incl).calls ==
      s.calls + [ResetCall, WriteText(Element(data, data, Text, None, None, None)), DoneCall]
  {
    var s0 := AfterReset(s).(buffer := data);
    assert s0.calls == s.calls + [ResetCall];
    ChunkFromReset(s, data, hasError, incl);
    var s1 := AfterParseTags(s0, incl);
    assert AfterParseComplete(s, data, hasError, incl) == AfterDone(s1);
    PlainDone(s0, incl);
  }

  /** A marker-free chunk in a fresh parser, then `done`: one text element, then `done`. */
  lemma PlainDone(s: ParserState, incl: bool)
    requires s.current == 0 && s.elements == [] && s.tagStack == [] && !s.done && s.parseState == Text
    requires s.buffer != [] && forall k :: 0 <= k < |s.buffer| ==> !IsMarker(s.buffer[k])
    ensures AfterDone(AfterParseTags(s, incl)).calls ==
      s.calls + [WriteText(Element(s.buffer, s.buffer, Text, None, None, None)), DoneCall]
  {
    PlainChunk(s, incl);
    DoneText(AfterParseTags(s, incl));
  }

  /** After `reset`, `parseChunk` only appends to the empty buffer and runs `parseTags`. */
  lemma ChunkFromReset(s: ParserState, data: string, hasError: bool, incl: bool)
    ensures AfterParseChunk(AfterReset(s), data, hasError, incl) == (AfterParseTags(AfterReset(s).(buffer := data), incl), None)
  {
    assert AfterReset(s).buffer + data == data;
  }

  /** `done` on leftover text with nothing queued delivers it as one text element. */
  lemma DoneText(s: ParserState)
    requires !s.done && s.buffer != [] && s.parseState == Text && s.elements == [] && s.tagStack == []
    ensures AfterDone(s).calls == s.calls + [WriteText(Element(s.buffer, s.buffer, Text, None, None, None)), DoneCall]
  {
    var e := Element(s.buffer, s.buffer, Text, None, None, None);
    assert FinalElement(s.buffer, Text) == e;
    assert s.elements + [e] == [e];
    assert Dispatch([e]) == [WriteText(e)];
  }

  /** A marker-free chunk with nothing queued stays in the buffer, and nothing is delivered. */
  lemma PlainChunk(s: ParserState, incl: bool)
    requires s.current == 0 && s.elements == [] && s.tagStack == []
    requires forall k :: 0 <= k < |s.buffer| ==> !IsMarker(s.buffer[k])
    ensures var r := AfterParseTags(s, incl);
      && r.calls == s.calls && r.buffer == s.buffer && r.parseState == s.parseState
      && r.elements == [] && r.tagStack == [] && r.done == s.done
  {
    NextMarkerExact(s.buffer, 0, |s.buffer|);
    assert Scan(s, incl) == s;
    FinishRest(s, s, incl);
    assert s.buffer[0..] == s.buffer;
  }
}
