/**
 * The `Parser` object of lib/Parser.js. Its fields are the fields of the
 * JavaScript object; the handler is represented by what the parser can see
 * of it (which of its properties are functions) and by the log of the calls
 * made on it. Every method is proved against the function of
 * `StreamScanner` that describes its effect on `State()`.
 */
module StreamParser {
  import opened Markup
  import opened StreamScanner
  import Attributes

  /** What `validateHandler` can see of a handler: whether it is an object, and which of its properties are functions. */
  datatype HandlerShape = HandlerShape(isObject: bool, functions: set<string>)

  /** The methods every handler must have (lib/Parser.js:392-399). */
  const HandlerMethods: seq<string> := ["reset", "done", "writeTag", "writeText", "writeComment", "writeDirective"]

  predicate ValidHandler(h: HandlerShape) {
    h.isObject && forall i :: 0 <= i < |HandlerMethods| ==> HandlerMethods[i] in h.functions
  }

  /** The message for the first required method that is missing from `h`, from index `i` on. */
  function MissingFrom(h: HandlerShape, i: nat): (r: Option<string>)
    requires i <= |HandlerMethods|
    ensures r.None? <==> forall j :: i <= j < |HandlerMethods| ==> HandlerMethods[j] in h.functions
    ensures r.Some? ==> exists j :: && i <= j < |HandlerMethods| && HandlerMethods[j] !in h.functions
                                    && r.value == "Handler method '" + HandlerMethods[j] + "' is invalid"
                                    && (forall k :: i <= k < j ==> HandlerMethods[k] in h.functions)
    decreases |HandlerMethods| - i
  {
    if i == |HandlerMethods| then None
    else if HandlerMethods[i] !in h.functions then Some("Handler method '" + HandlerMethods[i] + "' is invalid")
    else MissingFrom(h, i + 1)
  }

  /** The error `validateHandler` throws for `h`, if any (lib/Parser.js:390-403). */
  function Validation(h: HandlerShape): (r: Option<string>)
    ensures r.None? <==> ValidHandler(h)
    ensures !h.isObject ==> r == Some("Handler is not an object")
  {
    if !h.isObject then Some("Handler is not an object") else MissingFrom(h, 0)
  }

  class Parser {
    const handler: HandlerShape
    const includeLocation: bool

    var buffer: string
    var done: bool
    var elements: seq<Element>
    var current: nat
    var location: Counters
    var parseState: ElementType
    var prevTagSep: string
    var tagStack: seq<Region>
    /** The calls made on the handler so far, oldest first. */
    var calls: seq<Call>

    function State(): ParserState
      reads this
    {
      ParserState(buffer, current, elements, tagStack, parseState, prevTagSep, location, calls, done)
    }

    /** Between public calls `_current` is 0 (lib/Parser.js:363). */
    predicate Valid()
      reads this
    {
      current == 0
    }

    /** The body of the JavaScript constructor after validation (lib/Parser.js:10-27). */
    constructor(handler: HandlerShape, includeLocation: bool)
      requires ValidHandler(handler)
      ensures State() == Initial && Valid()
      ensures this.handler == handler && this.includeLocation == includeLocation
    {
      this.handler := handler;
      this.includeLocation := includeLocation;
      buffer := "";
      done := false;
      elements := [];
      current := 0;
      location := Zero;
      parseState := Text;
      prevTagSep := "";
      tagStack := [];
      calls := [];
    }

    /**
     * `new Parser(handler, options)` (lib/Parser.js:3-27): the handler is
     * checked first, and an invalid one is thrown before a parser exists.
     */
    static method New(handler: HandlerShape, includeLocation: bool) returns (p: Parser?, error: Option<string>)
      ensures error == Validation(handler)
      ensures p != null <==> error.None?
      ensures p != null ==> fresh(p) && p.State() == Initial && p.Valid()
      ensures p != null ==> p.handler == handler && p.includeLocation == includeLocation
    {
      error := ValidateHandler(handler);
      if error.Some? {
        return null, error;
      }
      p := new Parser(handler, includeLocation);
    }

    /** `validateHandler` (lib/Parser.js:390-403): the first failing test, in order, gives the error. */
    static method ValidateHandler(handler: HandlerShape) returns (error: Option<string>)
      ensures error == Validation(handler)
    {
      if !handler.isObject {
        return Some("Handler is not an object");
      }
      var i := 0;
      while i < |HandlerMethods|
        invariant i <= |HandlerMethods|
        invariant MissingFrom(handler, 0) == MissingFrom(handler, i)
      {
        if HandlerMethods[i] !in handler.functions {
          return Some("Handler method '" + HandlerMethods[i] + "' is invalid");
        }
        i := i + 1;
      }
      return None;
    }

    /** `handleError` (lib/Parser.js:425-429): passed to `handler.error` when there is one, thrown otherwise. */
    method HandleError(message: string) returns (thrown: bool)
      modifies this
      ensures thrown <==> "error" !in handler.functions
      ensures State() == if thrown then old(State()) else old(State()).(calls := old(calls) + [ErrorCall(message)])
    {
      if "error" in handler.functions {
        calls := calls + [ErrorCall(message)];
        return false;
      }
      return true;
    }

    /** `parseComplete` (lib/Parser.js:47-51). */
    method ParseComplete(data: string)
      modifies this
      ensures State() == AfterParseComplete(old(State()), data, "error" in handler.functions, includeLocation)
      ensures Valid()
    {
      Reset();
      var error := ParseChunk(data);
      Done();
    }

    /** `parseChunk` (lib/Parser.js:54-61); the result is the error thrown, if any. */
    method ParseChunk(data: string) returns (error: Option<string>)
      requires Valid()
      modifies this
      ensures (State(), error) == AfterParseChunk(old(State()), data, "error" in handler.functions, includeLocation)
      ensures Valid()
    {
      if done {
        var thrown := HandleError(AfterDoneError);
        if thrown {
          return Some(AfterDoneError);
        }
      }
      buffer := buffer + data;
      ParseTags();
      error := None;
    }

    /** `done` (lib/Parser.js:64-88). */
    method Done()
      modifies this
      ensures State() == AfterDone(old(State()))
    {
      if done {
        return;
      }
      done := true;
      if |buffer| > 0 {
        var rawData := buffer;
        buffer := "";
        var data := if parseState == Text then rawData else Trim(rawData);
        var element := Element(rawData, data, parseState, None, None, None);
        if IsContainerType(parseState) {
          element := element.(name := Some(TagName(data)));
        }
        element := ParseAttribs(element);
        elements := elements + [element];
      }
      WriteHandler(false);
      calls := calls + [DoneCall];
    }

    /** `reset` (lib/Parser.js:91-108). */
    method Reset()
      modifies this
      ensures State() == AfterReset(old(State())) && Valid()
    {
      buffer := "";
      prevTagSep := "";
      done := false;
      current := 0;
      location := Zero;
      parseState := Text;
      tagStack := [];
      elements := [];
      calls := calls + [ResetCall];
    }

    /** `parseTagAttribs` (lib/Parser.js:113-120): `parseAttribs` on every element. */
    static method ParseTagAttribs(elements: seq<Element>) returns (r: seq<Element>)
      ensures |r| == |elements|
      ensures forall i :: 0 <= i < |elements| ==> r[i] == Annotate(elements[i])
    {
      r := elements;
      for i := 0 to |elements|
        invariant |r| == |elements|
        invariant forall j :: 0 <= j < i ==> r[j] == Annotate(elements[j])
        invariant forall j :: i <= j < |elements| ==> r[j] == elements[j]
      {
        if IsContainerType(elements[i].etype) {
          var annotated := ParseAttribs(elements[i]);
          r := r[i := annotated];
        }
      }
    }

    /** `parseAttribs` (lib/Parser.js:123-146): only tags, scripts and styles get attributes. */
    static method ParseAttribs(element: Element) returns (r: Element)
      ensures r == Annotate(element)
    {
      if !IsContainerType(element.etype) {
        return element;
      }
      r := Attributes.AddAttribs(element);
    }

    /** `parseTags` (lib/Parser.js:158-366). */
    method ParseTags()
      requires Valid()
      modifies this
      ensures State() == AfterParseTags(old(State()), includeLocation) && Valid()
    {
      var bufferEnd := |buffer| - 1;
      ScanMarkers();
      ghost var finished := Finish(State(), includeLocation);
      if includeLocation {
        var ignored := GetLocation(false);
        location := location.(row := location.row + location.inBuffer);
        location := location.(inBuffer := 0, charOffset := 0);
      }
      buffer := if current <= bufferEnd then buffer[current..] else "";
      current := 0;
      assert State() == finished;
      WriteHandler(false);
    }

    /** The loop of `parseTags` (lib/Parser.js:160-353): one pass per marker. */
    method ScanMarkers()
      requires current <= |buffer|
      modifies this
      ensures State() == Scan(old(State()), includeLocation)
    {
      ghost var scanned := Scan(State(), includeLocation);
      var next := FindMarker(buffer, current);
      while next < |buffer|
        invariant current <= next <= |buffer| && next == NextMarker(buffer, current)
        invariant Scan(State(), includeLocation) == scanned
        decreases |buffer| - current
      {
        ClassifySlice(next);
        next := FindMarker(buffer, current);
      }
    }

    /** One pass of the loop of `parseTags` (lib/Parser.js:161-352). */
    method ClassifySlice(next: nat)
      requires current <= next < |buffer|
      modifies this
      ensures State() == Step(old(State()), next, includeLocation)
    {
      var tagSep := buffer[next];
      var element := BuildElement(next);
      if element.raw != "" || element.etype != Text {
        QueueElement(element);
      }
      parseState := if tagSep == '<' then Tag else Text;
      current := next + 1;
      prevTagSep := [tagSep];
    }

    /** The element of one pass, before it is queued (lib/Parser.js:162-325). */
    method BuildElement(next: nat) returns (element: Element)
      requires current <= next < |buffer|
      modifies this
      ensures (State(), element) == Inspect(old(State()), next)
    {
      var tagSep := buffer[next];
      var rawData := buffer[current..next];
      element := Element(rawData, if parseState == Text then rawData else Trim(rawData), parseState, None, None, None);
      var elementName := TagName(element.data);
      element := InspectRegion(element, elementName, tagSep);
      if element.etype == Tag {
        element := ProcessTag(element, elementName, tagSep);
      }
    }

    /** The section of the loop that inspects the tag stack (lib/Parser.js:181-282). */
    method InspectRegion(element: Element, elementName: string, tagSep: char) returns (r: Element)
      modifies this
      ensures (State(), r) == RegionPass(old(State()), element, elementName, tagSep)
    {
      r := element;
      if |tagStack| == 0 {
        return;
      }
      if tagStack[|tagStack| - 1] == Comment {
        r := InspectComment(element, tagSep);
      } else {
        r := InspectScriptOrStyle(element, elementName);
      }
    }

    /** Inside a script or style (lib/Parser.js:184-245). */
    method InspectScriptOrStyle(element: Element, elementName: string) returns (r: Element)
      requires tagStack != [] && Top(tagStack) != Comment
      modifies this
      ensures (State(), r) == TextRegionPass(old(State()), element, elementName)
    {
      r := element;
      var top := tagStack[|tagStack| - 1];
      var last := |elements| - 1;
      if top == Script {
        if elementName == "/script" {
          tagStack := tagStack[..|tagStack| - 1];
        } else if !StartsWith(element.raw, "!--") {
          r := r.(etype := Text);
          if |elements| > 0 && elements[last].etype == Text {
            var merged := elements[last].raw + prevTagSep + element.raw;
            elements := SetRawData(elements, last, merged);
            r := r.(raw := "", data := "");
          }
        }
      } else {
        if elementName == "/style" {
          tagStack := tagStack[..|tagStack| - 1];
        } else if !StartsWith(element.raw, "!--") {
          r := r.(etype := Text);
          if |elements| > 0 && elements[last].etype == Text {
            if element.raw != "" {
              var merged := elements[last].raw + prevTagSep + element.raw;
              elements := SetRawData(elements, last, merged);
              r := r.(raw := "", data := "");
            } else {
              var merged := elements[last].raw + prevTagSep;
              elements := SetRawData(elements, last, merged);
            }
          } else if element.raw != "" {
            r := r.(data := element.raw);
          }
        }
      }
    }

    /** Inside a comment (lib/Parser.js:246-281). */
    method InspectComment(element: Element, tagSep: char) returns (r: Element)
      requires tagStack != []
      modifies this
      ensures (State(), r) == CommentRegionPass(old(State()), element, tagSep)
    {
      ghost var pass := CommentRegionPass(State(), element, tagSep);
      r := element;
      var last := |elements| - 1;
      if EndsWith(element.raw, "--") && tagSep == '>' {
        tagStack := tagStack[..|tagStack| - 1];
        if |elements| > 0 && elements[last].etype == Comment {
          var merged := TrimComment(elements[last].raw + element.raw);
          elements := SetRawData(elements, last, merged);
          r := r.(raw := "", data := "", etype := Text);
        } else {
          r := r.(etype := Comment);
        }
      } else {
        r := r.(etype := Comment);
        if |elements| > 0 && elements[last].etype == Comment {
          var merged := elements[last].raw + element.raw + [tagSep];
          elements := SetRawData(elements, last, merged);
          r := r.(raw := "", data := "", etype := Text);
        } else {
          r := r.(raw := element.raw + [tagSep], data := element.raw + [tagSep]);
        }
      }
    }

    /** The processing of a slice that is still a tag (lib/Parser.js:285-325). */
    method ProcessTag(element: Element, elementName: string, tagSep: char) returns (r: Element)
      requires element.etype == Tag
      modifies this
      ensures (State(), r) == TagPass(old(State()), element, elementName, tagSep)
    {
      r := element;
      if StartsWith(r.raw, "!--") {
        r := r.(etype := Comment);
        if EndsWith(r.raw, "--") && tagSep == '>' {
          var trimmed := TrimComment(r.raw);
          r := r.(raw := trimmed, data := trimmed);
        } else {
          r := r.(raw := r.raw + [tagSep]);
          tagStack := tagStack + [Comment];
        }
      } else {
        r := r.(name := Some(elementName));
        if StartsWith(r.raw, "!") || StartsWith(r.raw, "?") {
          r := r.(etype := Directive);
        } else if StartsWith(elementName, "/") {
          r := r.(data := elementName);
          if elementName == "/script" {
            r := r.(etype := Script);
          } else if elementName == "/style" {
            r := r.(etype := Style);
          }
        } else if elementName == "script" {
          r := r.(etype := Script);
          if !EndsWith(r.data, "/") {
            tagStack := tagStack + [Script];
          }
        } else if elementName == "style" {
          r := r.(etype := Style);
          if !EndsWith(r.data, "/") {
            tagStack := tagStack + [Style];
          }
        }
      }
    }

    /**
     * The end of the loop body (lib/Parser.js:327-349): the element gets its
     * location and attributes and is queued, followed by its close when it
     * is self-closing.
     */
    method QueueElement(element: Element)
      requires current <= |buffer|
      requires element.raw != "" || element.etype != Text
      modifies this
      ensures State() == Push(old(State()), element, includeLocation)
    {
      var e := element;
      if includeLocation && e.location.None? {
        var loc := GetLocation(e.etype == Tag);
        e := e.(location := Some(loc));
      }
      e := ParseAttribs(e);
      elements := elements + [e];
      if e.etype != Text && e.etype != Comment && e.etype != Directive && EndsWith(e.data, "/") {
        var closing := "/" + e.name.GetOr("undefined");
        elements := elements + [Element(closing, closing, e.etype, Some(closing), None, None)];
      }
    }

    /** `getLocation` (lib/Parser.js:368-387). */
    method GetLocation(startTag: bool) returns (loc: Location)
      requires current <= |buffer|
      modifies this
      ensures (State(), loc) == Locate(old(State()), startTag)
    {
      var end: int := current;
      var chunk := startTag && location.charOffset == 0 && end == 0;
      if startTag {
        end := end - 1;
      }
      while location.charOffset < end
        invariant end <= |buffer|
        invariant State() == old(State()).(location := location)
        invariant Advance(buffer, location, end) == Advance(buffer, old(location), end)
        decreases end - location.charOffset
      {
        var c := buffer[location.charOffset];
        if c == '\n' {
          location := location.(inBuffer := location.inBuffer + 1, col := 0);
        } else if c != '\r' {
          location := location.(col := location.col + CharUnits(c));
        }
        location := location.(charOffset := location.charOffset + 1);
      }
      loc := Location(location.row + location.inBuffer + 1, location.col + if chunk then 0 else 1);
    }

    /** `writeHandler` (lib/Parser.js:406-424): the queue is shifted out to the handler. */
    method WriteHandler(forceFlush: bool)
      modifies this
      ensures State() == AfterWriteHandler(old(State()), forceFlush)
    {
      if |tagStack| > 0 && !forceFlush {
        return;
      }
      ghost var queue := elements;
      ghost var sent := 0;
      while |elements| > 0
        invariant sent <= |queue| && elements == queue[sent..]
        invariant calls == old(calls) + Dispatch(queue[..sent])
        invariant buffer == old(buffer) && current == old(current) && tagStack == old(tagStack)
        invariant parseState == old(parseState) && prevTagSep == old(prevTagSep)
        invariant location == old(location) && done == old(done)
        decreases |elements|
      {
        var element := elements[0];
        elements := elements[1..];
        var call;
        match element.etype {
          case Comment => call := WriteComment(element);
          case Directive => call := WriteDirective(element);
          case Text => call := WriteText(element);
          case _ => call := WriteTag(element);
        }
        assert call == CallFor(element);
        calls := calls + [call];
        DispatchAppend(queue[..sent], [element]);
        assert queue[..sent + 1] == queue[..sent] + [element];
        sent := sent + 1;
      }
      assert queue[..sent] == queue;
    }
  }
}
