/**
 * The entry points of node-htmlparser.js: `ParseTagAttribs`, which adds the
 * attributes of the elements the scanner produced, and the `Parser` object,
 * whose `ParseComplete` runs the scanner, the attribute pass and `NestTags`
 * in turn.
 *
 * `ParseComplete` here uses the corrected scanner and void test (`repaired`),
 * so it never fails and treats only the fourteen listed names as void.
 */
module LegacyParser {
  import opened Markup
  import opened Forest
  import Attributes
  import LegacyScanner
  import opened LegacyNest

  /**
   * The element types `ParseTagAttribs` annotates: tags and scripts. Its third
   * test compares against `ElementType.style`, which is undefined, so style
   * elements are never annotated (node-htmlparser.js:163-167).
   */
  predicate GetsAttribs(e: Element) {
    e.etype == Tag || e.etype == Script
  }

  /** An element after the attribute pass. */
  function WithAttribs(e: Element): Element {
    if GetsAttribs(e) then e.(attribs := Attributes.AttribsAfter(e)) else e
  }

  /**
   * The elements after the attribute pass: the same elements in the same
   * order, each changed in `attribs` at most. Tags and scripts get what the
   * attribute loop assigns; every other element is left as it was.
   */
  function Annotated(es: seq<Element>): (r: seq<Element>)
    ensures |r| == |es|
    ensures forall i :: 0 <= i < |es| ==> r[i] == es[i].(attribs := r[i].attribs)
    ensures forall i :: 0 <= i < |es| && !GetsAttribs(es[i]) ==> r[i] == es[i]
    ensures forall i :: 0 <= i < |es| && GetsAttribs(es[i]) ==> r[i].attribs == Attributes.AttribsAfter(es[i])
  {
    seq(|es|, i requires 0 <= i < |es| => WithAttribs(es[i]))
  }

  /**
   * `ParseTagAttribs` (node-htmlparser.js:158-173): `ParseAttribs` on each tag
   * and script. The source changes the element objects in place and returns
   * the same array; here the array is a sequence that is updated slot by slot.
   */
  method ParseTagAttribs(elements: seq<Element>) returns (r: seq<Element>)
    ensures r == Annotated(elements)
  {
    r := elements;
    var idx := 0;
    while idx < |elements|
      invariant idx <= |elements| && |r| == |elements|
      invariant forall i :: 0 <= i < idx ==> r[i] == WithAttribs(elements[i])
      invariant forall i :: idx <= i < |elements| ==> r[i] == elements[i]
    {
      var element := elements[idx];
      idx := idx + 1;
      if element.etype == Tag || element.etype == Script {
        var annotated := Attributes.AddAttribs(element);
        r := r[idx - 1 := annotated];
      }
    }
  }

  /**
   * The attribute pass keeps what `NestTags` reads: every element keeps its
   * name, so the elements stay named and the closing ones stay closing.
   */
  lemma AnnotatedKeeps(es: seq<Element>)
    ensures AllNamed(es) ==> AllNamed(Annotated(es))
    ensures forall i :: 0 <= i < |es| ==> (IsClose(Annotated(es)[i]) <==> IsClose(es[i]))
  {
  }

  /**
   * On a tag or script whose data is a name followed by rendered attributes,
   * the pass leaves `attribs` as it was when there are none, and otherwise
   * stores every attribute, later duplicates overwriting earlier ones; a
   * style element with the same data keeps the `attribs` it had.
   */
  lemma AnnotatedRendered(e: Element, tagName: string, attrs: seq<Attributes.Source>)
    requires forall i :: 0 <= i < |attrs| ==> Attributes.WellFormed(attrs[i])
    requires NoSpace(tagName) && e.data == tagName + Attributes.Render(attrs)
    ensures GetsAttribs(e) ==>
      WithAttribs(e).attribs ==
        if attrs == [] then e.attribs
        else Some(Attributes.Assign(e.attribs.GetOr(map[]), Attributes.ParsedAll(attrs)))
    ensures e.etype == Style ==> WithAttribs(e).attribs == e.attribs
  {
    Attributes.AttribsOfRendered(e, tagName, attrs);
  }

  /** What `ParseComplete` returns and stores in `dom`, with the corrected scanner and void test. */
  function LegacyParse(data: string): seq<Tree<Element>> {
    LegacyScanner.RepairedParseTagsTotal(data);
    LegacyScanner.ParseTagsQueued(data, true);
    var es := LegacyScanner.LegacyParseTags(data, true).value;
    AnnotatedKeeps(es);
    Nested(Annotated(es), true)
  }

  /**
   * The forest `ParseComplete` builds holds, in document order, every element
   * the scanner produced except the closing ones; no element whose name
   * starts with "/" is in it, and every void element is a leaf.
   */
  lemma LegacyParseShape(data: string)
    ensures LegacyScanner.LegacyParseTags(data, true).Some?
    ensures Preorder(LegacyParse(data)) == Kept(Annotated(LegacyScanner.LegacyParseTags(data, true).value))
    ensures forall i :: 0 <= i < |Preorder(LegacyParse(data))| ==> !IsClose(Preorder(LegacyParse(data))[i])
    ensures VoidLeaves(LegacyParse(data), true)
  {
    LegacyScanner.RepairedParseTagsTotal(data);
    LegacyScanner.ParseTagsQueued(data, true);
    var es := Annotated(LegacyScanner.LegacyParseTags(data, true).value);
    AnnotatedKeeps(LegacyScanner.LegacyParseTags(data, true).value);
    NestedOrder(es, true);
    NestedVoidLeaves(es, true);
  }

  /**
   * What `ParseComplete` builds with the scanner and void test as written:
   * `None` where `ParseTags` throws.
   */
  function LegacyParseAsWritten(data: string): Option<seq<Tree<Element>>> {
    match LegacyScanner.LegacyParseTags(data, false)
    case None => None
    case Some(es) =>
      LegacyScanner.ParseTagsQueued(data, false);
      AnnotatedKeeps(es);
      Some(Nested(Annotated(es), false))
  }

  /**
   * As written, `ParseComplete` throws exactly where the scan does; when it
   * returns, the forest has the same shape as with the corrections: every
   * non-closing element in document order, no closing element, and every void
   * element (by the prototype lookup) a leaf.
   */
  lemma LegacyParseShapeAsWritten(data: string)
    ensures LegacyParseAsWritten(data).None? <==> LegacyScanner.LegacyParseTags(data, false).None?
    ensures LegacyParseAsWritten(data).Some? ==>
      Preorder(LegacyParseAsWritten(data).value) == Kept(Annotated(LegacyScanner.LegacyParseTags(data, false).value))
    ensures LegacyParseAsWritten(data).Some? ==>
      forall i :: 0 <= i < |Preorder(LegacyParseAsWritten(data).value)| ==> !IsClose(Preorder(LegacyParseAsWritten(data).value)[i])
    ensures LegacyParseAsWritten(data).Some? ==> VoidLeaves(LegacyParseAsWritten(data).value, false)
  {
    var tags := LegacyScanner.LegacyParseTags(data, false);
    if tags.Some? {
      LegacyScanner.ParseTagsQueued(data, false);
      AnnotatedKeeps(tags.value);
      var es := Annotated(tags.value);
      NestedOrder(es, false);
      NestedVoidLeaves(es, false);
    }
  }

  /** The parser object of node-htmlparser.js (lines 413-453). */
  class Parser {
    var dom: seq<Tree<Element>>
    var buffer: string
    var done: bool

    /** `new Parser()`: the constructor resets. */
    constructor()
      ensures dom == [] && buffer == "" && !done
    {
      dom := [];
      buffer := "";
      done := false;
    }

    /** `Reset` (node-htmlparser.js:431-435). */
    method Reset()
      modifies this
      ensures dom == [] && buffer == "" && !done
    {
      dom := [];
      buffer := "";
      done := false;
    }

    /** `Done` (node-htmlparser.js:426-429): marks the parser done; leftover data is not consumed. */
    method Done()
      modifies this
      ensures done && dom == old(dom) && buffer == old(buffer)
    {
      done := true;
    }

    /**
     * `ParseChunk` (node-htmlparser.js:420-424) always throws; the result is
     * the message of the error, which depends on whether parsing is done.
     */
    method ParseChunk(data: string) returns (error: string)
      ensures error == if done then "Attempted to parse chunk after parsing already done" else "Not implemented"
    {
      if done {
        return "Attempted to parse chunk after parsing already done";
      }
      return "Not implemented";
    }

    /**
     * `ParseComplete` (node-htmlparser.js:413-418): reset, scan, add
     * attributes, nest, mark done; the forest is stored and returned.
     */
    method ParseComplete(data: string) returns (result: seq<Tree<Element>>)
      modifies this
      ensures result == dom == LegacyParse(data)
      ensures done && buffer == ""
    {
      Reset();
      var tags := LegacyScanner.ParseTags(data, true);
      LegacyScanner.RepairedParseTagsTotal(data);
      LegacyScanner.ParseTagsQueued(data, true);
      var elements := ParseTagAttribs(tags.value);
      AnnotatedKeeps(tags.value);
      dom := NestTags(elements, true);
      Done();
      result := dom;
    }
  }
}
