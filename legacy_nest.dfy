/**
 * `NestTags` of node-htmlparser.js (lines 63-130): the fold that turns the
 * flat list of elements the scanner produces into a forest.
 *
 * The source keeps a top-level list and a stack of the open elements; an
 * element becomes a child of the innermost open element by being pushed on
 * that element's `children` array, so the open elements are always linked
 * into the tree. Here the state is a `Forest.Zipper` whose frames are all
 * linked (`attached`), and the list the source returns is `Unwind` of it.
 *
 * Which names count as void is the lookup `emptyTags[name]` on a plain
 * JavaScript object, which also finds the members every object inherits
 * (`constructor`, `__proto__`, ...). `repaired` selects between that lookup
 * as written and the lookup of the fourteen listed names only.
 */
module LegacyNest {
  import opened Markup
  import opened Forest

  /** The own properties of `emptyTags` (node-htmlparser.js:35-50). */
  const EmptyTagNames: set<string> := {
    "area", "base", "basefont", "br", "col", "frame", "hr", "img",
    "input", "isindex", "link", "meta", "param", "embed"}

  /** The members a plain object inherits from `Object.prototype`; `emptyTags[name]` is truthy for each. */
  const ObjectPrototypeNames: set<string> := {
    "constructor", "__proto__", "hasOwnProperty", "isPrototypeOf",
    "propertyIsEnumerable", "toString", "toLocaleString", "valueOf",
    "__defineGetter__", "__defineSetter__", "__lookupGetter__", "__lookupSetter__"}

  /** `emptyTags[name]` is truthy: as written, or with only the listed names when `repaired`. */
  predicate IsVoid(name: string, repaired: bool) {
    name in EmptyTagNames || (!repaired && name in ObjectPrototypeNames)
  }

  /** Tag, script and style elements carry the name `NestTags` reads (`element.name[0]`). */
  predicate Named(e: Element) {
    IsContainerType(e.etype) ==> e.name.Some?
  }

  predicate AllNamed(es: seq<Element>) {
    forall i :: 0 <= i < |es| ==> Named(es[i])
  }

  /** A closing element: a tag, script or style whose name starts with "/". */
  predicate IsClose(e: Element) {
    IsContainerType(e.etype) && e.name.Some? && StartsWith(e.name.value, "/")
  }

  /** A tag, script or style element whose name is void: it never holds children. */
  predicate IsVoidElement(e: Element, repaired: bool) {
    IsContainerType(e.etype) && e.name.Some? && IsVoid(e.name.value, repaired)
  }

  /** The innermost open element named `name` (the search at node-htmlparser.js:106-115). */
  function FindOpen(stack: seq<Frame<Element>>, name: string): (r: Option<nat>)
    ensures r.Some? ==> r.value < |stack| && stack[r.value].item.name == Some(name)
    ensures r.Some? ==> forall i :: r.value < i < |stack| ==> stack[i].item.name != Some(name)
    ensures r.None? ==> forall i :: 0 <= i < |stack| ==> stack[i].item.name != Some(name)
    decreases |stack|
  {
    if stack == [] then None
    else if stack[|stack| - 1].item.name == Some(name) then Some(|stack| - 1)
    else FindOpen(stack[..|stack| - 1], name)
  }

  /**
   * One pass of the loop of `NestTags` (node-htmlparser.js:79-127). With no
   * open element, a closing element is dropped; otherwise a closing element
   * whose base name is not void closes the innermost open element of that
   * name together with everything opened after it, and does nothing when
   * none is open. Text, comments and directives, and void elements, become
   * the last child of the innermost open element (or a top-level node); any
   * other opening element does too and is then the innermost open element.
   */
  function NestStep(z: Zipper<Element>, e: Element, repaired: bool): Zipper<Element>
    requires Named(e)
  {
    if !IsContainerType(e.etype) then Add(z, Node(e, []))
    else if z.stack == [] then
      if StartsWith(e.name.value, "/") then z
      else if IsVoid(e.name.value, repaired) then Add(z, Node(e, []))
      else Push(z, e, true)
    else if StartsWith(e.name.value, "/") then
      var baseName := e.name.value[1..];
      if IsVoid(baseName, repaired) then z
      else
        match FindOpen(z.stack, baseName)
        case None => z
        case Some(m) => PopTo(z, m)
    else if IsVoid(e.name.value, repaired) then Add(z, Node(e, []))
    else Push(z, e, true)
  }

  /** The state after the loop has taken every element of `es`. */
  function NestFold(es: seq<Element>, repaired: bool): Zipper<Element>
    requires AllNamed(es)
    decreases |es|
  {
    if es == [] then Empty()
    else NestStep(NestFold(es[..|es| - 1], repaired), es[|es| - 1], repaired)
  }

  /** What `NestTags` returns: the top-level list, open elements included. */
  function Nested(es: seq<Element>, repaired: bool): seq<Tree<Element>>
    requires AllNamed(es)
  {
    Unwind(NestFold(es, repaired))
  }

  /**
   * The loop of `NestTags` (node-htmlparser.js:63-130), with the search for
   * the open element a closing element matches and the pops that follow it.
   * The zipper `z` stands for the source's `nested` list and `tagStack`
   * together.
   */
  method NestTags(elements: seq<Element>, repaired: bool) returns (nested: seq<Tree<Element>>)
    requires AllNamed(elements)
    ensures nested == Nested(elements, repaired)
  {
    var z: Zipper<Element> := Empty();
    var idx := 0;
    while idx < |elements|
      invariant idx <= |elements|
      invariant z == NestFold(elements[..idx], repaired)
    {
      var element := elements[idx];
      assert elements[..idx + 1][..idx] == elements[..idx];
      idx := idx + 1;
      if !IsContainerType(element.etype) {
        z := Add(z, Node(element, []));
      } else if z.stack == [] {
        if !StartsWith(element.name.value, "/") {
          if IsVoid(element.name.value, repaired) {
            z := Add(z, Node(element, []));
          } else {
            z := Push(z, element, true);
          }
        }
      } else if StartsWith(element.name.value, "/") {
        var baseName := element.name.value[1..];
        if !IsVoid(baseName, repaired) {
          z := CloseTo(z, baseName);
        }
      } else if IsVoid(element.name.value, repaired) {
        z := Add(z, Node(element, []));
      } else {
        z := Push(z, element, true);
      }
    }
    assert elements[..idx] == elements;
    nested := Unwind(z);
  }

  /**
   * A closing element for `baseName` with elements open
   * (node-htmlparser.js:106-115): `pos` walks down the stack, decremented
   * after each comparison; the stack is popped above `pos` when the walk
   * stopped at a match, or when the bottom element matches.
   */
  method CloseTo(z: Zipper<Element>, baseName: string) returns (r: Zipper<Element>)
    requires z.stack != []
    ensures r == match FindOpen(z.stack, baseName) case None => z case Some(m) => PopTo(z, m)
  {
    var pos: int := |z.stack| - 1;
    while pos > -1
      invariant -1 <= pos < |z.stack|
      invariant forall i :: pos < i < |z.stack| ==> z.stack[i].item.name != Some(baseName)
    {
      var examined := pos;
      pos := pos - 1;
      if z.stack[examined].item.name == Some(baseName) {
        break;
      }
    }
    r := z;
    if pos > -1 || z.stack[0].item.name == Some(baseName) {
      MatchAt(z.stack, baseName, pos + 1);
      while pos < |r.stack| - 1
        invariant pos + 1 <= |r.stack|
        invariant PopTo(r, pos + 1) == PopTo(z, pos + 1)
        decreases |r.stack|
      {
        r := Pop(r);
      }
    } else {
      NoMatch(z.stack, baseName);
    }
  }

  lemma MatchAt(stack: seq<Frame<Element>>, name: string, m: nat)
    requires m < |stack| && stack[m].item.name == Some(name)
    requires forall i :: m < i < |stack| ==> stack[i].item.name != Some(name)
    ensures FindOpen(stack, name) == Some(m)
  {
  }

  lemma NoMatch(stack: seq<Frame<Element>>, name: string)
    requires forall i :: 0 <= i < |stack| ==> stack[i].item.name != Some(name)
    ensures FindOpen(stack, name) == None
  {
  }

  // ---------------------------------------------------------------------
  // Properties

  /** The elements of `es` that are not closing elements, in order. */
  function Kept(es: seq<Element>): (r: seq<Element>)
    ensures |r| <= |es|
    ensures forall i :: 0 <= i < |r| ==> !IsClose(r[i])
    decreases |es|
  {
    if es == [] then []
    else Kept(es[..|es| - 1]) + (if IsClose(es[|es| - 1]) then [] else [es[|es| - 1]])
  }

  /**
   * A closing element never changes the forest. With nothing open, or with a
   * void base name, or with no open element of its base name, it changes
   * nothing at all; otherwise the innermost open element of that name and
   * everything opened after it are closed, and the elements below stay open
   * as they were.
   */
  lemma CloseStep(z: Zipper<Element>, e: Element, repaired: bool)
    requires IsClose(e)
    ensures Unwind(NestStep(z, e, repaired)) == Unwind(z)
    ensures z.stack == [] || IsVoid(e.name.value[1..], repaired) || FindOpen(z.stack, e.name.value[1..]).None?
      ==> NestStep(z, e, repaired) == z
    ensures z.stack != [] && !IsVoid(e.name.value[1..], repaired) && FindOpen(z.stack, e.name.value[1..]).Some? ==>
      var r := NestStep(z, e, repaired);
      && |r.stack| == FindOpen(z.stack, e.name.value[1..]).value
      && forall i :: 0 <= i < |r.stack| ==> r.stack[i].item == z.stack[i].item && r.stack[i].attached == z.stack[i].attached
  {
    var baseName := e.name.value[1..];
    if z.stack != [] && !IsVoid(baseName, repaired) && FindOpen(z.stack, baseName).Some? {
      var m := FindOpen(z.stack, baseName).value;
      UnwindPopTo(z, m);
      PopToKeepsFrames(z, m);
    }
  }

  /** Text, comments, directives and void elements become the last child of the innermost open element, or a top-level node. */
  lemma LeafStep(z: Zipper<Element>, e: Element, repaired: bool)
    requires Named(e) && !IsClose(e)
    requires !IsContainerType(e.etype) || IsVoid(e.name.value, repaired)
    ensures z.stack == [] ==> NestStep(z, e, repaired) == Zipper(z.roots + [Node(e, [])], [])
    ensures z.stack != [] ==> var r := NestStep(z, e, repaired);
      && r.roots == z.roots && |r.stack| == |z.stack|
      && r.stack[..|z.stack| - 1] == z.stack[..|z.stack| - 1]
      && Top(r) == Top(z).(kids := Top(z).kids + [Node(e, [])])
  {
  }

  /** Any other opening element becomes the innermost open element, linked into the tree. */
  lemma OpenStep(z: Zipper<Element>, e: Element, repaired: bool)
    requires Named(e) && !IsClose(e)
    requires IsContainerType(e.etype) && !IsVoid(e.name.value, repaired)
    ensures NestStep(z, e, repaired) == Zipper(z.roots, z.stack + [Frame(e, [], true)])
  {
  }

  lemma LeafOrder(z: Zipper<Element>, e: Element)
    requires AllAttached(z)
    ensures AllAttached(Add(z, Node(e, [])))
    ensures Preorder(Unwind(Add(z, Node(e, [])))) == Preorder(Unwind(z)) + [e]
  {
    AddAttached(z, Node(e, []));
    PreorderAdd(z, Node(e, []));
    PreorderOne(Node(e, []));
  }

  lemma CloseAttached(z: Zipper<Element>, e: Element, repaired: bool)
    requires AllAttached(z) && IsClose(e)
    ensures AllAttached(NestStep(z, e, repaired))
  {
    CloseStep(z, e, repaired);
  }

  /** One element puts itself at the end of the document order, unless it is a closing element. */
  lemma StepOrder(z: Zipper<Element>, e: Element, repaired: bool)
    requires AllAttached(z) && Named(e)
    ensures AllAttached(NestStep(z, e, repaired))
    ensures Preorder(Unwind(NestStep(z, e, repaired))) == Preorder(Unwind(z)) + (if IsClose(e) then [] else [e])
  {
    if IsClose(e) {
      CloseStep(z, e, repaired);
      CloseAttached(z, e, repaired);
    } else if IsContainerType(e.etype) && !IsVoid(e.name.value, repaired) {
      OpenStep(z, e, repaired);
      PreorderPush(z, e);
    } else {
      LeafStep(z, e, repaired);
      LeafOrder(z, e);
    }
  }

  /**
   * Document order: the forest `NestTags` builds holds every element of its
   * input except the closing ones, each once and in input order, so no
   * element whose name starts with "/" ever appears in it.
   */
  lemma {:induction false} NestedOrder(es: seq<Element>, repaired: bool)
    requires AllNamed(es)
    ensures AllAttached(NestFold(es, repaired))
    ensures Preorder(Nested(es, repaired)) == Kept(es)
    decreases |es|
  {
    if es != [] {
      var init := es[..|es| - 1];
      NestedOrder(init, repaired);
      StepOrder(NestFold(init, repaired), es[|es| - 1], repaired);
    }
  }

  /** Every void element of a forest is a leaf. */
  predicate VoidLeaves(ts: seq<Tree<Element>>, repaired: bool)
    decreases ts
  {
    forall i :: 0 <= i < |ts| ==>
      (IsVoidElement(ts[i].item, repaired) ==> ts[i].kids == []) && VoidLeaves(ts[i].kids, repaired)
  }

  /** No void element is open, and every void element placed so far is a leaf. */
  predicate OpenNonVoid(z: Zipper<Element>, repaired: bool) {
    && VoidLeaves(z.roots, repaired)
    && forall i :: 0 <= i < |z.stack| ==>
         !IsVoidElement(z.stack[i].item, repaired) && VoidLeaves(z.stack[i].kids, repaired)
  }

  lemma VoidLeavesConcat(a: seq<Tree<Element>>, b: seq<Tree<Element>>, repaired: bool)
    requires VoidLeaves(a, repaired) && VoidLeaves(b, repaired)
    ensures VoidLeaves(a + b, repaired)
  {
    forall i | 0 <= i < |a + b|
      ensures (IsVoidElement((a + b)[i].item, repaired) ==> (a + b)[i].kids == []) && VoidLeaves((a + b)[i].kids, repaired)
    {
      if i < |a| {
        assert (a + b)[i] == a[i];
      } else {
        assert (a + b)[i] == b[i - |a|];
      }
    }
  }

  lemma AddNonVoid(z: Zipper<Element>, t: Tree<Element>, repaired: bool)
    requires OpenNonVoid(z, repaired) && VoidLeaves([t], repaired)
    ensures OpenNonVoid(Add(z, t), repaired)
  {
    var r := Add(z, t);
    if z.stack == [] {
      VoidLeavesConcat(z.roots, [t], repaired);
    } else {
      var n := |z.stack| - 1;
      VoidLeavesConcat(Top(z).kids, [t], repaired);
      forall i | 0 <= i < |r.stack|
        ensures !IsVoidElement(r.stack[i].item, repaired) && VoidLeaves(r.stack[i].kids, repaired)
      {
        if i < n {
          assert r.stack[i] == r.stack[..n][i];
        }
      }
    }
  }

  lemma PopNonVoid(z: Zipper<Element>, repaired: bool)
    requires OpenNonVoid(z, repaired) && z.stack != []
    ensures OpenNonVoid(Pop(z), repaired)
  {
    var n := |z.stack| - 1;
    var below := Zipper(z.roots, z.stack[..n]);
    assert OpenNonVoid(below, repaired) by {
      forall i | 0 <= i < n
        ensures !IsVoidElement(below.stack[i].item, repaired) && VoidLeaves(below.stack[i].kids, repaired)
      {
        assert below.stack[i] == z.stack[i];
      }
    }
    if z.stack[n].attached {
      assert [Closed(z.stack[n])][0] == Closed(z.stack[n]);
      AddNonVoid(below, Closed(z.stack[n]), repaired);
    }
  }

  lemma {:induction false} PopToNonVoid(z: Zipper<Element>, m: nat, repaired: bool)
    requires OpenNonVoid(z, repaired)
    ensures OpenNonVoid(PopTo(z, m), repaired)
    decreases |z.stack|
  {
    if |z.stack| > m {
      PopNonVoid(z, repaired);
      PopToNonVoid(Pop(z), m, repaired);
    }
  }

  /** Closing every open element keeps void elements leaves. */
  lemma {:induction false} UnwindNonVoid(z: Zipper<Element>, repaired: bool)
    requires OpenNonVoid(z, repaired)
    ensures VoidLeaves(Unwind(z), repaired)
    decreases |z.stack|
  {
    if z.stack != [] {
      PopNonVoid(z, repaired);
      UnwindNonVoid(Pop(z), repaired);
    }
  }

  lemma StepNonVoid(z: Zipper<Element>, e: Element, repaired: bool)
    requires OpenNonVoid(z, repaired) && Named(e)
    ensures OpenNonVoid(NestStep(z, e, repaired), repaired)
  {
    if IsClose(e) {
      var baseName := e.name.value[1..];
      if z.stack != [] && !IsVoid(baseName, repaired) && FindOpen(z.stack, baseName).Some? {
        PopToNonVoid(z, FindOpen(z.stack, baseName).value, repaired);
      }
    } else if IsContainerType(e.etype) && !IsVoid(e.name.value, repaired) {
      var r := NestStep(z, e, repaired);
      OpenStep(z, e, repaired);
      assert forall i :: 0 <= i < |z.stack| ==> r.stack[i] == z.stack[i];
    } else {
      LeafStep(z, e, repaired);
      assert [Node(e, [])][0] == Node(e, []);
      AddNonVoid(z, Node(e, []), repaired);
    }
  }

  lemma {:induction false} FoldNonVoid(es: seq<Element>, repaired: bool)
    requires AllNamed(es)
    ensures OpenNonVoid(NestFold(es, repaired), repaired)
    decreases |es|
  {
    if es != [] {
      FoldNonVoid(es[..|es| - 1], repaired);
      StepNonVoid(NestFold(es[..|es| - 1], repaired), es[|es| - 1], repaired);
    }
  }

  /** Void elements are placed in the tree but never hold children (node-htmlparser.js:90-93, 121-123). */
  lemma NestedVoidLeaves(es: seq<Element>, repaired: bool)
    requires AllNamed(es)
    ensures VoidLeaves(Nested(es, repaired), repaired)
  {
    FoldNonVoid(es, repaired);
    UnwindNonVoid(NestFold(es, repaired), repaired);
  }

  // ---------------------------------------------------------------------
  // `emptyTags` and the names every object inherits

  /** The elements the scanner makes of `<constructor>x</constructor>`. */
  const CtorOpen := Element("constructor", "constructor", Tag, Some("constructor"), None, None)
  const CtorText := Element("x", "x", Text, None, None, None)
  const CtorClose := Element("/constructor", "/constructor", Tag, Some("/constructor"), None, None)

  lemma CtorPrefixes()
    ensures [CtorOpen, CtorText, CtorClose][..2] == [CtorOpen, CtorText]
    ensures [CtorOpen, CtorText][..1] == [CtorOpen]
    ensures [CtorOpen][..0] == []
    ensures "/constructor"[1..] == "constructor" && StartsWith("/constructor", "/")
    ensures !StartsWith("constructor", "/")
  {
    assert "constructor"[..1] == ['c'];
  }

  lemma CtorVoid()
    ensures IsVoid("constructor", false) && !IsVoid("constructor", true)
  {
    assert "constructor" in ObjectPrototypeNames;
    assert forall n :: n in EmptyTagNames ==> |n| <= 8;
  }

  /**
   * As written, `constructor` is looked up on `emptyTags`, found on the
   * prototype and taken as void: the element is left empty, the text after
   * it becomes its sibling, and the closing element is ignored.
   */
  lemma ConstructorAsWritten()
    ensures Nested([CtorOpen, CtorText, CtorClose], false) == [Node(CtorOpen, []), Node(CtorText, [])]
  {
    CtorPrefixes();
    CtorVoid();
    assert NestFold([], false) == Empty();
    var z1 := NestFold([CtorOpen], false);
    assert z1 == NestStep(NestFold([CtorOpen][..0], false), CtorOpen, false);
    assert z1 == Zipper([Node(CtorOpen, [])], []);
    var z2 := NestFold([CtorOpen, CtorText], false);
    assert z2 == Zipper([Node(CtorOpen, []), Node(CtorText, [])], []);
    assert NestFold([CtorOpen, CtorText, CtorClose], false) == z2;
  }

  /** With only the listed names void, `constructor` holds the text and is closed by its closing element. */
  lemma ConstructorRepaired()
    ensures Nested([CtorOpen, CtorText, CtorClose], true) == [Node(CtorOpen, [Node(CtorText, [])])]
  {
    CtorPrefixes();
    CtorVoid();
    assert NestFold([], true) == Empty();
    var z1 := NestFold([CtorOpen], true);
    assert z1 == NestStep(NestFold([CtorOpen][..0], true), CtorOpen, true);
    assert z1 == Zipper([], [Frame(CtorOpen, [], true)]);
    var z2 := NestFold([CtorOpen, CtorText], true);
    assert z2 == Add(z1, Node(CtorText, []));
    assert z1.stack[..0] == [] && z1.stack[0].kids + [Node(CtorText, [])] == [Node(CtorText, [])];
    assert z2 == Zipper([], [Frame(CtorOpen, [Node(CtorText, [])], true)]);
    assert FindOpen(z2.stack, "constructor") == Some(0);
    var z3 := NestFold([CtorOpen, CtorText, CtorClose], true);
    assert z3 == PopTo(z2, 0);
    assert PopTo(z2, 0) == Pop(z2) == Add(Zipper([], []), Node(CtorOpen, [Node(CtorText, [])]));
    assert z3 == Zipper([Node(CtorOpen, [Node(CtorText, [])])], []);
  }
}
