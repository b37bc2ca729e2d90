/**
 * The DOM builder of lib/DefaultHandler.js: an event handler that grows a
 * forest of nodes from `onopentag`, `onclosetag`, `ontext`, `oncomment` and
 * `onprocessinginstruction`, merges adjacent text (inside script and style
 * only) and adjacent comments, and reports the forest once through its
 * callback.
 *
 * The forest and the stack of open nodes are a `Forest.Zipper`; the `dom`
 * array the source exposes is `Unwind` of it. The pure functions below say
 * what each event does to that state; the class `DefaultHandler` performs the
 * same steps on its fields.
 */
module DomBuilder {
  import opened Markup
  import opened Forest

  /**
   * A JavaScript value stored in a node's `data`: a string, `undefined`
   * (the property is absent), or `NaN` (what `undefined + undefined` gives).
   */
  datatype JsData = Undefined | Str(s: string) | NotANumber

  function ToText(v: JsData): string {
    match v
    case Undefined => "undefined"
    case Str(s) => s
    case NotANumber => "NaN"
  }

  /** JavaScript `a + b` on two data values (`lastChild.data += element.data`). */
  function Plus(a: JsData, b: JsData): (r: JsData)
    ensures a.Str? && b.Str? ==> r == Str(a.s + b.s)
    ensures (a.Str? || b.Str?) <==> r.Str?
  {
    if a.Str? || b.Str? then Str(ToText(a) + ToText(b)) else NotANumber
  }

  /** A node: its `type`, `name`, `data` and `attribs` properties; `children` are the tree's kids. */
  datatype NodeData = NodeData(
    ntype: ElementType,
    name: Option<string>,
    data: JsData,
    attribs: Option<map<string, string>>)

  datatype Options = Options(ignoreWhitespace: bool)

  /** The default options (lib/DefaultHandler.js:13-15). */
  const DefaultOptions := Options(false)

  type Dom = Zipper<NodeData>

  function TextNode(data: string): NodeData {
    NodeData(Text, None, Str(data), None)
  }

  function CommentNode(data: string): NodeData {
    NodeData(Comment, None, Str(data), None)
  }

  function TagNode(name: string, attribs: Option<map<string, string>>, t: ElementType): NodeData {
    NodeData(t, Some(name), Undefined, attribs)
  }

  function DirectiveNode(name: string, data: string): NodeData {
    NodeData(Directive, Some(name), Str(data), None)
  }

  /** The last child of the innermost open node, when there is one. */
  function LastChild(z: Dom): Option<NodeData> {
    if z.stack == [] || Top(z).kids == [] then None
    else Some(Top(z).kids[|Top(z).kids| - 1].item)
  }

  /** Replaces the item of the last child of the innermost open node. */
  function SetLastChild(z: Dom, n: NodeData): (r: Dom)
    requires LastChild(z).Some?
    ensures r.roots == z.roots && |r.stack| == |z.stack|
    ensures r.stack[..|z.stack| - 1] == z.stack[..|z.stack| - 1]
    ensures Top(r).item == Top(z).item && Top(r).attached == Top(z).attached
    ensures |Top(r).kids| == |Top(z).kids| && LastChild(r) == Some(n)
    ensures Top(r).kids[..|Top(z).kids| - 1] == Top(z).kids[..|Top(z).kids| - 1]
  {
    var top := Top(z);
    var k := |top.kids| - 1;
    var kid := top.kids[k];
    var top' := top.(kids := top.kids[..k] + [kid.(item := n)]);
    z.(stack := z.stack[..|z.stack| - 1] + [top'])
  }

  /** `_addDomElement` concatenates text into the previous text child only inside script or style. */
  predicate MergesText(z: Dom, inSpecialTag: bool, n: NodeData) {
    && inSpecialTag
    && n.ntype == Text
    && LastChild(z).Some?
    && LastChild(z).value.ntype == Text
  }

  /**
   * `_addDomElement` (lib/DefaultHandler.js:41-64): the node becomes the last
   * child of the innermost open node (or a new top-level node), except that
   * text after text inside script or style is appended to the previous node's data.
   */
  function AfterAddDomElement(z: Dom, inSpecialTag: bool, n: NodeData): Dom {
    if MergesText(z, inSpecialTag, n) then
      var last := LastChild(z).value;
      SetLastChild(z, last.(data := Plus(last.data, n.data)))
    else Add(z, Node(n, []))
  }

  /** The builder's state apart from its options, callback and `_done` flag. */
  datatype Builder = Builder(dom: Dom, inSpecialTag: bool)

  const Fresh := Builder(Empty(), false)

  /**
   * `onopentag` (lib/DefaultHandler.js:66-77): script and style set the
   * special flag, the node is added as `_addDomElement` adds it and then
   * becomes the innermost open node. When `_addDomElement` merged it away
   * it is open without being linked into the tree.
   */
  function AfterOpenTag(b: Builder, name: string, attribs: Option<map<string, string>>, t: ElementType): Builder {
    var special := b.inSpecialTag || t == Script || t == Style;
    var n := TagNode(name, attribs, t);
    if MergesText(b.dom, special, n) then
      Builder(Push(AfterAddDomElement(b.dom, special, n), n, false), special)
    else
      Builder(Push(b.dom, n, true), special)
  }

  /** `onclosetag` (lib/DefaultHandler.js:37-39): closes the innermost open node, whatever its name. */
  function AfterCloseTag(b: Builder): Builder {
    b.(dom := Pop(b.dom))
  }

  /** `ontext` (lib/DefaultHandler.js:79-85). */
  function AfterText(b: Builder, opts: Options, data: string): Builder {
    if opts.ignoreWhitespace && Trim(data) == "" then b
    else b.(dom := AfterAddDomElement(b.dom, b.inSpecialTag, TextNode(data)))
  }

  /** `oncomment` (lib/DefaultHandler.js:87-112): appended to a previous comment child, otherwise a new node. */
  function AfterComment(b: Builder, data: string): Builder {
    match LastChild(b.dom)
    case Some(last) =>
      if last.ntype == Comment then b.(dom := SetLastChild(b.dom, last.(data := Plus(last.data, Str(data)))))
      else b.(dom := Add(b.dom, Node(CommentNode(data), [])))
    case None => b.(dom := Add(b.dom, Node(CommentNode(data), [])))
  }

  /** `onprocessinginstruction` (lib/DefaultHandler.js:114-120). */
  function AfterProcessingInstruction(b: Builder, name: string, data: string): Builder {
    b.(dom := AfterAddDomElement(b.dom, b.inSpecialTag, DirectiveNode(name, data)))
  }

  // ---------------------------------------------------------------------
  // Properties

  /** Number of nodes in a forest. */
  function Size(ts: seq<Tree<NodeData>>): nat {
    |Preorder(ts)|
  }

  /**
   * An open tag shows up in the forest exactly where `_addDomElement` put it,
   * it is the innermost open node, and the special flag is set by script and
   * style and never cleared.
   */
  lemma OpenTagAdds(b: Builder, name: string, attribs: Option<map<string, string>>, t: ElementType)
    ensures var b' := AfterOpenTag(b, name, attribs, t);
      && var special := b.inSpecialTag || t == Script || t == Style;
      && b'.inSpecialTag == special
      && Unwind(b'.dom) == Unwind(AfterAddDomElement(b.dom, special, TagNode(name, attribs, t)))
      && |b'.dom.stack| == |b.dom.stack| + 1
      && Top(b'.dom).item == TagNode(name, attribs, t) && Top(b'.dom).kids == []
  {
  }

  /**
   * While every open node is linked in, an added node that is not merged
   * comes last in document order, and a merged one changes the node count
   * not at all.
   */
  lemma AddDomElementOrder(z: Dom, inSpecialTag: bool, n: NodeData)
    requires AllAttached(z)
    ensures !MergesText(z, inSpecialTag, n) ==>
      Preorder(Unwind(AfterAddDomElement(z, inSpecialTag, n))) == Preorder(Unwind(z)) + [n]
    ensures MergesText(z, inSpecialTag, n) ==>
      Size(Unwind(AfterAddDomElement(z, inSpecialTag, n))) == Size(Unwind(z))
    ensures AllAttached(AfterAddDomElement(z, inSpecialTag, n))
  {
    if MergesText(z, inSpecialTag, n) {
      var r := AfterAddDomElement(z, inSpecialTag, n);
      SetLastChildSize(z, r);
      assert AllAttached(r) by {
        forall i | 0 <= i < |r.stack|
          ensures r.stack[i].attached
        {
          assert i < |z.stack| - 1 ==> r.stack[i] == z.stack[i];
        }
      }
    } else {
      PreorderAdd(z, Node(n, []));
      PreorderOne(Node(n, []));
      var r := AfterAddDomElement(z, inSpecialTag, n);
      assert AllAttached(r) by {
        forall i | 0 <= i < |r.stack|
          ensures r.stack[i].attached
        {
          assert i < |z.stack| - 1 ==> r.stack[i] == z.stack[i];
        }
      }
    }
  }

  lemma PreorderItemSize(ts: seq<Tree<NodeData>>, k: nat, n: NodeData)
    requires k < |ts|
    ensures |Preorder(ts[..k] + [ts[k].(item := n)])| == |Preorder(ts[..k + 1])|
  {
    PreorderConcat(ts[..k], [ts[k].(item := n)]);
    assert ts[..k + 1] == ts[..k] + [ts[k]];
    PreorderConcat(ts[..k], [ts[k]]);
    PreorderOne(ts[k]);
    PreorderOne(ts[k].(item := n));
  }

  lemma SetLastChildSize(z: Dom, r: Dom)
    requires AllAttached(z) && LastChild(z).Some?
    requires exists n :: r == SetLastChild(z, n)
    ensures Size(Unwind(r)) == Size(Unwind(z))
    ensures AllAttached(r)
  {
    var n :| r == SetLastChild(z, n);
    var k := |Top(z).kids| - 1;
    assert AllAttached(r) by {
      forall i | 0 <= i < |r.stack|
        ensures r.stack[i].attached
      {
        assert i < |z.stack| - 1 ==> r.stack[i] == z.stack[i];
      }
    }
    PreorderUnwind(z);
    PreorderUnwind(r);
    var m := |z.stack| - 1;
    assert r.stack[..m] == z.stack[..m];
    assert Top(r).kids == Top(z).kids[..k] + [Top(z).kids[k].(item := n)];
    PreorderItemSize(Top(z).kids, k, n);
    assert Top(z).kids[..k + 1] == Top(z).kids;
  }

  /** Closing a tag pops exactly one open node, never changes the forest and keeps the special flag. */
  lemma CloseTagKeepsDom(b: Builder)
    ensures Unwind(AfterCloseTag(b).dom) == Unwind(b.dom)
    ensures |AfterCloseTag(b).dom.stack| == if b.dom.stack == [] then 0 else |b.dom.stack| - 1
    ensures AfterCloseTag(b).inSpecialTag == b.inSpecialTag
  {
    if b.dom.stack != [] {
      assert Unwind(b.dom) == Unwind(Pop(b.dom));
    }
  }

  /** Text is concatenated into the previous node exactly when it follows text under the same open node inside script or style. */
  lemma OnTextMerges(b: Builder, opts: Options, data: string)
    requires AllAttached(b.dom)
    requires !(opts.ignoreWhitespace && Trim(data) == "")
    ensures var b' := AfterText(b, opts, data);
      && AllAttached(b'.dom)
      && (if b.inSpecialTag && LastChild(b.dom).Some? && LastChild(b.dom).value.ntype == Text
          then Size(Unwind(b'.dom)) == Size(Unwind(b.dom))
            && LastChild(b'.dom) == Some(LastChild(b.dom).value.(data := Plus(LastChild(b.dom).value.data, Str(data))))
          else Preorder(Unwind(b'.dom)) == Preorder(Unwind(b.dom)) + [TextNode(data)])
  {
    AddDomElementOrder(b.dom, b.inSpecialTag, TextNode(data));
  }

  /** At top level, text always becomes a new top-level node. */
  lemma OnTextTopLevel(b: Builder, opts: Options, data: string)
    requires b.dom.stack == []
    requires !(opts.ignoreWhitespace && Trim(data) == "")
    ensures Unwind(AfterText(b, opts, data).dom) == b.dom.roots + [Node(TextNode(data), [])]
  {
  }

  /** With `ignoreWhitespace`, whitespace-only text leaves the builder unchanged. */
  lemma OnTextIgnoresWhitespace(b: Builder, data: string)
    requires AllSpace(data)
    ensures AfterText(b, Options(true), data) == b
  {
    TrimAllSpace(data);
  }

  /**
   * A comment is appended to the data of the previous child when that child is
   * a comment; otherwise it comes last in document order. At top level it
   * always becomes a new node.
   */
  lemma OnCommentMerges(b: Builder, data: string)
    requires AllAttached(b.dom)
    ensures var b' := AfterComment(b, data);
      && AllAttached(b'.dom)
      && b'.inSpecialTag == b.inSpecialTag
      && (if LastChild(b.dom).Some? && LastChild(b.dom).value.ntype == Comment
          then Size(Unwind(b'.dom)) == Size(Unwind(b.dom))
            && LastChild(b'.dom) == Some(LastChild(b.dom).value.(data := Plus(LastChild(b.dom).value.data, Str(data))))
          else Preorder(Unwind(b'.dom)) == Preorder(Unwind(b.dom)) + [CommentNode(data)])
    ensures b.dom.stack == [] ==> AfterComment(b, data).dom.roots == b.dom.roots + [Node(CommentNode(data), [])]
  {
    var b' := AfterComment(b, data);
    if LastChild(b.dom).Some? && LastChild(b.dom).value.ntype == Comment {
      SetLastChildSize(b.dom, b'.dom);
    } else {
      AddDomElementOrder(b.dom, false, CommentNode(data));
      assert b'.dom == AfterAddDomElement(b.dom, false, CommentNode(data));
    }
  }

  /** A processing instruction is never merged: it always comes last in document order. */
  lemma OnProcessingInstructionAdds(b: Builder, name: string, data: string)
    requires AllAttached(b.dom)
    ensures AllAttached(AfterProcessingInstruction(b, name, data).dom)
    ensures Preorder(Unwind(AfterProcessingInstruction(b, name, data).dom))
      == Preorder(Unwind(b.dom)) + [DirectiveNode(name, data)]
  {
    AddDomElementOrder(b.dom, b.inSpecialTag, DirectiveNode(name, data));
  }

  /**
   * An open tag that is not merged keeps every open node linked in and comes
   * last in document order.
   */
  lemma OpenTagOrder(b: Builder, name: string, attribs: Option<map<string, string>>, t: ElementType)
    requires AllAttached(b.dom)
    requires t != Text
    ensures AllAttached(AfterOpenTag(b, name, attribs, t).dom)
    ensures Preorder(Unwind(AfterOpenTag(b, name, attribs, t).dom))
      == Preorder(Unwind(b.dom)) + [TagNode(name, attribs, t)]
  {
    PreorderPush(b.dom, TagNode(name, attribs, t));
  }

  // ---------------------------------------------------------------------
  // The handler object

  /** One invocation of the callback: the error argument (`None` for `null`) and the forest passed. */
  datatype Call = Call(error: Option<string>, dom: seq<Tree<NodeData>>)

  /**
   * The handler (lib/DefaultHandler.js:3-120). `dom` holds the closed
   * top-level nodes and `tagStack` the open ones, so the array the source
   * calls `dom` is `Document()`. The callback is recorded, not run: `calls`
   * lists its invocations in order.
   */
  class DefaultHandler {
    var dom: seq<Tree<NodeData>>
    var tagStack: seq<Frame<NodeData>>
    var done: bool
    var inSpecialTag: bool
    var options: Options
    var hasCallback: bool
    var calls: seq<Call>

    function State(): Builder
      reads this
    {
      Builder(Zipper(dom, tagStack), inSpecialTag)
    }

    /** The forest the source's `dom` property holds. */
    function Document(): seq<Tree<NodeData>>
      reads this
    {
      Unwind(Zipper(dom, tagStack))
    }

    /** `new DefaultHandler(callback, options)`; `callback` says whether a callback function is given. */
    constructor(callback: bool, opts: Option<Options>)
      ensures State() == Fresh && !done && calls == []
      ensures hasCallback == callback && options == opts.GetOr(DefaultOptions)
    {
      dom := [];
      tagStack := [];
      done := false;
      inSpecialTag := false;
      options := opts.GetOr(DefaultOptions);
      hasCallback := callback;
      calls := [];
    }

    /** `onreset` (lib/DefaultHandler.js:3-10, 18): a callback or options not given are kept. */
    method OnReset(callback: bool, opts: Option<Options>)
      modifies this
      ensures State() == Fresh && !done && calls == old(calls)
      ensures hasCallback == (callback || old(hasCallback))
      ensures options == opts.GetOr(old(options))
    {
      dom := [];
      done := false;
      inSpecialTag := false;
      tagStack := [];
      if opts.Some? {
        options := opts.value;
      }
      if callback {
        hasCallback := true;
      }
    }

    /**
     * `onerror` (lib/DefaultHandler.js:27-33): the callback gets the error,
     * otherwise a given error is thrown. `Some(m)` stands for a truthy error
     * value (an `Error` with message `m`); `None` for a missing or falsy one,
     * which `if (error)` does not throw.
     */
    method OnError(error: Option<string>) returns (thrown: Option<string>)
      modifies this
      ensures hasCallback ==> calls == old(calls) + [Call(error, Document())] && thrown == None
      ensures !hasCallback ==> calls == old(calls) && thrown == error
      ensures State() == old(State()) && done == old(done)
      ensures options == old(options) && hasCallback == old(hasCallback)
    {
      thrown := None;
      if hasCallback {
        calls := calls + [Call(error, Document())];
      } else if error.Some? {
        thrown := error;
      }
    }

    /** `onend` (lib/DefaultHandler.js:21-25): the callback gets `null` and the forest, on the first call only. */
    method OnEnd()
      modifies this
      ensures done && State() == old(State())
      ensures options == old(options) && hasCallback == old(hasCallback)
      ensures calls == if old(done) || !hasCallback then old(calls) else old(calls) + [Call(None, Document())]
    {
      if done {
        return;
      }
      done := true;
      var thrown := OnError(None);
    }

    /** `onclosetag` (lib/DefaultHandler.js:37-39). */
    method OnCloseTag(name: string)
      modifies this
      ensures State() == AfterCloseTag(old(State()))
      ensures Document() == old(Document())
      ensures done == old(done) && options == old(options) && hasCallback == old(hasCallback) && calls == old(calls)
    {
      CloseTagKeepsDom(State());
      if tagStack != [] {
        var n := |tagStack| - 1;
        var top := tagStack[n];
        tagStack := tagStack[..n];
        if top.attached {
          if tagStack == [] {
            dom := dom + [Closed(top)];
          } else {
            var parent := tagStack[n - 1];
            tagStack := tagStack[..n - 1] + [parent.(kids := parent.kids + [Closed(top)])];
          }
        }
      }
    }

    /** `_addDomElement` (lib/DefaultHandler.js:41-64). */
    method AddDomElement(element: NodeData)
      modifies this
      ensures State() == old(State()).(dom := AfterAddDomElement(old(State()).dom, inSpecialTag, element))
      ensures done == old(done) && options == old(options) && hasCallback == old(hasCallback) && calls == old(calls)
    {
      if tagStack != [] {
        var n := |tagStack| - 1;
        var lastTag := tagStack[n];
        if lastTag.kids == [] {
          assert lastTag.kids + [Node(element, [])] == [Node(element, [])];
          tagStack := tagStack[..n] + [lastTag.(kids := [Node(element, [])])];
          return;
        }
        var k := |lastTag.kids| - 1;
        var lastChild := lastTag.kids[k];
        if inSpecialTag && element.ntype == Text && lastChild.item.ntype == Text {
          var merged := lastChild.item.(data := Plus(lastChild.item.data, element.data));
          tagStack := tagStack[..n] + [lastTag.(kids := lastTag.kids[..k] + [lastChild.(item := merged)])];
        } else {
          tagStack := tagStack[..n] + [lastTag.(kids := lastTag.kids + [Node(element, [])])];
        }
      } else {
        dom := dom + [Node(element, [])];
      }
    }

    /** `onopentag` (lib/DefaultHandler.js:66-77). */
    method OnOpenTag(name: string, attribs: Option<map<string, string>>, t: ElementType)
      modifies this
      ensures State() == AfterOpenTag(old(State()), name, attribs, t)
      ensures done == old(done) && options == old(options) && hasCallback == old(hasCallback) && calls == old(calls)
    {
      if t == Script || t == Style {
        inSpecialTag := true;
      }
      var element := TagNode(name, attribs, t);
      var merges := MergesText(Zipper(dom, tagStack), inSpecialTag, element);
      if merges {
        AddDomElement(element);
      }
      tagStack := tagStack + [Frame(element, [], !merges)];
    }

    /** `ontext` (lib/DefaultHandler.js:79-85). */
    method OnText(data: string)
      modifies this
      ensures State() == AfterText(old(State()), options, data)
      ensures done == old(done) && options == old(options) && hasCallback == old(hasCallback) && calls == old(calls)
    {
      if options.ignoreWhitespace && Trim(data) == "" {
        return;
      }
      AddDomElement(TextNode(data));
    }

    /** `oncomment` (lib/DefaultHandler.js:87-112). */
    method OnComment(data: string)
      modifies this
      ensures State() == AfterComment(old(State()), data)
      ensures done == old(done) && options == old(options) && hasCallback == old(hasCallback) && calls == old(calls)
    {
      var element := CommentNode(data);
      if tagStack == [] {
        dom := dom + [Node(element, [])];
        return;
      }
      var n := |tagStack| - 1;
      var lastTag := tagStack[n];
      if lastTag.kids == [] {
        assert lastTag.kids + [Node(element, [])] == [Node(element, [])];
        tagStack := tagStack[..n] + [lastTag.(kids := [Node(element, [])])];
      } else {
        var k := |lastTag.kids| - 1;
        var lastChild := lastTag.kids[k];
        if lastChild.item.ntype != Comment {
          tagStack := tagStack[..n] + [lastTag.(kids := lastTag.kids + [Node(element, [])])];
        } else {
          var merged := lastChild.item.(data := Plus(lastChild.item.data, Str(data)));
          tagStack := tagStack[..n] + [lastTag.(kids := lastTag.kids[..k] + [lastChild.(item := merged)])];
        }
      }
    }

    /** `onprocessinginstruction` (lib/DefaultHandler.js:114-120). */
    method OnProcessingInstruction(name: string, data: string)
      modifies this
      ensures State() == AfterProcessingInstruction(old(State()), name, data)
      ensures done == old(done) && options == old(options) && hasCallback == old(hasCallback) && calls == old(calls)
    {
      AddDomElement(DirectiveNode(name, data));
    }
  }
}
