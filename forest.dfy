/**
 * Trees under construction, shared by the two tree builders
 * (lib/DefaultHandler.js and NestTags in node-htmlparser.js).
 *
 * Both builders keep a list of top-level nodes and a stack of references to
 * the open nodes; a new node becomes the last child of the innermost open
 * node, and an open node is always the last child of the node below it on
 * the stack. Here that shared structure is a zipper: the nodes that are still
 * open live in stack frames, holding the children they have so far, and a
 * frame is linked into its parent when it is popped. `Unwind` gives the
 * forest the builders' top-level list shows at any moment, open nodes
 * included. A frame that is not `attached` stands for a node that was pushed
 * on the stack without ever being linked into the tree.
 */
module Forest {

  datatype Tree<T> = Node(item: T, kids: seq<Tree<T>>)

  /** An open node: its item, its children so far, and whether it is linked into its parent. */
  datatype Frame<T> = Frame(item: T, kids: seq<Tree<T>>, attached: bool)

  datatype Zipper<T> = Zipper(roots: seq<Tree<T>>, stack: seq<Frame<T>>)

  function Closed<T>(f: Frame<T>): Tree<T> {
    Node(f.item, f.kids)
  }

  function Empty<T>(): Zipper<T> {
    Zipper([], [])
  }

  /** Adds `t` as the last child of the innermost open node, or as a new top-level node. */
  function Add<T>(z: Zipper<T>, t: Tree<T>): (r: Zipper<T>)
    ensures |r.stack| == |z.stack|
    ensures z.stack == [] ==> r.roots == z.roots + [t]
    ensures z.stack != [] ==> r.roots == z.roots && r.stack[..|z.stack| - 1] == z.stack[..|z.stack| - 1]
    ensures z.stack != [] ==> Top(r) == Top(z).(kids := Top(z).kids + [t])
  {
    if z.stack == [] then z.(roots := z.roots + [t])
    else
      var n := |z.stack| - 1;
      z.(stack := z.stack[..n] + [z.stack[n].(kids := z.stack[n].kids + [t])])
  }

  function Top<T>(z: Zipper<T>): Frame<T>
    requires z.stack != []
  {
    z.stack[|z.stack| - 1]
  }

  /** Opens a node with no children yet. */
  function Push<T>(z: Zipper<T>, item: T, attached: bool): Zipper<T> {
    z.(stack := z.stack + [Frame(item, [], attached)])
  }

  /** Closes the innermost open node, linking it into its parent if it is attached. */
  function Pop<T>(z: Zipper<T>): (r: Zipper<T>)
    ensures z.stack != [] ==> |r.stack| == |z.stack| - 1
    ensures z.stack == [] ==> r == z
  {
    if z.stack == [] then z
    else
      var n := |z.stack| - 1;
      var below := Zipper(z.roots, z.stack[..n]);
      if z.stack[n].attached then Add(below, Closed(z.stack[n])) else below
  }

  /** The forest as the top-level list shows it: every open node closed in turn. */
  function Unwind<T>(z: Zipper<T>): seq<Tree<T>>
    decreases |z.stack|
  {
    if z.stack == [] then z.roots else Unwind(Pop(z))
  }

  /** Closes open nodes, innermost first, until at most `m` are left open. */
  function PopTo<T>(z: Zipper<T>, m: nat): (r: Zipper<T>)
    ensures |r.stack| == if |z.stack| <= m then |z.stack| else m
    decreases |z.stack|
  {
    if |z.stack| <= m then z else PopTo(Pop(z), m)
  }

  predicate AllAttached<T>(z: Zipper<T>) {
    forall i :: 0 <= i < |z.stack| ==> z.stack[i].attached
  }

  /** The items of a forest in document order. */
  function Preorder<T>(ts: seq<Tree<T>>): seq<T>
    decreases ts
  {
    if ts == [] then [] else [ts[0].item] + Preorder(ts[0].kids) + Preorder(ts[1..])
  }

  /** The items of the open nodes and of their children so far, outermost first. */
  function FramesPreorder<T>(stack: seq<Frame<T>>): seq<T>
    decreases |stack|
  {
    if stack == [] then []
    else
      var n := |stack| - 1;
      FramesPreorder(stack[..n]) + [stack[n].item] + Preorder(stack[n].kids)
  }

  // ---------------------------------------------------------------------
  // Properties

  lemma {:induction false} PreorderConcat<T>(a: seq<Tree<T>>, b: seq<Tree<T>>)
    ensures Preorder(a + b) == Preorder(a) + Preorder(b)
    decreases |a|
  {
    if a != [] {
      assert (a + b)[0] == a[0];
      assert (a + b)[1..] == a[1..] + b;
      PreorderConcat(a[1..], b);
    } else {
      assert a + b == b;
    }
  }

  lemma PreorderOne<T>(t: Tree<T>)
    ensures Preorder([t]) == [t.item] + Preorder(t.kids)
  {
    assert [t][1..] == [];
  }

  /**
   * While every open node is linked into its parent, the document order of
   * the whole forest is the closed top-level nodes followed by the open nodes
   * with their children: the open nodes form the rightmost path of the tree.
   */
  lemma {:induction false} PreorderUnwind<T>(z: Zipper<T>)
    requires AllAttached(z)
    ensures Preorder(Unwind(z)) == Preorder(z.roots) + FramesPreorder(z.stack)
    decreases |z.stack|
  {
    if z.stack != [] {
      PopAttached(z);
      PopPreorder(z);
      PreorderUnwind(Pop(z));
    }
  }

  lemma PopAttached<T>(z: Zipper<T>)
    requires AllAttached(z) && z.stack != []
    ensures AllAttached(Pop(z))
  {
    var n := |z.stack| - 1;
    var p := Pop(z);
    assert p == Add(Zipper(z.roots, z.stack[..n]), Closed(z.stack[n]));
    forall i | 0 <= i < |p.stack|
      ensures p.stack[i].attached
    {
      assert i < n - 1 ==> p.stack[i] == z.stack[i];
      assert i == n - 1 ==> p.stack[i].attached == z.stack[i].attached;
    }
  }

  /** Closing a linked node keeps the document order of closed and open nodes together. */
  lemma PopPreorder<T>(z: Zipper<T>)
    requires z.stack != [] && Top(z).attached
    ensures Preorder(Pop(z).roots) + FramesPreorder(Pop(z).stack) == Preorder(z.roots) + FramesPreorder(z.stack)
  {
    var n := |z.stack| - 1;
    var below := Zipper(z.roots, z.stack[..n]);
    assert FramesPreorder(z.stack) == FramesPreorder(below.stack) + [Top(z).item] + Preorder(Top(z).kids);
    assert Pop(z) == Add(below, Closed(Top(z)));
    PreorderOne(Closed(Top(z)));
    if n == 0 {
      PreorderConcat(z.roots, [Closed(Top(z))]);
    } else {
      AddFramesPreorder(below, Closed(Top(z)));
    }
  }

  /** Adding a node below an open node puts it at the end of that node's part of the document order. */
  lemma AddFramesPreorder<T>(z: Zipper<T>, t: Tree<T>)
    requires z.stack != []
    ensures FramesPreorder(Add(z, t).stack) == FramesPreorder(z.stack) + Preorder([t])
  {
    var n := |z.stack| - 1;
    var r := Add(z, t);
    assert r.stack[..n] == z.stack[..n];
    assert FramesPreorder(r.stack) == FramesPreorder(r.stack[..n]) + [Top(r).item] + Preorder(Top(r).kids);
    PreorderConcat(Top(z).kids, [t]);
  }

  /**
   * Adding a node while every open node is linked in puts it, with its
   * subtree, at the very end of the document order.
   */
  lemma PreorderAdd<T>(z: Zipper<T>, t: Tree<T>)
    requires AllAttached(z)
    ensures Preorder(Unwind(Add(z, t))) == Preorder(Unwind(z)) + Preorder([t])
  {
    AddAttached(z, t);
    PreorderUnwind(z);
    PreorderUnwind(Add(z, t));
    AddPreorder(z, t);
  }

  /** Adding a node puts it at the end of the document order of closed and open nodes together. */
  lemma AddPreorder<T>(z: Zipper<T>, t: Tree<T>)
    ensures Preorder(Add(z, t).roots) + FramesPreorder(Add(z, t).stack)
         == Preorder(z.roots) + FramesPreorder(z.stack) + Preorder([t])
  {
    if z.stack == [] {
      PreorderConcat(z.roots, [t]);
    } else {
      AddFramesPreorder(z, t);
    }
  }

  lemma AddAttached<T>(z: Zipper<T>, t: Tree<T>)
    requires AllAttached(z)
    ensures AllAttached(Add(z, t))
  {
    var r := Add(z, t);
    forall i | 0 <= i < |r.stack|
      ensures r.stack[i].attached
    {
      assert i < |z.stack| - 1 ==> r.stack[i] == z.stack[i];
    }
  }

  /** Opening a linked node while every open node is linked in adds it at the end of the document order. */
  lemma PreorderPush<T>(z: Zipper<T>, item: T)
    requires AllAttached(z)
    ensures AllAttached(Push(z, item, true))
    ensures Preorder(Unwind(Push(z, item, true))) == Preorder(Unwind(z)) + [item]
  {
    PushAttached(z, item);
    PreorderUnwind(z);
    PreorderUnwind(Push(z, item, true));
    PushPreorder(z, item, true);
  }

  lemma PushAttached<T>(z: Zipper<T>, item: T)
    requires AllAttached(z)
    ensures AllAttached(Push(z, item, true))
  {
    var r := Push(z, item, true);
    forall i | 0 <= i < |r.stack|
      ensures r.stack[i].attached
    {
      assert i < |z.stack| ==> r.stack[i] == z.stack[i];
    }
  }

  /** Opening a node puts it at the end of the document order of closed and open nodes together. */
  lemma PushPreorder<T>(z: Zipper<T>, item: T, attached: bool)
    ensures Preorder(Push(z, item, attached).roots) + FramesPreorder(Push(z, item, attached).stack)
         == Preorder(z.roots) + FramesPreorder(z.stack) + [item]
  {
    var r := Push(z, item, attached);
    assert r.stack[..|z.stack|] == z.stack;
    assert FramesPreorder(r.stack) == FramesPreorder(z.stack) + [item] + Preorder([]);
  }

  /** Closing nodes never changes the forest the top-level list shows. */
  lemma {:induction false} UnwindPopTo<T>(z: Zipper<T>, m: nat)
    ensures Unwind(PopTo(z, m)) == Unwind(z)
    decreases |z.stack|
  {
    if |z.stack| > m {
      UnwindPopTo(Pop(z), m);
    }
  }

  /** Closing the innermost node leaves the nodes below it open, with the same items and links. */
  lemma PopKeepsFrames<T>(z: Zipper<T>)
    requires z.stack != []
    ensures forall i :: 0 <= i < |Pop(z).stack| ==>
      Pop(z).stack[i].item == z.stack[i].item && Pop(z).stack[i].attached == z.stack[i].attached
  {
    var n := |z.stack| - 1;
    var below := Zipper(z.roots, z.stack[..n]);
    if z.stack[n].attached && n > 0 {
      var r := Add(below, Closed(z.stack[n]));
      assert forall i :: 0 <= i < n - 1 ==> r.stack[i] == r.stack[..n - 1][i];
    }
  }

  /** Closing nodes down to `m` leaves the `m` outermost open, with the same items and links. */
  lemma {:induction false} PopToKeepsFrames<T>(z: Zipper<T>, m: nat)
    ensures forall i :: 0 <= i < |PopTo(z, m).stack| ==>
      PopTo(z, m).stack[i].item == z.stack[i].item && PopTo(z, m).stack[i].attached == z.stack[i].attached
    decreases |z.stack|
  {
    if |z.stack| > m {
      PopKeepsFrames(z);
      PopToKeepsFrames(Pop(z), m);
    }
  }
}
