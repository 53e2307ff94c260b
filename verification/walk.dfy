/**
 * The tree walks of src/util/astEditor.ts.  Each walker seeds an explicit
 * stack with the forest and repeatedly pops a node and pushes its children
 * in order, so nodes are visited in pre-order.  Here the stack is a
 * sequence whose top is its first element: pushing the children of `n`
 * (the source pushes them last to first) prepends `Kids(n)`.
 *
 * `Visits` is that visiting order.  `removeStyle` does not enter a node of
 * the type it removes, so the order is parameterised by a type whose
 * nodes are visited but not entered.  A visited node is identified by its
 * position in the order, which is how the value model locates the nodes
 * that the source replaces with `parent.splice(parent.indexOf(node), 1, …)`.
 */
module Walk {
  import opened Ast
  import opened Serializer

  /** The nodes pushed after `n` is popped. */
  function Inner(n: Node, skip: Option<NodeType>): seq<Node>
  {
    if skip == Some(TypeOf(n)) then [] else Kids(n)
  }

  lemma InnerSmaller(stack: seq<Node>, skip: Option<NodeType>)
    requires |stack| > 0
    ensures ForestSize(Inner(stack[0], skip) + stack[1..]) < ForestSize(stack)
  {
    Shrink(stack);
    ForestSizeAppend(Inner(stack[0], skip), stack[1..]);
  }

  /** The nodes in the order the walk pops them, starting from `stack`. */
  function Visits(stack: seq<Node>, skip: Option<NodeType>): seq<Node>
    decreases ForestSize(stack)
  {
    if |stack| == 0 then []
    else
      InnerSmaller(stack, skip);
      [stack[0]] + Visits(Inner(stack[0], skip) + stack[1..], skip)
  }

  /** The visits of two stacked forests are those of the first, then those of the second. */
  lemma {:induction false} VisitsAppend(a: seq<Node>, b: seq<Node>, skip: Option<NodeType>)
    ensures Visits(a + b, skip) == Visits(a, skip) + Visits(b, skip)
    decreases ForestSize(a)
  {
    if |a| == 0 {
      assert a + b == b;
    } else {
      var n, rest := a[0], Inner(a[0], skip) + a[1..];
      InnerSmaller(a, skip);
      var ab := a + b;
      assert ab[0] == n && ab[1..] == a[1..] + b;
      var inner := Inner(n, skip);
      assert inner + ab[1..] == rest + b;
      VisitsStep(ab, skip);
      VisitsStep(a, skip);
      VisitsAppend(rest, b, skip);
      Associative([n], Visits(rest, skip), Visits(b, skip));
    }
  }

  /** One pop of the walk. */
  lemma VisitsStep(stack: seq<Node>, skip: Option<NodeType>)
    requires |stack| > 0
    ensures Visits(stack, skip) == [stack[0]] + Visits(Inner(stack[0], skip) + stack[1..], skip)
  {
  }

  /** A single tree is visited root first, then the nodes below it. */
  lemma VisitsOne(n: Node, skip: Option<NodeType>)
    ensures Visits([n], skip) == [n] + Visits(Inner(n, skip), skip)
  {
    assert Inner(n, skip) + [n][1..] == Inner(n, skip);
  }

  /** The visits of a forest are those of its first tree, then those of the rest. */
  lemma VisitsCons(f: seq<Node>, skip: Option<NodeType>)
    requires |f| > 0
    ensures Visits(f, skip) == Visits([f[0]], skip) + Visits(f[1..], skip)
  {
    assert f == [f[0]] + f[1..];
    VisitsAppend([f[0]], f[1..], skip);
  }

  /** Every visited node is no larger than the forest it was reached from. */
  lemma {:induction false} VisitedSize(stack: seq<Node>, skip: Option<NodeType>)
    ensures forall k :: 0 <= k < |Visits(stack, skip)| ==> NodeSize(Visits(stack, skip)[k]) <= ForestSize(stack)
    decreases ForestSize(stack)
  {
    if |stack| > 0 {
      var rest := Inner(stack[0], skip) + stack[1..];
      InnerSmaller(stack, skip);
      VisitedSize(rest, skip);
      ElementSize(stack, 0);
    }
  }

  // ---------------------------------------------------------------------
  // Replacing visited nodes
  // ---------------------------------------------------------------------

  /**
   * The forest with the node of visit number `start + j` replaced by
   * `repl[start + j]` wherever that key is present; `start` is the visit
   * number of `f[0]`.  Containers that are entered keep their place and
   * get their children rewritten in the same way.
   */
  function Replace(f: seq<Node>, skip: Option<NodeType>, start: nat, repl: map<nat, seq<Node>>): seq<Node>
    decreases ForestSize(f), 1
  {
    if |f| == 0 then []
    else
      Shrink(f);
      ReplaceHead(f[0], skip, start, repl) + Replace(f[1..], skip, start + |Visits([f[0]], skip)|, repl)
  }

  /** What `Replace` puts in place of the tree `n` whose root has visit number `start`. */
  function ReplaceHead(n: Node, skip: Option<NodeType>, start: nat, repl: map<nat, seq<Node>>): seq<Node>
    decreases NodeSize(n), 0
  {
    if start in repl then repl[start]
    else if HasChildren(n) && skip != Some(TypeOf(n)) then
      KidsSmaller(n);
      [WithKids(n, Replace(Kids(n), skip, start + 1, repl))]
    else [n]
  }

  lemma WithOwnKids(n: Node)
    requires HasChildren(n)
    ensures WithKids(n, Kids(n)) == n
  {
  }

  /** With nothing to replace, the forest is unchanged. */
  lemma {:induction false} ReplaceNothing(f: seq<Node>, skip: Option<NodeType>, start: nat)
    ensures Replace(f, skip, start, map[]) == f
    decreases ForestSize(f)
  {
    if |f| > 0 {
      Shrink(f);
      var n := f[0];
      if HasChildren(n) && skip != Some(TypeOf(n)) {
        ReplaceNothing(Kids(n), skip, start + 1);
        WithOwnKids(n);
      }
      ReplaceNothing(f[1..], skip, start + |Visits([n], skip)|);
      assert f == [n] + f[1..];
    }
  }

  /** A container whose children keep their text keeps its text. */
  lemma NodeTextWithKids(n: Node, k: seq<Node>)
    requires HasChildren(n) && SerializedText(k) == SerializedText(Kids(n))
    ensures NodeText(WithKids(n, k)) == NodeText(n)
  {
  }

  /** The text of one node as a forest. */
  lemma SingleText(n: Node)
    ensures SerializedText([n]) == NodeText(n)
  {
    assert [n][1..] == [];
  }

  /** Every replacement in the window of visits from `start` has the text of the node it replaces. */
  predicate TextKeeping(vs: seq<Node>, start: nat, repl: map<nat, seq<Node>>)
  {
    forall k :: k in repl && start <= k < start + |vs| ==> SerializedText(repl[k]) == NodeText(vs[k - start])
  }

  /** The condition restricts to a window of the visits. */
  lemma TextKeepingWindow(vs: seq<Node>, start: nat, repl: map<nat, seq<Node>>, a: nat, b: nat)
    requires TextKeeping(vs, start, repl) && a <= b <= |vs|
    ensures TextKeeping(vs[a..b], start + a, repl)
  {
    forall k | k in repl && start + a <= k < start + a + |vs[a..b]|
      ensures SerializedText(repl[k]) == NodeText(vs[a..b][k - (start + a)])
    {
      assert vs[a..b][k - (start + a)] == vs[k - start];
    }
  }

  /**
   * Replacing visited nodes by nodes with the same serialized text keeps
   * the serialized text of the forest.
   */
  lemma {:induction false} ReplaceText(f: seq<Node>, skip: Option<NodeType>, start: nat, repl: map<nat, seq<Node>>)
    requires TextKeeping(Visits(f, skip), start, repl)
    ensures SerializedText(Replace(f, skip, start, repl)) == SerializedText(f)
    decreases ForestSize(f), 1
  {
    if |f| > 0 {
      var n := f[0];
      Shrink(f);
      var vn := Visits([n], skip);
      var head, tail := ReplaceHead(n, skip, start, repl), Replace(f[1..], skip, start + |vn|, repl);
      SplitWindows(f, skip, start, repl);
      HeadText(n, skip, start, repl);
      ReplaceText(f[1..], skip, start + |vn|, repl);
      SerializedTextAppend(head, tail);
    }
  }

  /** The condition on a forest's visits splits into one on its first tree and one on the rest. */
  lemma SplitWindows(f: seq<Node>, skip: Option<NodeType>, start: nat, repl: map<nat, seq<Node>>)
    requires |f| > 0 && TextKeeping(Visits(f, skip), start, repl)
    ensures TextKeeping(Visits([f[0]], skip), start, repl)
    ensures TextKeeping(Visits(f[1..], skip), start + |Visits([f[0]], skip)|, repl)
  {
    var vs, vn, vr := Visits(f, skip), Visits([f[0]], skip), Visits(f[1..], skip);
    VisitsCons(f, skip);
    assert vs == vn + vr;
    TextKeepingWindow(vs, start, repl, 0, |vn|);
    assert vs[0..|vn|] == vn;
    TextKeepingWindow(vs, start, repl, |vn|, |vs|);
    Suffix(vn, vr);
  }

  lemma Suffix<T>(a: seq<T>, b: seq<T>)
    ensures (a + b)[|a|..|a + b|] == b
  {
  }

  lemma {:induction false} HeadText(n: Node, skip: Option<NodeType>, start: nat, repl: map<nat, seq<Node>>)
    requires TextKeeping(Visits([n], skip), start, repl)
    ensures SerializedText(ReplaceHead(n, skip, start, repl)) == NodeText(n)
    decreases NodeSize(n), 0
  {
    VisitsOne(n, skip);
    var vn := Visits([n], skip);
    assert vn[0] == n;
    if start in repl {
    } else if HasChildren(n) && skip != Some(TypeOf(n)) {
      KidsSmaller(n);
      assert Inner(n, skip) == Kids(n);
      TextKeepingWindow(vn, start, repl, 1, |vn|);
      assert vn[1..|vn|] == Visits(Kids(n), skip);
      ReplaceText(Kids(n), skip, start + 1, repl);
      NodeTextWithKids(n, Replace(Kids(n), skip, start + 1, repl));
      SingleText(WithKids(n, Replace(Kids(n), skip, start + 1, repl)));
    } else {
      SingleText(n);
    }
  }

  // ---------------------------------------------------------------------
  // calcNodeLength
  // ---------------------------------------------------------------------

  /** The number of code units in the text nodes of a forest, at every depth. */
  function TextLength(f: seq<Node>): nat
    decreases ForestSize(f)
  {
    if |f| == 0 then 0
    else
      Shrink(f);
      (if f[0].TextNode? then |f[0].text| else 0) + TextLength(Kids(f[0])) + TextLength(f[1..])
  }

  lemma {:induction false} TextLengthAppend(a: seq<Node>, b: seq<Node>)
    ensures TextLength(a + b) == TextLength(a) + TextLength(b)
    decreases |a|
  {
    if |a| == 0 {
      assert a + b == b;
    } else {
      assert (a + b)[0] == a[0] && (a + b)[1..] == a[1..] + b;
      TextLengthAppend(a[1..], b);
    }
  }

  /** `calcNodeLength`: the text length under a forest, found with an explicit stack. */
  method CalcNodeLength(ast: seq<Node>) returns (totalLength: nat)
    ensures totalLength == TextLength(ast)
  {
    totalLength := 0;
    var stack := ast;
    while |stack| > 0
      invariant totalLength + TextLength(stack) == TextLength(ast)
      decreases ForestSize(stack)
    {
      var node := stack[0];
      InnerSmaller(stack, None);
      stack := stack[1..];
      if node.TextNode? {
        totalLength := totalLength + |node.text|;
      }
      TextLengthAppend(Kids(node), stack);
      stack := Kids(node) + stack;
    }
  }

  /** The text length of a forest is the sum over its trees, each its own text plus its children's. */
  lemma TextLengthOfTree(n: Node, rest: seq<Node>)
    ensures TextLength([n] + rest) == (if n.TextNode? then |n.text| else 0) + TextLength(Kids(n)) + TextLength(rest)
  {
    assert ([n] + rest)[1..] == rest;
  }

  /** Text nodes are the only contributors: a forest of text nodes measures the sum of their contents. */
  lemma {:induction false} TextLengthOfTexts(f: seq<Node>)
    requires forall i :: 0 <= i < |f| ==> f[i].TextNode?
    ensures TextLength(f) == |SerializedText(f)|
    decreases |f|
  {
    if |f| > 0 {
      TextLengthOfTexts(f[1..]);
    }
  }
}
