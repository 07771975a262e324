/** The tree of operands with operators between them, built by precedence. */
module ExpressionTree {
  import opened ExpressionSyntax

  /** Operands with operators between them. */
  predicate IsChain(items: seq<Ast>) {
    && |items| % 2 == 1
    && forall i | 0 <= i < |items| && i % 2 == 1 :: items[i].Node?
  }

  function Priority(item: Ast): nat {
    if item.Node? then GetPriority(item.typ) else 0
  }

  /** An operator at a place binds tighter than something. */
  predicate IsTighterAt(items: seq<Ast>, than: nat, i: nat)
    requires i < |items|
  {
    i % 2 == 1 ==> Priority(items[i]) < than
  }

  ghost predicate AreTighter(items: seq<Ast>, than: nat) {
    forall i: nat {:trigger IsTighterAt(items, than, i)} | i < |items| :: IsTighterAt(items, than, i)
  }

  lemma TighterJoined(a: seq<Ast>, op: Ast, b: seq<Ast>, than: nat)
    requires |a| % 2 == 1
    ensures AreTighter(a + [op] + b, than) <==> AreTighter(a, than) && Priority(op) < than && AreTighter(b, than)
  {
    if AreTighter(a + [op] + b, than) {
      TighterParts(a, op, b, than);
    } else if AreTighter(a, than) && Priority(op) < than && AreTighter(b, than) {
      TighterTogether(a, op, b, than);
    }
  }

  lemma TighterTogether(a: seq<Ast>, op: Ast, b: seq<Ast>, than: nat)
    requires |a| % 2 == 1 && AreTighter(a, than) && Priority(op) < than && AreTighter(b, than)
    ensures AreTighter(a + [op] + b, than)
  {
    var items, n := a + [op] + b, |a|;
    forall i: nat | i < |items| ensures IsTighterAt(items, than, i) {
      if i < n {
        assert IsTighterAt(a, than, i);
      } else if i > n {
        assert IsTighterAt(b, than, i - n - 1);
      }
      TighterAtJoined(a, op, b, than, i);
    }
  }

  lemma TighterAtJoined(a: seq<Ast>, op: Ast, b: seq<Ast>, than: nat, i: nat)
    requires |a| % 2 == 1 && Priority(op) < than && i < |a + [op] + b|
    requires i < |a| ==> IsTighterAt(a, than, i)
    requires i > |a| ==> IsTighterAt(b, than, i - |a| - 1)
    ensures IsTighterAt(a + [op] + b, than, i)
  {
    if i > |a| {
      SameParity(i, |a|);
      assert (a + [op] + b)[i] == b[i - |a| - 1];
    } else if i < |a| {
      assert (a + [op] + b)[i] == a[i];
    }
  }

  lemma SameParity(i: nat, n: nat)
    requires n % 2 == 1 && i > n
    ensures (i - n - 1) % 2 == i % 2
  {
  }

  lemma TighterParts(a: seq<Ast>, op: Ast, b: seq<Ast>, than: nat)
    requires |a| % 2 == 1 && AreTighter(a + [op] + b, than)
    ensures AreTighter(a, than) && Priority(op) < than && AreTighter(b, than)
  {
    var items := a + [op] + b;
    assert IsTighterAt(items, than, |a|);
    forall i: nat | i < |b| ensures IsTighterAt(b, than, i) {
      assert IsTighterAt(items, than, |a| + 1 + i);
    }
    forall i: nat | i < |a| ensures IsTighterAt(a, than, i) {
      assert IsTighterAt(items, than, i);
    }
  }

  /** The last of the operators that bind most loosely. */
  ghost predicate IsRoot(items: seq<Ast>, root: nat) {
    && root < |items| && root % 2 == 1
    && AreTighter(items[..root], Priority(items[root]) + 1)
    && AreTighter(items[root + 1..], Priority(items[root]))
  }

  lemma RootBeforeAnother(items: seq<Ast>, a: nat, b: nat)
    requires IsRoot(items, b) && a < b && a % 2 == 1
    ensures Priority(items[a]) <= Priority(items[b])
  {
    assert IsTighterAt(items[..b], Priority(items[b]) + 1, a);
  }

  lemma OperatorAfterRoot(items: seq<Ast>, a: nat, b: nat)
    requires IsRoot(items, a) && a < b < |items| && b % 2 == 1
    ensures Priority(items[b]) < Priority(items[a])
  {
    assert IsTighterAt(items[a + 1..], Priority(items[a]), b - a - 1);
  }

  lemma RootIsUnique(items: seq<Ast>, a: nat, b: nat)
    requires IsRoot(items, a) && IsRoot(items, b)
    ensures a == b
  {
    var first, last := if a < b then a else b, if a < b then b else a;
    if first < last {
      RootBeforeAnother(items, first, last);
      OperatorAfterRoot(items, first, last);
    }
  }

  lemma TighterMore(items: seq<Ast>, than: nat, more: nat)
    requires AreTighter(items, than) && than <= more
    ensures AreTighter(items, more)
  {
    forall i: nat | i < |items| ensures IsTighterAt(items, more, i) {
      assert IsTighterAt(items, than, i);
    }
  }

  /** One more operator and operand: the operator is the root if it does not bind tighter than the one so far. */
  lemma LaterRoot(items: seq<Ast>, op: Ast, operand: Ast, root: nat)
    requires |items| % 2 == 1 && IsRoot(items, root) && Priority(items[root]) <= Priority(op)
    ensures IsRoot(items + [op, operand], |items|)
  {
    var p, q := Priority(items[root]), Priority(op);
    var before, after := items[..root], items[root + 1..];
    assert items == before + [items[root]] + after;
    TighterMore(before, p + 1, q + 1);
    TighterMore(after, p, q + 1);
    TighterJoined(before, items[root], after, q + 1);
    LastRoot(items, op, operand);
  }

  lemma LastRoot(items: seq<Ast>, op: Ast, operand: Ast)
    requires |items| % 2 == 1 && AreTighter(items, Priority(op) + 1)
    ensures IsRoot(items + [op, operand], |items|)
  {
    var longer := items + [op, operand];
    assert longer[..|items|] == items && longer[|items| + 1..] == [operand];
  }

  lemma RootStays(items: seq<Ast>, op: Ast, operand: Ast, root: nat)
    requires |items| % 2 == 1 && IsRoot(items, root) && Priority(op) < Priority(items[root])
    ensures IsRoot(items + [op, operand], root)
  {
    var longer, after := items + [op, operand], items[root + 1..];
    assert longer[root + 1..] == after + [op] + [operand];
    TighterJoined(after, op, [operand], Priority(items[root]));
    assert longer[..root] == items[..root];
  }

  lemma RootNext(items: seq<Ast>, op: Ast, operand: Ast, root: nat)
    requires |items| % 2 == 1 && IsRoot(items, root)
    ensures IsRoot(items + [op, operand], if Priority(items[root]) <= Priority(op) then |items| else root)
  {
    if Priority(items[root]) <= Priority(op) {
      LaterRoot(items, op, operand, root);
    } else {
      RootStays(items, op, operand, root);
    }
  }

  function RootOf(items: seq<Ast>): (root: nat)
    requires |items| % 2 == 1 && |items| > 1
    ensures root < |items| && root % 2 == 1
  {
    var n := |items| - 2;
    var root := if n == 1 then 1 else RootOf(items[..n]);
    if n == 1 || Priority(items[root]) <= Priority(items[n]) then n else root
  }

  lemma {:induction false} RootOfIsRoot(items: seq<Ast>)
    requires |items| % 2 == 1 && |items| > 1
    ensures IsRoot(items, RootOf(items))
  {
    var n := |items| - 2;
    SameParity(|items|, 1);
    assert items == items[..n] + [items[n], items[n + 1]];
    if n == 1 {
      LastRoot(items[..n], items[n], items[n + 1]);
    } else {
      RootOfIsRoot(items[..n]);
      RootNext(items[..n], items[n], items[n + 1], RootOf(items[..n]));
    }
  }

  lemma ChainParts(items: seq<Ast>, root: nat)
    requires IsChain(items) && root < |items| && root % 2 == 1
    ensures IsChain(items[..root]) && IsChain(items[root + 1..])
    ensures items == items[..root] + [items[root]] + items[root + 1..]
  {
  }

  function Tree(items: seq<Ast>): Ast
    requires IsChain(items)
    decreases |items|
  {
    if |items| == 1 then items[0]
    else
      var root := RootOf(items);
      ChainParts(items, root);
      items[root].(left := Tree(items[..root]), right := Tree(items[root + 1..]))
  }

  /** The root among the operators before a place. */
  ghost predicate IsRootUpTo(items: seq<Ast>, it: nat, root: nat) {
    && it % 2 == 1 && it <= |items| && root < |items|
    && root == if it == 1 then 1 else RootOf(items[..it])
  }

  lemma RootUpToNext(items: seq<Ast>, it: nat, root: nat)
    requires IsRootUpTo(items, it, root) && it + 2 <= |items|
    ensures IsRootUpTo(items, it + 2, if Priority(items[root]) <= Priority(items[it]) then it else root)
  {
    var longer := items[..it + 2];
    assert longer[..it] == items[..it];
  }

  method FindRoot(items: seq<Ast>) returns (rootIt: nat)
    requires IsChain(items) && |items| > 1
    ensures rootIt == RootOf(items)
  {
    rootIt := 1;
    var it := 1;
    while it < |items|
      invariant IsRootUpTo(items, it, rootIt)
      decreases |items| - it
    {
      RootUpToNext(items, it, rootIt);
      if Priority(items[rootIt]) <= Priority(items[it]) {
        rootIt := it;
      }
      it := it + 2;
    }
    assert items[..|items|] == items;
  }

  method TreeByPriority(items: seq<Ast>) returns (tree: Ast)
    requires IsChain(items)
    ensures tree == Tree(items)
    decreases |items|
  {
    if |items| == 1 {
      return items[0];
    }
    var rootIt := FindRoot(items);
    ChainParts(items, rootIt);
    var left := TreeByPriority(items[..rootIt]);
    var right := TreeByPriority(items[rootIt + 1..]);
    tree := items[rootIt].(left := left, right := right);
  }

  // ----- the reference: trees that respect precedence -----

  /** A tree whose operands are taken as a whole. */
  datatype OpTree = Leaf(operand: Ast) | Branch(left: OpTree, op: Ast, right: OpTree)

  function InOrder(t: OpTree): (items: seq<Ast>)
    ensures |items| % 2 == 1 && (|items| == 1 <==> t.Leaf?)
  {
    match t
    case Leaf(a) => [a]
    case Branch(l, op, r) => InOrder(l) + [op] + InOrder(r)
  }

  function Embedded(t: OpTree): Ast {
    match t
    case Leaf(a) => a
    case Branch(l, op, r) => if op.Node? then op.(left := Embedded(l), right := Embedded(r)) else Null
  }

  predicate BindsTighter(t: OpTree, than: nat) {
    t.Branch? ==> Priority(t.op) < than && BindsTighter(t.left, than) && BindsTighter(t.right, than)
  }

  /**
   No operator binds more loosely than the one above it, and one that binds the same is on the left: operators of the
   same precedence are grouped from left to right.
   */
  predicate Respects(t: OpTree) {
    t.Branch? ==>
      && BindsTighter(t.left, Priority(t.op) + 1) && BindsTighter(t.right, Priority(t.op))
      && Respects(t.left) && Respects(t.right)
  }

  lemma {:induction false} TighterInOrder(t: OpTree, than: nat)
    ensures BindsTighter(t, than) <==> AreTighter(InOrder(t), than)
  {
    if t.Branch? {
      TighterInOrder(t.left, than);
      TighterInOrder(t.right, than);
      TighterJoined(InOrder(t.left), t.op, InOrder(t.right), than);
    }
  }

  lemma {:induction false} InOrderParts(t: OpTree)
    requires t.Branch?
    ensures var items, root := InOrder(t), |InOrder(t.left)|;
      && |items| > 1 && items[root] == t.op
      && items[..root] == InOrder(t.left) && items[root + 1..] == InOrder(t.right)
  {
  }

  /** The root of a tree that respects precedence is the one that is chosen. */
  lemma {:induction false} RespectingRoot(t: OpTree)
    requires t.Branch? && Respects(t)
    ensures IsRoot(InOrder(t), |InOrder(t.left)|)
  {
    InOrderParts(t);
    TighterInOrder(t.left, Priority(t.op) + 1);
    TighterInOrder(t.right, Priority(t.op));
  }

  /** Only one tree has given items in order and respects precedence. */
  lemma {:induction false} RespectingIsTree(t: OpTree)
    requires Respects(t) && IsChain(InOrder(t))
    ensures Embedded(t) == Tree(InOrder(t))
  {
    if t.Branch? {
      var items, root := InOrder(t), |InOrder(t.left)|;
      RespectingRoot(t);
      RootOfIsRoot(items);
      RootIsUnique(items, root, RootOf(items));
      ChainParts(items, root);
      InOrderParts(t);
      RespectingIsTree(t.left);
      RespectingIsTree(t.right);
    }
  }

  /** There is such a tree. */
  lemma {:induction false} TreeRespects(items: seq<Ast>) returns (t: OpTree)
    requires IsChain(items)
    ensures InOrder(t) == items && Respects(t) && Embedded(t) == Tree(items)
    decreases |items|
  {
    if |items| == 1 {
      t := Leaf(items[0]);
    } else {
      var root := RootOf(items);
      RootOfIsRoot(items);
      ChainParts(items, root);
      var left := TreeRespects(items[..root]);
      var right := TreeRespects(items[root + 1..]);
      TighterInOrder(left, Priority(items[root]) + 1);
      TighterInOrder(right, Priority(items[root]));
      BranchRespects(left, items[root], right);
      t := Branch(left, items[root], right);
    }
  }

  lemma {:induction false} BranchRespects(left: OpTree, op: Ast, right: OpTree)
    requires Respects(left) && Respects(right)
    requires BindsTighter(left, Priority(op) + 1) && BindsTighter(right, Priority(op))
    ensures Respects(Branch(left, op, right))
  {
  }
}
