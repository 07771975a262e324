/**
 What conditions mean, said level by level without priorities and trees: a disjunction of conjunctions of comparisons.
 */
module ExpressionMeaning {
  import opened Common
  import opened ExpressionEvaluator
  import opened ExpressionGrammar
  import opened ExpressionLaws
  import opened ExpressionParser
  import opened ExpressionSyntax
  import opened ExpressionTree

  // ----- levels -----

  /** The operators that bind alike, from the tightest to the loosest. */
  const LEVELS: seq<set<TokenType>> :=
    [{Greater, Less, GreaterEqual, LessEqual}, {Equal, NotEqual}, {And}, {Or}]

  function LevelOf(op: Operator): (level: nat)
    ensures level < |LEVELS| && op in LEVELS[level]
    ensures forall i | 0 <= i < |LEVELS| && i != level :: op !in LEVELS[i]
  {
    if op in LEVELS[0] then 0 else if op in LEVELS[1] then 1 else if op in LEVELS[2] then 2 else 3
  }

  predicate BindsTighterThan(p: Operator, q: Operator) {
    LevelOf(p) < LevelOf(q)
  }

  /** Priorities are just the order of the levels. */
  lemma PriorityIsLevel(p: Operator, q: Operator)
    ensures GetPriority(Of(p)) < GetPriority(Of(q)) <==> LevelOf(p) < LevelOf(q)
    ensures GetPriority(Of(p)) == GetPriority(Of(q)) <==> LevelOf(p) == LevelOf(q)
  {
  }

  // ----- grouping -----

  lemma {:induction false} ThreeItemsOf(x: Operand, p: Operator, y: Operand, q: Operator, z: Operand)
    ensures Items(More(x, p, More(y, q, Single(z))))
         == [OperandAst(x), NodeOf(Lexeme(p, "")), OperandAst(y), NodeOf(Lexeme(q, "")), OperandAst(z)]
  {
    assert Items(Single(z)) == [OperandAst(z)];
    assert Items(More(y, q, Single(z))) == [OperandAst(y), NodeOf(Lexeme(q, "")), OperandAst(z)];
  }

  lemma TreeOfThree(a: Ast, f: Ast, b: Ast, g: Ast, c: Ast)
    requires f.Node? && g.Node?
    ensures IsChain([a, f, b, g, c])
    ensures Tree([a, f, b, g, c]) ==
      if Priority(g) < Priority(f) then f.(left := a, right := g.(left := b, right := c))
      else g.(left := f.(left := a, right := b), right := c)
  {
    var items := [a, f, b, g, c];
    assert items[..3] == [a, f, b] && items[..1] == [a] && items[2..] == [b, g, c] && items[4..] == [c];
    ThreeItems(a, f, b);
    ThreeItems(b, g, c);
    assert RootOf([a, f, b]) == 1 && RootOf(items) == if Priority(f) <= Priority(g) then 3 else 1;
  }

  /** Three operands with two operators: the last two are grouped exactly if their operator binds strictly tighter. */
  lemma {:induction false} ThreeOperands(x: Operand, p: Operator, y: Operand, q: Operator, z: Operand)
    ensures var a, b, c := OperandAst(x), OperandAst(y), OperandAst(z);
      Abstract(More(x, p, More(y, q, Single(z)))) ==
        if BindsTighterThan(q, p) then Node(a, Node(b, c, Of(q), ""), Of(p), "")
        else Node(Node(a, b, Of(p), ""), c, Of(q), "")
  {
    ThreeItemsOf(x, p, y, q, z);
    PriorityIsLevel(q, p);
    TreeOfThree(OperandAst(x), NodeOf(Lexeme(p, "")), OperandAst(y), NodeOf(Lexeme(q, "")), OperandAst(z));
  }

  predicate IsOperatorNode(a: Ast) {
    a.Node? && a.typ.Of? && IsOperator(a.typ.token)
  }

  function OperatorOf(a: Ast): Operator
    requires IsOperatorNode(a)
  {
    a.typ.token
  }

  predicate HasOperators(t: OpTree) {
    t.Branch? ==> IsOperatorNode(t.op) && HasOperators(t.left) && HasOperators(t.right)
  }

  /** All operators of a tree. */
  function OperatorsOf(t: OpTree): set<Operator>
    requires HasOperators(t)
  {
    match t
    case Leaf(_) => {}
    case Branch(l, op, r) => OperatorsOf(l) + {OperatorOf(op)} + OperatorsOf(r)
  }

  ghost predicate NoneBindsLooser(t: OpTree, p: Operator)
    requires HasOperators(t)
  {
    forall op | op in OperatorsOf(t) :: !BindsTighterThan(p, op)
  }

  ghost predicate AllBindTighter(t: OpTree, p: Operator)
    requires HasOperators(t)
  {
    forall op | op in OperatorsOf(t) :: BindsTighterThan(op, p)
  }

  /** No looser operator is below a tighter one, and of operators that bind alike the left one is below the right one. */
  ghost predicate IsGroupedByLevels(t: OpTree)
    requires HasOperators(t)
  {
    t.Branch? ==>
      && NoneBindsLooser(t.left, OperatorOf(t.op)) && AllBindTighter(t.right, OperatorOf(t.op))
      && IsGroupedByLevels(t.left) && IsGroupedByLevels(t.right)
  }

  predicate BindsBelow(op: Operator, than: nat) {
    GetPriority(Of(op)) < than
  }

  lemma {:induction false} TighterOperators(t: OpTree, than: nat)
    requires HasOperators(t)
    ensures BindsTighter(t, than) <==> forall op | op in OperatorsOf(t) :: BindsBelow(op, than)
  {
    if t.Branch? {
      TighterOperators(t.left, than);
      TighterOperators(t.right, than);
      assert BindsBelow(OperatorOf(t.op), than) <==> Priority(t.op) < than;
    }
  }

  lemma {:induction false} LeftIsGrouped(t: OpTree, p: Operator)
    requires HasOperators(t)
    ensures BindsTighter(t, GetPriority(Of(p)) + 1) <==> NoneBindsLooser(t, p)
  {
    TighterOperators(t, GetPriority(Of(p)) + 1);
    forall op | op in OperatorsOf(t) ensures BindsBelow(op, GetPriority(Of(p)) + 1) <==> !BindsTighterThan(p, op) {
      PriorityIsLevel(p, op);
    }
  }

  lemma {:induction false} RightIsGrouped(t: OpTree, p: Operator)
    requires HasOperators(t)
    ensures BindsTighter(t, GetPriority(Of(p))) <==> AllBindTighter(t, p)
  {
    TighterOperators(t, GetPriority(Of(p)));
    forall op | op in OperatorsOf(t) ensures BindsBelow(op, GetPriority(Of(p))) <==> BindsTighterThan(op, p) {
      PriorityIsLevel(op, p);
    }
  }

  lemma {:induction false} RespectingIsGrouped(t: OpTree)
    requires HasOperators(t)
    ensures Respects(t) <==> IsGroupedByLevels(t)
  {
    if t.Branch? {
      assert Priority(t.op) == GetPriority(Of(OperatorOf(t.op)));
      LeftIsGrouped(t.left, OperatorOf(t.op));
      RightIsGrouped(t.right, OperatorOf(t.op));
      RespectingIsGrouped(t.left);
      RespectingIsGrouped(t.right);
    }
  }

  /** At the odd places of a list there are operators. */
  ghost predicate AreOperators(items: seq<Ast>) {
    forall i: nat {:trigger IsOperatorAt(items, i)} | i < |items| :: IsOperatorAt(items, i)
  }

  predicate IsOperatorAt(items: seq<Ast>, i: nat)
    requires i < |items|
  {
    i % 2 == 1 ==> IsOperatorNode(items[i])
  }

  lemma OperatorsOfParts(items: seq<Ast>, root: nat)
    requires AreOperators(items) && root < |items| && root % 2 == 1
    ensures AreOperators(items[..root]) && AreOperators(items[root + 1..]) && IsOperatorNode(items[root])
  {
    assert IsOperatorAt(items, root);
    forall i: nat {:trigger IsOperatorAt(items[..root], i)} | i < root ensures IsOperatorAt(items[..root], i) {
      assert IsOperatorAt(items, i);
    }
    forall i: nat {:trigger IsOperatorAt(items[root + 1..], i)} | i < |items| - root - 1 ensures IsOperatorAt(items[root + 1..], i) {
      assert IsOperatorAt(items, root + 1 + i);
    }
  }

  lemma {:induction false} TreeHasOperators(t: OpTree)
    requires AreOperators(InOrder(t))
    ensures HasOperators(t)
  {
    if t.Branch? {
      InOrderParts(t);
      OperatorsOfParts(InOrder(t), |InOrder(t.left)|);
      TreeHasOperators(t.left);
      TreeHasOperators(t.right);
    }
  }

  lemma {:induction false} ItemsHaveOperators(c: Condition)
    ensures AreOperators(Items(c))
  {
    if c.More? {
      ItemsHaveOperators(c.rest);
      forall i: nat {:trigger IsOperatorAt(Items(c), i)} | i < |Items(c)| ensures IsOperatorAt(Items(c), i) {
        if i > 1 {
          assert IsOperatorAt(Items(c.rest), i - 2);
        }
      }
    }
  }

  /** Every condition is grouped by levels. */
  lemma ConditionIsGrouped(c: Condition) returns (t: OpTree)
    ensures InOrder(t) == Items(c) && HasOperators(t) && IsGroupedByLevels(t) && Embedded(t) == Abstract(c)
  {
    t := TreeRespects(Items(c));
    ItemsHaveOperators(c);
    TreeHasOperators(t);
    RespectingIsGrouped(t);
  }

  /** No other tree of its items is. */
  lemma {:induction false} OnlyGroupingIsTree(c: Condition, t: OpTree)
    requires InOrder(t) == Items(c) && HasOperators(t) && IsGroupedByLevels(t)
    ensures Embedded(t) == Abstract(c)
  {
    RespectingIsGrouped(t);
    RespectingIsTree(t);
  }

  // ----- values -----

  /** What an operator makes of two numbers; if one is missing only "not equal" holds. */
  function Apply(op: Operator, a: Option<int>, b: Option<int>): Option<int> {
    if a.None? || b.None? then Some(if op == NotEqual then 1 else 0)
    else
      var (x, y) := (a.value, b.value);
      var holds :=
        || (op == Equal && x == y) || (op == NotEqual && x != y)
        || (op == Greater && x > y) || (op == Less && x < y)
        || (op == GreaterEqual && x >= y) || (op == LessEqual && x <= y)
        || (op == Or && !(x == 0 && y == 0)) || (op == And && !(x == 0 || y == 0));
      Some(if holds then 1 else 0)
  }

  /** The operator of a node is applied to the values below it. */
  lemma {:induction false} OperatorApplies(a: Ast, params: Params)
    requires IsOperatorNode(a) && EvalImpl(a.left, params).Ok? && EvalImpl(a.right, params).Ok?
    ensures EvalImpl(a, params) == Ok(Apply(a.typ.token, EvalImpl(a.left, params).value, EvalImpl(a.right, params).value))
  {
  }

  /** The place of the last operator of a level, if there is one. */
  function LastOf(ops: seq<Operator>, level: nat): (r: Option<nat>)
    ensures r.Some? ==> r.value < |ops| && LevelOf(ops[r.value]) == level
    ensures r.Some? ==> forall i | r.value < i < |ops| :: LevelOf(ops[i]) != level
    ensures r.None? ==> forall i | 0 <= i < |ops| :: LevelOf(ops[i]) != level
  {
    if ops == [] then None
    else if LevelOf(ops[|ops| - 1]) == level then Some(|ops| - 1)
    else LastOf(ops[..|ops| - 1], level)
  }

  /** Values joined by the operators of the loosest level, of what the tighter levels make of the values between them. */
  function LevelValue(values: seq<Option<int>>, ops: seq<Operator>, levels: nat): Option<int>
    requires |values| == |ops| + 1
    decreases levels, |ops|
  {
    if levels == 0 then values[0]
    else
      match LastOf(ops, levels - 1)
      case None => LevelValue(values, ops, levels - 1)
      case Some(i) =>
        Apply(ops[i], LevelValue(values[..i + 1], ops[..i], levels), LevelValue(values[i + 1..], ops[i + 1..], levels - 1))
  }

  function OperandMeaning(o: Operand, params: Params): Option<int>
    decreases o, 0
  {
    match o
    case Literal(value) => Some(NumberValue(value))
    case Name(name) => params(name)
    case Defined(name) => Some(if params(name) == None then 0 else 1)
    case Brackets(c) => Meaning(c, params)
  }

  function Values(c: Condition, params: Params): (values: seq<Option<int>>)
    ensures |values| == |Operators(c)| + 1
    decreases c, 0
  {
    match c
    case Single(o) => [OperandMeaning(o, params)]
    case More(o, op, rest) => [OperandMeaning(o, params)] + Values(rest, params)
  }

  function Operators(c: Condition): seq<Operator> {
    match c
    case Single(_) => []
    case More(_, op, rest) => [op] + Operators(rest)
  }

  function Meaning(c: Condition, params: Params): Option<int>
    decreases c, 1
  {
    LevelValue(Values(c, params), Operators(c), |LEVELS|)
  }

  // ----- evaluation -----

  predicate HasValueAt(items: seq<Ast>, values: seq<Option<int>>, params: Params, i: nat)
    requires |items| == 2 * |values| - 1
  {
    i < |values| ==> EvalImpl(items[2 * i], params) == Ok(values[i])
  }

  predicate HasOperatorAt(items: seq<Ast>, ops: seq<Operator>, i: nat)
    requires |items| == 2 * |ops| + 1
  {
    i < |ops| ==> items[2 * i + 1] == NodeOf(Lexeme(ops[i], ""))
  }

  /** Operands with given values and operators between them. */
  ghost predicate AreItems(items: seq<Ast>, values: seq<Option<int>>, ops: seq<Operator>, params: Params) {
    && |values| == |ops| + 1 && |items| == 2 * |ops| + 1
    && (forall i: nat {:trigger HasValueAt(items, values, params, i)} :: HasValueAt(items, values, params, i))
    && (forall i: nat {:trigger HasOperatorAt(items, ops, i)} :: HasOperatorAt(items, ops, i))
  }

  ghost predicate AreWithin(ops: seq<Operator>, levels: nat) {
    forall i | 0 <= i < |ops| :: LevelOf(ops[i]) < levels
  }

  lemma ItemsAreChain(items: seq<Ast>, values: seq<Option<int>>, ops: seq<Operator>, params: Params)
    requires AreItems(items, values, ops, params)
    ensures IsChain(items)
  {
    forall i | 0 <= i < |items| && i % 2 == 1 ensures items[i].Node? {
      assert HasOperatorAt(items, ops, i / 2);
    }
  }

  lemma PartsAreItems(items: seq<Ast>, values: seq<Option<int>>, ops: seq<Operator>, params: Params, i: nat)
    requires AreItems(items, values, ops, params) && i < |ops|
    ensures AreItems(items[..2 * i + 1], values[..i + 1], ops[..i], params)
    ensures AreItems(items[2 * i + 2..], values[i + 1..], ops[i + 1..], params)
  {
    var left, right := items[..2 * i + 1], items[2 * i + 2..];
    forall k: nat {:trigger HasValueAt(left, values[..i + 1], params, k)}
      ensures HasValueAt(left, values[..i + 1], params, k)
    {
      assert HasValueAt(items, values, params, k);
    }
    forall k: nat {:trigger HasOperatorAt(left, ops[..i], k)}
      ensures HasOperatorAt(left, ops[..i], k)
    {
      assert HasOperatorAt(items, ops, k);
    }
    forall k: nat {:trigger HasValueAt(right, values[i + 1..], params, k)}
      ensures HasValueAt(right, values[i + 1..], params, k)
    {
      assert HasValueAt(items, values, params, i + 1 + k);
    }
    forall k: nat {:trigger HasOperatorAt(right, ops[i + 1..], k)}
      ensures HasOperatorAt(right, ops[i + 1..], k)
    {
      assert HasOperatorAt(items, ops, i + 1 + k);
    }
  }

  /** The last operator of the loosest level is the root. */
  lemma {:induction false} LastIsRoot(
      items: seq<Ast>, values: seq<Option<int>>, ops: seq<Operator>, params: Params, levels: nat, i: nat)
    requires AreItems(items, values, ops, params) && AreWithin(ops, levels) && levels > 0
    requires LastOf(ops, levels - 1) == Some(i)
    ensures IsChain(items) && |items| > 1 && RootOf(items) == 2 * i + 1
  {
    var root := 2 * i + 1;
    ItemsAreChain(items, values, ops, params);
    assert HasOperatorAt(items, ops, i);
    var before, after, than := items[..root], items[root + 1..], Priority(items[root]);
    var more := than + 1;
    forall k: nat | k < root ensures IsTighterAt(before, more, k) {
      if k % 2 == 1 {
        assert HasOperatorAt(items, ops, k / 2);
        PriorityIsLevel(ops[i], ops[k / 2]);
      }
    }
    forall k: nat | k < |after| ensures IsTighterAt(after, than, k) {
      if k % 2 == 1 {
        var j := i + 1 + k / 2;
        assert HasOperatorAt(items, ops, j) && after[k] == items[2 * j + 1];
        PriorityIsLevel(ops[j], ops[i]);
      }
    }
    RootOfIsRoot(items);
    RootIsUnique(items, root, RootOf(items));
  }

  /** The value at a root, from the values of its parts. */
  lemma {:induction false} RootMeans(
      items: seq<Ast>, root: nat, op: Operator, params: Params, left: Option<int>, right: Option<int>)
    requires IsChain(items) && |items| > 1 && RootOf(items) == root && items[root] == NodeOf(Lexeme(op, ""))
    requires IsChain(items[..root]) && EvalImpl(Tree(items[..root]), params) == Ok(left)
    requires IsChain(items[root + 1..]) && EvalImpl(Tree(items[root + 1..]), params) == Ok(right)
    ensures EvalImpl(Tree(items), params) == Ok(Apply(op, left, right))
  {
    OperatorApplies(Tree(items), params);
  }

  lemma LastValue(values: seq<Option<int>>, ops: seq<Operator>, levels: nat, i: nat)
    requires |values| == |ops| + 1 && levels > 0 && LastOf(ops, levels - 1) == Some(i)
    ensures LevelValue(values, ops, levels) == Apply(
      ops[i], LevelValue(values[..i + 1], ops[..i], levels), LevelValue(values[i + 1..], ops[i + 1..], levels - 1))
  {
  }

  lemma NoneOfLevel(ops: seq<Operator>, levels: nat)
    requires AreWithin(ops, levels) && levels > 0
    ensures LastOf(ops, levels - 1).None? ==> AreWithin(ops, levels - 1)
    ensures LastOf(ops, levels - 1).Some? ==>
      var i := LastOf(ops, levels - 1).value; AreWithin(ops[..i], levels) && AreWithin(ops[i + 1..], levels - 1)
  {
  }

  /** The tree of a list of items has the value that the levels give. */
  lemma {:induction false} TreeMeans(
      items: seq<Ast>, values: seq<Option<int>>, ops: seq<Operator>, params: Params, levels: nat)
    requires AreItems(items, values, ops, params) && AreWithin(ops, levels)
    ensures IsChain(items) && EvalImpl(Tree(items), params) == Ok(LevelValue(values, ops, levels))
    decreases levels, |ops|, 1
  {
    ItemsAreChain(items, values, ops, params);
    if levels == 0 {
      assert ops != [] ==> LevelOf(ops[0]) < 0;
      assert HasValueAt(items, values, params, 0);
    } else {
      NoneOfLevel(ops, levels);
      if LastOf(ops, levels - 1).None? {
        TreeMeans(items, values, ops, params, levels - 1);
      } else {
        LastTreeMeans(items, values, ops, params, levels, LastOf(ops, levels - 1).value);
      }
    }
  }

  /** The parts around the last operator of the loosest level. */
  lemma LastParts(
      items: seq<Ast>, values: seq<Option<int>>, ops: seq<Operator>, params: Params, levels: nat, i: nat)
    requires AreItems(items, values, ops, params) && AreWithin(ops, levels) && levels > 0
    requires LastOf(ops, levels - 1) == Some(i)
    ensures IsChain(items) && |items| > 1 && RootOf(items) == 2 * i + 1
    ensures items[2 * i + 1] == NodeOf(Lexeme(ops[i], ""))
    ensures AreItems(items[..2 * i + 1], values[..i + 1], ops[..i], params) && AreWithin(ops[..i], levels)
    ensures AreItems(items[2 * i + 2..], values[i + 1..], ops[i + 1..], params) && AreWithin(ops[i + 1..], levels - 1)
  {
    LastIsRoot(items, values, ops, params, levels, i);
    PartsAreItems(items, values, ops, params, i);
    NoneOfLevel(ops, levels);
    assert HasOperatorAt(items, ops, i);
  }

  lemma {:induction false} LastTreeMeans(
      items: seq<Ast>, values: seq<Option<int>>, ops: seq<Operator>, params: Params, levels: nat, i: nat)
    requires AreItems(items, values, ops, params) && AreWithin(ops, levels) && levels > 0
    requires LastOf(ops, levels - 1) == Some(i)
    ensures IsChain(items) && EvalImpl(Tree(items), params) == Ok(LevelValue(values, ops, levels))
    decreases levels, |ops|, 0
  {
    var root, left, right := 2 * i + 1, items[..2 * i + 1], items[2 * i + 2..];
    LastParts(items, values, ops, params, levels, i);
    TreeMeans(left, values[..i + 1], ops[..i], params, levels);
    TreeMeans(right, values[i + 1..], ops[i + 1..], params, levels - 1);
    LastValue(values, ops, levels, i);
    RootMeans(
      items, root, ops[i], params, LevelValue(values[..i + 1], ops[..i], levels),
      LevelValue(values[i + 1..], ops[i + 1..], levels - 1));
  }

  lemma {:induction false} MoreAreItems(
      first: Ast, value: Option<int>, op: Operator, items: seq<Ast>, values: seq<Option<int>>, ops: seq<Operator>,
      params: Params)
    requires EvalImpl(first, params) == Ok(value) && AreItems(items, values, ops, params)
    ensures AreItems([first, NodeOf(Lexeme(op, ""))] + items, [value] + values, [op] + ops, params)
  {
    var allItems := [first, NodeOf(Lexeme(op, ""))] + items;
    var allValues, allOps := [value] + values, [op] + ops;
    forall k: nat {:trigger HasValueAt(allItems, allValues, params, k)}
      ensures HasValueAt(allItems, allValues, params, k)
    {
      assert k > 0 ==> HasValueAt(items, values, params, k - 1);
    }
    forall k: nat {:trigger HasOperatorAt(allItems, allOps, k)}
      ensures HasOperatorAt(allItems, allOps, k)
    {
      assert k > 0 ==> HasOperatorAt(items, ops, k - 1);
    }
  }

  lemma {:induction false} ItemsHaveValues(c: Condition, params: Params)
    ensures AreItems(Items(c), Values(c, params), Operators(c), params)
    decreases c, 0
  {
    OperandIsMeaning(c.operand, params);
    if c.More? {
      ItemsHaveValues(c.rest, params);
      MoreAreItems(
        OperandAst(c.operand), OperandMeaning(c.operand, params), c.op, Items(c.rest), Values(c.rest, params),
        Operators(c.rest), params);
    }
  }

  lemma {:induction false} OperandIsMeaning(o: Operand, params: Params)
    ensures EvalImpl(OperandAst(o), params) == Ok(OperandMeaning(o, params))
    decreases o, 0
  {
    if o.Brackets? {
      ValueIsMeaning(o.condition, params);
    }
  }

  /** Evaluating the tree of a condition gives what the condition means. */
  lemma {:induction false} ValueIsMeaning(c: Condition, params: Params)
    ensures EvalImpl(Abstract(c), params) == Ok(Meaning(c, params))
    decreases c, 1
  {
    ItemsHaveValues(c, params);
    TreeMeans(Items(c), Values(c, params), Operators(c), params, |LEVELS|);
  }

  /** So the text of a condition is true exactly if what it means is a number that is not zero. */
  lemma {:induction false} TextIsTrue(c: Condition, params: Params)
    requires IsSpelled(c)
    ensures ParseText(TextOf(Lexemes(c))).Ok?
    ensures Eval(ParseText(TextOf(Lexemes(c))).value, params)
         == Ok(Meaning(c, params) != None && Meaning(c, params) != Some(0))
  {
    WrittenIsParsed(c);
    ValueIsMeaning(c, params);
  }

  // ----- numbers -----

  function Digit(d: nat): char
    requires d < 10
  {
    "0123456789"[d]
  }

  function Decimal(n: nat): (s: string)
    ensures s != "" && AreDigits(s)
  {
    if n < 10 then [Digit(n)] else Decimal(n / 10) + [Digit(n % 10)]
  }

  /** A number is found again in its decimal digits. */
  lemma {:induction false} DecimalIsRead(n: nat)
    ensures DigitsValue(Decimal(n)) == n
  {
    var s := Decimal(n);
    if n >= 10 {
      DecimalIsRead(n / 10);
      assert s[..|s| - 1] == Decimal(n / 10);
    } else {
      assert s[..0] == "";
    }
  }

  lemma {:induction false} NumberIsRead(n: nat)
    ensures NumberValue(Decimal(n)) == n && NumberValue("-" + Decimal(n)) == -(n as int)
  {
    var s := Decimal(n);
    DecimalIsRead(n);
    assert IsDigit(s[0]) && ("-" + s)[1..] == s;
  }
}
