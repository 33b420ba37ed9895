/** The logical plan's join nodes: a join of two tables on a field of each, and a join of
    a table with a subplan. */
module JoinNodes {
  import opened JavaLang
  import opened Fields

  /** The identity of a subplan's DbIterator object (its equals is object identity). */
  type PlanId = nat

  /** A LogicalJoinNode (t1.f1 p t2.f2) or a LogicalSubplanJoinNode (t1.f1 p subPlan),
      whose inherited t2 and f2 stay null. Every reference may be null. */
  datatype JoinNode =
    | Join(t1: Option<string>, t2: Option<string>, f1: Option<string>, f2: Option<string>, p: Option<PredOp>)
    | SubplanJoin(t1: Option<string>, f1: Option<string>, subPlan: Option<PlanId>, p: Option<PredOp>)
  {
    /** The t2 field, null in a subplan join. */
    function Table2(): (t: Option<string>)
      ensures SubplanJoin? ==> t.None?
    {
      if Join? then t2 else None
    }
  }

  /** The argument of equals(Object): null, a join node, or an object of another class. */
  datatype NodeArg = NullRef | NodeRef(node: JoinNode) | OtherObject

  /** The operator swapInnerOuter puts in the swapped node, as written: each ordering
      becomes the opposite ordering of the other strictness. */
  function SwapOp(p: Option<PredOp>): (q: Option<PredOp>)
    ensures p.Some? && p.value in {GreaterThan, GreaterThanOrEq, LessThan, LessThanOrEq} ==>
              q.Some? && q.value in {GreaterThan, GreaterThanOrEq, LessThan, LessThanOrEq} &&
              ((p.value in {GreaterThan, GreaterThanOrEq}) <==> (q.value in {LessThan, LessThanOrEq})) &&
              ((p.value in {GreaterThan, LessThan}) <==> (q.value in {GreaterThanOrEq, LessThanOrEq}))
    ensures !(p.Some? && p.value in {GreaterThan, GreaterThanOrEq, LessThan, LessThanOrEq}) ==> q == p
  {
    if p == Some(GreaterThan) then Some(LessThanOrEq)
    else if p == Some(GreaterThanOrEq) then Some(LessThan)
    else if p == Some(LessThan) then Some(GreaterThanOrEq)
    else if p == Some(LessThanOrEq) then Some(GreaterThan)
    else p
  }

  /** swapInnerOuter(): a join node swaps its two sides and its operator; a subplan join
      is copied as it is. */
  function SwapInnerOuter(n: JoinNode): (m: JoinNode)
    ensures m.Join? <==> n.Join?
    ensures m.SubplanJoin? ==> m == n
    ensures m.Join? ==> m.t1 == n.t2 && m.t2 == n.t1 && m.f1 == n.f2 && m.f2 == n.f1 && m.p == SwapOp(n.p)
  {
    match n
    case Join(t1, t2, f1, f2, p) => Join(t2, t1, f2, f1, SwapOp(p))
    case SubplanJoin(t1, f1, sp, p) => SubplanJoin(t1, f1, sp, p)
  }

  /** Swapping twice gives back the node: tables, fields and operator. */
  lemma {:induction false} SwapInvolution(n: JoinNode)
    ensures SwapInnerOuter(SwapInnerOuter(n)) == n
  {
    if n.Join? {
      SwapOpInvolution(n.p);
    }
  }

  lemma SwapOpInvolution(p: Option<PredOp>)
    ensures SwapOp(SwapOp(p)) == p
  {
  }

  /** String.equals called on a reference: null receivers throw, a null argument is
      unequal. */
  function StringEquals(x: Option<string>, y: Option<string>): (r: Result<bool>)
    ensures r.Err? <==> x.None?
    ensures r.Ok? ==> (r.value <==> y == x)
  {
    if x.None? then Err(NullPointer) else Ok(y == x)
  }

  /** LogicalJoinNode.equals(o): o is cast to a join node, then its t1 must be one of this
      node's tables and so must its t2; fields and operator are not compared. */
  function JoinEquals(n: JoinNode, o: NodeArg): (r: Result<bool>)
    requires n.Join?
  {
    match o
    case OtherObject => Err(ClassCast)
    case NullRef => Err(NullPointer)
    case NodeRef(j2) =>
      var a := StringEquals(j2.t1, n.t1);
      if a.Err? then Err(a.error)
      else
        var first := a.value || StringEquals(j2.t1, n.t2).value;
        if !first then Ok(false)
        else
          var c := StringEquals(j2.Table2(), n.t1);
          if c.Err? then Err(c.error)
          else Ok(c.value || StringEquals(j2.Table2(), n.t2).value)
  }

  /** LogicalSubplanJoinNode.equals(o): the cast comes before the instanceof test, so
      another class throws while null is merely unequal; a subplan join compares t1, f1
      and the subplan object. */
  function SubplanEquals(n: JoinNode, o: NodeArg): (r: Result<bool>)
    requires n.SubplanJoin?
  {
    match o
    case OtherObject => Err(ClassCast)
    case NullRef => Ok(false)
    case NodeRef(j2) =>
      if !j2.SubplanJoin? then Ok(false)
      else
        var a := StringEquals(j2.t1, n.t1);
        if a.Err? then Err(a.error)
        else if !a.value then Ok(false)
        else
          var b := StringEquals(j2.f1, n.f1);
          if b.Err? then Err(b.error)
          else if !b.value then Ok(false)
          else if j2.subPlan.None? then Err(NullPointer)
          else Ok(n.subPlan == j2.subPlan)
  }

  /** equals(Object), dispatched on the node's class. */
  function Equals(n: JoinNode, o: NodeArg): Result<bool>
  {
    if n.Join? then JoinEquals(n, o) else SubplanEquals(n, o)
  }

  /** A join node with non-null tables equals exactly the join nodes whose two tables are
      among its own, whatever their fields and operators; one with a null t2 throws. */
  lemma JoinEqualsMeaning(n: JoinNode, j2: JoinNode)
    requires n.Join? && j2.t1.Some?
    ensures Equals(n, NodeRef(j2)).Ok? <==> !(j2.t1 == n.t1 || j2.t1 == n.t2) || j2.Table2().Some?
    ensures Equals(n, NodeRef(j2)) == Ok(true) <==>
              (j2.t1 == n.t1 || j2.t1 == n.t2) && j2.Table2().Some? &&
              (j2.Table2() == n.t1 || j2.Table2() == n.t2)
  {
  }

  /** A join node with non-null tables equals its swapped node, and the swapped node
      equals it. */
  lemma EqualsSwapped(n: JoinNode)
    requires n.Join? && n.t1.Some? && n.t2.Some?
    ensures Equals(n, NodeRef(SwapInnerOuter(n))) == Ok(true)
    ensures Equals(SwapInnerOuter(n), NodeRef(n)) == Ok(true)
  {
  }

  /** A subplan join equals exactly the subplan joins with the same t1, f1 and subplan,
      once its own t1, f1 and the other's subplan are set; anything else non-null of a
      join class is unequal. */
  lemma SubplanEqualsMeaning(n: JoinNode, o: NodeArg)
    requires n.SubplanJoin? && n.t1.Some? && n.f1.Some?
    requires o.NodeRef? && o.node.SubplanJoin? ==> o.node.t1.Some? && o.node.f1.Some? && o.node.subPlan.Some?
    ensures Equals(n, o).Ok? <==> !o.OtherObject?
    ensures Equals(n, o) == Ok(true) <==>
              o.NodeRef? && o.node.SubplanJoin? && o.node.t1 == n.t1 && o.node.f1 == n.f1 &&
              o.node.subPlan == n.subPlan
  {
  }

  /** new LogicalSubplanJoinNode(table1, joinField1, sp, pred). */
  function NewSubplanJoinNode(table1: Option<string>, joinField1: Option<string>, sp: Option<PlanId>,
                              pred: Option<PredOp>): (n: JoinNode)
    ensures n.SubplanJoin? && n.t1 == table1 && n.f1 == joinField1 && n.subPlan == sp && n.p == pred
    ensures n.Table2().None? && SwapInnerOuter(n) == n
  {
    SubplanJoin(table1, joinField1, sp, pred)
  }

  // ---------------------------------------------------------------------------
  // The swapped operator

  /** The mirrored operator: each ordering becomes its converse, so that b op' a holds
      exactly when a op b does. */
  function MirrorOp(p: Option<PredOp>): (q: Option<PredOp>)
  {
    if p == Some(GreaterThan) then Some(LessThan)
    else if p == Some(GreaterThanOrEq) then Some(LessThanOrEq)
    else if p == Some(LessThan) then Some(GreaterThan)
    else if p == Some(LessThanOrEq) then Some(GreaterThanOrEq)
    else p
  }

  /** swapInnerOuter with the mirrored operator: the swapped join selects the same pairs. */
  function SwapInnerOuterMirrored(n: JoinNode): (m: JoinNode)
    ensures m.Join? <==> n.Join?
    ensures m.SubplanJoin? ==> m == n
    ensures m.Join? ==> m.t1 == n.t2 && m.t2 == n.t1 && m.f1 == n.f2 && m.f2 == n.f1 && m.p == MirrorOp(n.p)
  {
    match n
    case Join(t1, t2, f1, f2, p) => Join(t2, t1, f2, f1, MirrorOp(p))
    case SubplanJoin(t1, f1, sp, p) => SubplanJoin(t1, f1, sp, p)
  }

  /** Comparing the other side's value to this one with the mirrored operator agrees with
      the original comparison, for every operator but LIKE (which neither version
      changes, and which is not symmetric for strings). */
  lemma MirroredAgrees(a: Field, b: Field, op: PredOp)
    requires op != Like
    ensures MirrorOp(Some(op)).Some? &&
            FieldCompare(b, MirrorOp(Some(op)).value, Some(a)).Ok? == FieldCompare(a, op, Some(b)).Ok? &&
            (FieldCompare(a, op, Some(b)).Ok? ==>
               FieldCompare(b, MirrorOp(Some(op)).value, Some(a)) == FieldCompare(a, op, Some(b)))
  {
    if a.Str? && b.Str? {
      LexLessTotal(a.sf.value, b.sf.value);
    }
  }

  /** The mirrored swap is an involution too, and a swapped node is equal to the original. */
  lemma {:induction false} MirroredSwapInvolution(n: JoinNode)
    ensures SwapInnerOuterMirrored(SwapInnerOuterMirrored(n)) == n
    ensures n.Join? && n.t1.Some? && n.t2.Some? ==> Equals(n, NodeRef(SwapInnerOuterMirrored(n))) == Ok(true)
  {
    if n.Join? {
      assert MirrorOp(MirrorOp(n.p)) == n.p;
    }
  }

  /** As written, the swapped operator disagrees with the original when both fields are
      equal: 1 > 1 is false, but the swapped join tests 1 <= 1. */
  lemma SwapOpChangesEqualRows()
    ensures FieldCompare(IntField(1), GreaterThan, Some(IntField(1))) == Ok(false)
    ensures SwapOp(Some(GreaterThan)) == Some(LessThanOrEq)
    ensures FieldCompare(IntField(1), LessThanOrEq, Some(IntField(1))) == Ok(true)
  {
  }
}
