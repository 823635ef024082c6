/**
 * `ConditionOperator` and `Condition` (core.py): a node holds a predicate and
 * two mutable fields, `operator` and `next_condition`, that `AND`/`OR`
 * overwrite on the receiver; `evaluate` runs the node's own predicate and then
 * short-circuits into the rest of the chain.
 */
module Conditions {

  import opened Options
  import opened Predicates

  /** `ConditionOperator`. */
  datatype Operator = AND | OR

  /** The value a chain of `Condition` objects denotes: a node's predicate, its
      operator and the rest of the chain. */
  datatype Chain = Chain(pred: Predicate, op: Option<Operator>, next: Option<Chain>)

  /** `evaluate` on the value of a chain: right-associated, short-circuiting. */
  function Eval(ch: Chain, c: Candidate): bool
  {
    var current := Holds(ch.pred, c);
    if ch.next.None? then current
    else if ch.op == Some(AND) then current && Eval(ch.next.value, c)
    else if ch.op == Some(OR) then current || Eval(ch.next.value, c)
    else current
  }

  /** The nodes of a chain, head first. */
  function Nodes(ch: Chain): (ns: seq<Chain>)
    ensures |ns| >= 1 && ns[0] == ch
  {
    [ch] + (if ch.next.Some? then Nodes(ch.next.value) else [])
  }

  /** Whether `evaluate` goes on past this node: AND after a true result, OR after a false one. */
  predicate Continues(ch: Chain, c: Candidate)
  {
    ch.next.Some? && ((ch.op == Some(AND) && Holds(ch.pred, c)) || (ch.op == Some(OR) && !Holds(ch.pred, c)))
  }

  /** The predicates `evaluate` invokes, in the order it invokes them. */
  function Trace(ch: Chain, c: Candidate): seq<Predicate>
  {
    [ch.pred] + (if Continues(ch, c) then Trace(ch.next.value, c) else [])
  }

  /**
   * Short-circuit evaluation: `evaluate` invokes the predicates of the first
   * `m` nodes in chain order, goes past each of the first `m - 1` because its
   * operator and result let it continue, stops at node `m - 1` because they do
   * not, and returns the result of the last predicate it invoked. In
   * particular a node's own predicate always runs first, a node without a
   * next condition returns its own result, and AND (OR) never runs the rest
   * of the chain after a false (true) result.
   */
  lemma {:induction false} ShortCircuit(ch: Chain, c: Candidate)
    ensures var t, ns := Trace(ch, c), Nodes(ch);
      && 1 <= |t| <= |ns|
      && (forall k :: 0 <= k < |t| ==> t[k] == ns[k].pred)
      && (forall k :: 0 <= k < |t| - 1 ==> Continues(ns[k], c))
      && !Continues(ns[|t| - 1], c)
      && Eval(ch, c) == Holds(t[|t| - 1], c)
  {
    if Continues(ch, c) {
      ShortCircuit(ch.next.value, c);
    }
  }

  /** Every node but the last is joined to the next by `op`. */
  predicate JoinedBy(ch: Chain, op: Operator)
  {
    ch.next.None? || (ch.op == Some(op) && JoinedBy(ch.next.value, op))
  }

  /** A chain built only with AND is the conjunction of its predicates; one
      built only with OR is their disjunction. */
  lemma {:induction false} UniformChains(ch: Chain, c: Candidate)
    ensures JoinedBy(ch, AND) ==>
      (Eval(ch, c) <==> forall k :: 0 <= k < |Nodes(ch)| ==> Holds(Nodes(ch)[k].pred, c))
    ensures JoinedBy(ch, OR) ==>
      (Eval(ch, c) <==> exists k :: 0 <= k < |Nodes(ch)| && Holds(Nodes(ch)[k].pred, c))
  {
    if ch.next.Some? {
      var rest := ch.next.value;
      UniformChains(rest, c);
      assert Nodes(ch) == [ch] + Nodes(rest);
      assert forall k :: 1 <= k < |Nodes(ch)| ==> Nodes(ch)[k] == Nodes(rest)[k - 1];
      if JoinedBy(ch, OR) && Eval(ch, c) && !Holds(ch.pred, c) {
        var k :| 0 <= k < |Nodes(rest)| && Holds(Nodes(rest)[k].pred, c);
        assert Nodes(ch)[k + 1] == Nodes(rest)[k];
      }
      if JoinedBy(ch, OR) && (exists k :: 0 <= k < |Nodes(ch)| && Holds(Nodes(ch)[k].pred, c)) {
        var k :| 0 <= k < |Nodes(ch)| && Holds(Nodes(ch)[k].pred, c);
        if k > 0 {
          assert Holds(Nodes(rest)[k - 1].pred, c);
        }
      }
      if JoinedBy(ch, AND) && Eval(ch, c) {
        forall k | 0 <= k < |Nodes(ch)|
          ensures Holds(Nodes(ch)[k].pred, c)
        {
          if k > 0 {
            assert Nodes(ch)[k] == Nodes(rest)[k - 1];
          }
        }
      }
      if JoinedBy(ch, AND) && (forall k :: 0 <= k < |Nodes(ch)| ==> Holds(Nodes(ch)[k].pred, c)) {
        assert Holds(Nodes(ch)[0].pred, c);
        forall k | 0 <= k < |Nodes(rest)|
          ensures Holds(Nodes(rest)[k].pred, c)
        {
          assert Nodes(ch)[k + 1] == Nodes(rest)[k];
        }
      }
    } else {
      assert Nodes(ch) == [ch];
    }
  }

  /** One `Condition` object; `Repr` is the set of nodes reachable from it. */
  class Condition {
    const pred: Predicate
    var operator: Option<Operator>
    var nextCondition: Condition?
    ghost var Repr: set<Condition>

    /** The chain from this node is finite and acyclic. */
    ghost predicate Valid()
      reads this, Repr
      decreases Repr
    {
      && this in Repr
      && (nextCondition != null ==>
            && nextCondition in Repr
            && nextCondition.Repr <= Repr
            && this !in nextCondition.Repr
            && nextCondition.Valid())
    }

    ghost function Model(): Chain
      reads this, Repr
      requires Valid()
      decreases Repr
    {
      Chain(pred, operator, if nextCondition == null then None else Some(nextCondition.Model()))
    }

    /** `Condition(predicate, description)`: a terminal node. */
    constructor (p: Predicate)
      ensures pred == p && operator == None && nextCondition == null
      ensures Valid() && fresh(Repr) && Model() == Chain(p, None, None)
    {
      pred := p;
      operator := None;
      nextCondition := null;
      Repr := {this};
    }

    /** `AND`: overwrite this node's operator and next condition; return this node. */
    method And(other: Condition) returns (r: Condition)
      modifies this
      ensures r == this && operator == Some(AND) && nextCondition == other
      ensures Repr == {this} + other.Repr
      ensures old(other.Valid()) && this !in old(other.Repr) ==>
        other.Valid() && Valid() && Model() == Chain(pred, Some(AND), Some(other.Model()))
    {
      operator := Some(AND);
      nextCondition := other;
      Repr := {this} + other.Repr;
      r := this;
    }

    /** `OR`: overwrite this node's operator and next condition; return this node. */
    method Or(other: Condition) returns (r: Condition)
      modifies this
      ensures r == this && operator == Some(OR) && nextCondition == other
      ensures Repr == {this} + other.Repr
      ensures old(other.Valid()) && this !in old(other.Repr) ==>
        other.Valid() && Valid() && Model() == Chain(pred, Some(OR), Some(other.Model()))
    {
      operator := Some(OR);
      nextCondition := other;
      Repr := {this} + other.Repr;
      r := this;
    }

    /**
     * Brings this node's footprint up to date after `AND`/`OR` re-linked a
     * node further down its chain; it changes nothing Python can observe.
     * For a longer stale chain, apply it bottom-up.
     */
    ghost method Relink()
      requires nextCondition != null ==> nextCondition.Valid() && this !in nextCondition.Repr
      modifies this
      ensures Repr == {this} + (if nextCondition == null then {} else nextCondition.Repr)
      ensures Valid()
      ensures Model() == Chain(pred, operator, if nextCondition == null then None else Some(nextCondition.Model()))
    {
      Repr := if nextCondition == null then {this} else {this} + nextCondition.Repr;
    }

    /** `evaluate(path)`. */
    function Evaluate(c: Candidate): (r: bool)
      reads this, Repr
      requires Valid()
      ensures r == Eval(Model(), c)
      decreases Repr
    {
      var current := Holds(pred, c);
      if nextCondition == null then current
      else if operator == Some(AND) then current && nextCondition.Evaluate(c)
      else if operator == Some(OR) then current || nextCondition.Evaluate(c)
      else current
    }
  }

  /** `A.AND(B).OR(C)`: both calls land on A, so the second overwrites the
      first, B is dropped, and the chain means A OR C. */
  method FluentCallsOverwrite(a: Predicate, b: Predicate, c: Predicate, x: Candidate) returns (result: bool)
    ensures result == (Holds(a, x) || Holds(c, x))
  {
    var nodeA := new Condition(a);
    var nodeB := new Condition(b);
    var nodeC := new Condition(c);
    var chained := nodeA.And(nodeB);
    chained := chained.Or(nodeC);
    result := chained.Evaluate(x);
  }

  /** `A.AND(B)` followed by `B.OR(C)`: A's chain sees the change to B and
      means A AND (B OR C). */
  method RelinkAfterLinking(a: Predicate, b: Predicate, c: Predicate, x: Candidate) returns (result: bool)
    ensures result == (Holds(a, x) && (Holds(b, x) || Holds(c, x)))
  {
    var nodeA := new Condition(a);
    var nodeB := new Condition(b);
    var nodeC := new Condition(c);
    var chained := nodeA.And(nodeB);
    var inner := nodeB.Or(nodeC);
    nodeA.Relink();
    assert inner.Model() == Chain(b, Some(OR), Some(Chain(c, None, None)));
    assert nodeA.Model() == Chain(a, Some(AND), Some(inner.Model()));
    assert Eval(inner.Model(), x) == (Holds(b, x) || Holds(c, x));
    result := chained.Evaluate(x);
  }

  /** `A.AND(B.OR(C))`: nesting happens only through the argument. */
  method NestingThroughArgument(a: Predicate, b: Predicate, c: Predicate, x: Candidate) returns (result: bool)
    ensures result == (Holds(a, x) && (Holds(b, x) || Holds(c, x)))
  {
    var nodeA := new Condition(a);
    var nodeB := new Condition(b);
    var nodeC := new Condition(c);
    var inner := nodeB.Or(nodeC);
    assert inner.Model() == Chain(b, Some(OR), Some(Chain(c, None, None)));
    var chained := nodeA.And(inner);
    assert chained.Model() == Chain(a, Some(AND), Some(inner.Model()));
    assert Eval(inner.Model(), x) == (Holds(b, x) || Holds(c, x));
    result := chained.Evaluate(x);
  }
}
