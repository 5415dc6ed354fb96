/** The AND-linearization shared by all three programs: the product of two
    boolean variables as three linear inequalities, and the reduction of a
    whole queue of variables to one by repeatedly multiplying the two at
    its front and pushing the product to its back. */
module Linearization {
  import opened LinearModel

  /** The three inequalities `AddMultConstraints` adds for `res = v0 * v1`. */
  function MultConstraints(res: Var, v0: Var, v1: Var): seq<Constraint> {
    [AtMost(res, v0), AtMost(res, v1), AtLeastSumMinusOne(res, v0, v1)]
  }

  /** For 0/1 values the three inequalities hold exactly when `res` is the
      product (the logical AND) of `v0` and `v1`. */
  lemma MultIsProduct(res: int, v0: int, v1: int)
    requires 0 <= res <= 1 && 0 <= v0 <= 1 && 0 <= v1 <= 1
    ensures (res <= v0 && res <= v1 && res >= v0 + v1 - 1) <==> res == v0 * v1
  {
  }

  /** The same fact stated on the constraint forms and an assignment. */
  lemma MultConstraintsHold(res: Var, v0: Var, v1: Var, a: Assignment)
    ensures Satisfies(MultConstraints(res, v0, v1), a) <==> (a(res) <==> a(v0) && a(v1))
  {
    var cs := MultConstraints(res, v0, v1);
    assert Satisfies(cs, a) <==> Holds(cs[0], a) && Holds(cs[1], a) && Holds(cs[2], a);
  }

  /** What a queue reduction produces: the variable left in the queue, the
      constraints added on the way, and the next unused auxiliary index. */
  datatype Product = Product(result: Var, constraints: seq<Constraint>, next: nat)

  /** The queue reduction of `AddProductConstraints`, fresh variables drawn
      from `Aux(next)` on. */
  function Reduce(queue: seq<Var>, next: nat): (p: Product)
    requires |queue| >= 1
    ensures |p.constraints| == 3 * (|queue| - 1)
    ensures p.next == next + |queue| - 1
    ensures |queue| == 1 ==> p.result == queue[0]
    ensures |queue| > 1 ==> p.result == Aux(p.next - 1)
    decreases |queue|
  {
    if |queue| == 1 then Product(queue[0], [], next)
    else
      var m := Aux(next);
      var rest := Reduce(queue[2..] + [m], next + 1);
      Product(rest.result, MultConstraints(m, queue[0], queue[1]) + rest.constraints, rest.next)
  }

  /** Every variable of `vs` is 1 under `a`. */
  predicate AllOnes(vs: seq<Var>, a: Assignment) {
    forall v :: v in vs ==> a(v)
  }

  /** Soundness of the reduction: under every assignment that satisfies the
      added constraints the result is the AND of the whole queue. */
  lemma {:induction false} ReduceIsAnd(queue: seq<Var>, next: nat, a: Assignment)
    requires |queue| >= 1
    requires Satisfies(Reduce(queue, next).constraints, a)
    ensures a(Reduce(queue, next).result) <==> AllOnes(queue, a)
    decreases |queue|
  {
    if |queue| > 1 {
      var m := Aux(next);
      var q' := queue[2..] + [m];
      var rest := Reduce(q', next + 1);
      SatisfiesAppend(MultConstraints(m, queue[0], queue[1]), rest.constraints, a);
      MultConstraintsHold(m, queue[0], queue[1], a);
      ReduceIsAnd(q', next + 1, a);
      assert queue == [queue[0], queue[1]] + queue[2..];
      assert AllOnes(q', a) <==> AllOnes(queue[2..], a) && a(m);
    }
  }

  /** `a` with `v` set to `b`. */
  function Assign(a: Assignment, v: Var, b: bool): Assignment {
    u => if u == v then b else a(u)
  }

  /** The auxiliary values the reduction intends: each fresh variable set to
      the AND of the two it multiplies. */
  function Extend(queue: seq<Var>, next: nat, a: Assignment): Assignment
    requires |queue| >= 1
    decreases |queue|
  {
    if |queue| == 1 then a
    else Extend(queue[2..] + [Aux(next)], next + 1, Assign(a, Aux(next), a(queue[0]) && a(queue[1])))
  }

  /** `v` is not an auxiliary variable numbered `next` or later. */
  predicate Older(v: Var, next: nat) {
    v.Aux? ==> v.n < next
  }

  /** Completeness of the reduction: when the queue holds no auxiliary
      variable from `next` on, every assignment of the queue's variables
      extends, by changing only the fresh variables, to one that satisfies
      the added constraints. So the constraints never exclude a value of the
      cell variables. */
  lemma {:induction false} ReduceComplete(queue: seq<Var>, next: nat, a: Assignment)
    requires |queue| >= 1
    requires forall v :: v in queue ==> Older(v, next)
    ensures Satisfies(Reduce(queue, next).constraints, Extend(queue, next, a))
    ensures forall v :: Older(v, next) ==> Extend(queue, next, a)(v) == a(v)
    decreases |queue|
  {
    if |queue| > 1 {
      var m := Aux(next);
      var q' := queue[2..] + [m];
      var a' := Assign(a, m, a(queue[0]) && a(queue[1]));
      forall v | v in q' ensures Older(v, next + 1) {
        if v != m { assert v in queue; }
      }
      ReduceComplete(q', next + 1, a');
      var e := Extend(q', next + 1, a');
      assert e == Extend(queue, next, a);
      assert Older(queue[0], next) && Older(queue[1], next);
      assert e(m) == a'(m) && e(queue[0]) == a(queue[0]) && e(queue[1]) == a(queue[1]);
      MultConstraintsHold(m, queue[0], queue[1], e);
      SatisfiesAppend(MultConstraints(m, queue[0], queue[1]), Reduce(q', next + 1).constraints, e);
    }
  }

  /** The constraints of a reduction mention only the queue's variables and
      the fresh ones it created. */
  lemma {:induction false} ReduceMentions(queue: seq<Var>, next: nat, v: Var)
    requires |queue| >= 1
    requires v !in queue && Older(v, next)
    ensures MentionCount(Reduce(queue, next).constraints, v) == 0
    decreases |queue|
  {
    if |queue| > 1 {
      var m := Aux(next);
      var q' := queue[2..] + [m];
      assert v !in q' by { assert v != m; assert forall u :: u in queue[2..] ==> u in queue; }
      ReduceMentions(q', next + 1, v);
      var mc := MultConstraints(m, queue[0], queue[1]);
      assert v != m && v != queue[0] && v != queue[1];
      MentionCountNone(mc, v);
      MentionCountAppend(mc, Reduce(q', next + 1).constraints, v);
    }
  }
}
