/** The small vocabulary that stands in for the MILP library: boolean
    variables, the handful of linear constraint forms the model builders
    emit, their meaning under a 0/1 assignment, and a builder object that
    plays the part of the library's environment and model (it hands out
    fresh variables and collects constraints in the order they are added). */
module LinearModel {

  /** A boolean decision variable. `Cell(k)` is the variable of grid cell
      `k` (row-major index), `Rect(s, ax, ay)` the selection variable of
      catalog shape `s` at anchor `(ax, ay)` (the variable stored at index
      `ax + (width - w + 1)*ay` of the shape's array, and named after its
      anchor), and `Aux(n)` the `n`-th auxiliary variable created by the
      AND-linearization. */
  datatype Var = Cell(k: int) | Rect(shape: int, ax: int, ay: int) | Aux(n: int)

  /** The constraint forms that occur in the source, one constructor each. */
  datatype Constraint =
    | AtMost(lhs: Var, rhs: Var)                     // lhs <= rhs
    | AtLeast(lhs: Var, rhs: Var)                    // lhs >= rhs
    | AtLeastSumMinusOne(lhs: Var, a: Var, b: Var)   // lhs >= a + b - 1
    | IsZero(v: Var)                                 // v == 0
    | AtMostConst(v: Var, bound: int)                // v <= bound
    | SumAtMostOne(terms: seq<Var>)                  // terms[0] + ... <= 1
    | AtMostSum(v: Var, terms: seq<Var>)             // v <= terms[0] + ...

  /** A 0/1 assignment: `true` is 1, `false` is 0. */
  type Assignment = Var -> bool

  function Value(a: Assignment, v: Var): int {
    if a(v) then 1 else 0
  }

  /** The value of the linear expression `terms[0] + terms[1] + ...`. */
  function Sum(terms: seq<Var>, a: Assignment): (r: int)
    ensures 0 <= r <= |terms|
  {
    if terms == [] then 0 else Sum(terms[..|terms| - 1], a) + Value(a, terms[|terms| - 1])
  }

  predicate Holds(c: Constraint, a: Assignment) {
    match c
    case AtMost(l, r) => Value(a, l) <= Value(a, r)
    case AtLeast(l, r) => Value(a, l) >= Value(a, r)
    case AtLeastSumMinusOne(l, x, y) => Value(a, l) >= Value(a, x) + Value(a, y) - 1
    case IsZero(v) => Value(a, v) == 0
    case AtMostConst(v, b) => Value(a, v) <= b
    case SumAtMostOne(ts) => Sum(ts, a) <= 1
    case AtMostSum(v, ts) => Value(a, v) <= Sum(ts, a)
  }

  /** `a` satisfies every constraint of `cs`. */
  predicate Satisfies(cs: seq<Constraint>, a: Assignment) {
    forall i :: 0 <= i < |cs| ==> Holds(cs[i], a)
  }

  /** The variables a constraint is about. */
  predicate Mentions(c: Constraint, v: Var) {
    match c
    case AtMost(l, r) => v == l || v == r
    case AtLeast(l, r) => v == l || v == r
    case AtLeastSumMinusOne(l, x, y) => v == l || v == x || v == y
    case IsZero(u) => v == u
    case AtMostConst(u, _) => v == u
    case SumAtMostOne(ts) => v in ts
    case AtMostSum(u, ts) => v == u || v in ts
  }

  /** The number of constraints of `cs` that mention `v`. */
  function MentionCount(cs: seq<Constraint>, v: Var): (r: nat)
    ensures r <= |cs|
  {
    if cs == [] then 0
    else MentionCount(cs[..|cs| - 1], v) + (if Mentions(cs[|cs| - 1], v) then 1 else 0)
  }

  lemma {:induction false} SatisfiesAppend(s: seq<Constraint>, t: seq<Constraint>, a: Assignment)
    ensures Satisfies(s + t, a) <==> Satisfies(s, a) && Satisfies(t, a)
  {
    if Satisfies(s, a) && Satisfies(t, a) {
      forall i | 0 <= i < |s + t| ensures Holds((s + t)[i], a) {
        if i < |s| { assert (s + t)[i] == s[i]; } else { assert (s + t)[i] == t[i - |s|]; }
      }
    }
    if Satisfies(s + t, a) {
      forall i | 0 <= i < |s| ensures Holds(s[i], a) { assert (s + t)[i] == s[i]; }
      forall i | 0 <= i < |t| ensures Holds(t[i], a) { assert (s + t)[|s| + i] == t[i]; }
    }
  }

  lemma {:induction false} SumAppend(s: seq<Var>, t: seq<Var>, a: Assignment)
    ensures Sum(s + t, a) == Sum(s, a) + Sum(t, a)
    decreases |t|
  {
    if t == [] {
      assert s + t == s;
    } else {
      var u := t[..|t| - 1];
      assert (s + t)[..|s + t| - 1] == s + u;
      SumAppend(s, u, a);
    }
  }

  lemma {:induction false} MentionCountAppend(s: seq<Constraint>, t: seq<Constraint>, v: Var)
    ensures MentionCount(s + t, v) == MentionCount(s, v) + MentionCount(t, v)
    decreases |t|
  {
    if t == [] {
      assert s + t == s;
    } else {
      var u := t[..|t| - 1];
      assert (s + t)[..|s + t| - 1] == s + u;
      MentionCountAppend(s, u, v);
    }
  }

  lemma {:induction false} MentionCountNone(cs: seq<Constraint>, v: Var)
    requires forall i :: 0 <= i < |cs| ==> !Mentions(cs[i], v)
    ensures MentionCount(cs, v) == 0
    decreases |cs|
  {
    if cs != [] {
      MentionCountNone(cs[..|cs| - 1], v);
    }
  }

  /** Two different variables that are both 1 make a sum of at least 2:
      this is what a `SumAtMostOne` constraint excludes. */
  lemma {:induction false} SumTwo(s: seq<Var>, a: Assignment, u: Var, v: Var)
    requires u in s && v in s && u != v
    ensures a(u) && a(v) ==> Sum(s, a) >= 2
    decreases |s|
  {
    var init, last := s[..|s| - 1], s[|s| - 1];
    assert s == init + [last];
    if last == u {
      assert v in init;
      SumPositive(init, a, v);
    } else if last == v {
      assert u in init;
      SumPositive(init, a, u);
    } else {
      assert u in init && v in init;
      SumTwo(init, a, u, v);
    }
  }

  /** A sum is positive when one of its terms is 1. */
  lemma {:induction false} SumPositive(s: seq<Var>, a: Assignment, v: Var)
    requires v in s
    ensures a(v) ==> Sum(s, a) >= 1
    decreases |s|
  {
    var init, last := s[..|s| - 1], s[|s| - 1];
    assert s == init + [last];
    if last != v {
      assert v in init;
      SumPositive(init, a, v);
    }
  }

  /** ... and only then: a positive sum has a term that is 1. */
  lemma {:induction false} SumWitness(s: seq<Var>, a: Assignment) returns (v: Var)
    requires Sum(s, a) >= 1
    ensures v in s && a(v)
    decreases |s|
  {
    var init, last := s[..|s| - 1], s[|s| - 1];
    assert s == init + [last];
    if a(last) {
      v := last;
    } else {
      v := SumWitness(init, a);
    }
  }

  /** Stands in for the library's environment and model together: the
      model's constraints in the order they were added, the objective's
      terms, and a counter from which fresh auxiliary variables are drawn. */
  class Builder {
    var constraints: seq<Constraint>
    var objective: seq<Var>
    var nextAux: nat

    constructor ()
      ensures constraints == [] && objective == [] && nextAux == 0
    {
      constraints, objective, nextAux := [], [], 0;
    }

    /** `model.add(c)` */
    method Add(c: Constraint)
      modifies this
      ensures constraints == old(constraints) + [c]
      ensures objective == old(objective) && nextAux == old(nextAux)
    {
      constraints := constraints + [c];
    }

    /** `IloBoolVar v{ env }`: a variable never handed out before. */
    method NewBoolVar() returns (v: Var)
      modifies this
      ensures v == Aux(old(nextAux)) && nextAux == old(nextAux) + 1
      ensures constraints == old(constraints) && objective == old(objective)
    {
      v := Aux(nextAux);
      nextAux := nextAux + 1;
    }

    /** `model.add(IloObjective(env, expr, Maximize))` */
    method Maximize(terms: seq<Var>)
      modifies this
      ensures objective == terms
      ensures constraints == old(constraints) && nextAux == old(nextAux)
    {
      objective := terms;
    }
  }
}
