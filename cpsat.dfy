/**
 * The part of the CP-SAT optimisation backend the scheduler relies on, as plain data: boolean
 * variables numbered from 0, "exactly one" groups, "at most" sums, conjunctions tying an auxiliary
 * variable to two others, and a weighted objective. The backend itself is an oracle that answers
 * a status and a value per variable; the scheduler only assumes the answer is sound.
 */
module CpSat {

  /** `sum(vars) <= bound`. */
  datatype AtMost = AtMost(vars: seq<nat>, bound: int)

  /**
   * `AddBoolAnd([left, right]).only_enforce_if(aux)` together with
   * `AddBoolOr([not left, not right]).only_enforce_if(not aux)`: `aux` is the conjunction.
   */
  datatype Conjunction = Conjunction(aux: nat, left: nat, right: nat)

  datatype CpModel = CpModel(
    numVars: nat,
    exactlyOne: seq<seq<nat>>,
    atMost: seq<AtMost>,
    conjunctions: seq<Conjunction>,
    objVars: seq<nat>,
    objWeights: seq<int>)

  datatype Status = Optimal | Feasible | Infeasible | ModelInvalid | Unknown

  /** What `solver.Solve(model)` leaves behind: the status and `solver.Value(v)` for every variable. */
  datatype Answer = Answer(status: Status, values: seq<bool>)

  predicate Solved(s: Status) {
    s == Optimal || s == Feasible
  }

  predicate InRange(vars: seq<nat>, n: nat) {
    forall k :: 0 <= k < |vars| ==> vars[k] < n
  }

  /** How many of the listed variables are true (a variable listed twice counts twice, as in a sum). */
  function CountTrue(values: seq<bool>, vars: seq<nat>): (r: nat)
    requires InRange(vars, |values|)
    ensures r <= |vars|
  {
    CountFirst(values, vars, |vars|)
  }

  /** How many of the first `n` listed variables are true. */
  function CountFirst(values: seq<bool>, vars: seq<nat>, n: nat): (r: nat)
    requires n <= |vars| && InRange(vars, |values|)
    ensures r <= n
  {
    if n == 0 then 0 else CountFirst(values, vars, n - 1) + (if values[vars[n - 1]] then 1 else 0)
  }

  /** The count of a prefix depends only on the prefix. */
  lemma {:induction false} CountFirstPrefix(values: seq<bool>, a: seq<nat>, b: seq<nat>, n: nat)
    requires n <= |a| && n <= |b| && InRange(a, |values|) && InRange(b, |values|)
    requires forall i :: 0 <= i < n ==> a[i] == b[i]
    ensures CountFirst(values, a, n) == CountFirst(values, b, n)
  {
    if n > 0 {
      CountFirstPrefix(values, a, b, n - 1);
    }
  }

  /** Every variable the model mentions is one it declared. */
  predicate WellFormed(m: CpModel) {
    (forall g :: 0 <= g < |m.exactlyOne| ==> InRange(m.exactlyOne[g], m.numVars)) &&
    (forall c :: 0 <= c < |m.atMost| ==> InRange(m.atMost[c].vars, m.numVars)) &&
    (forall c :: 0 <= c < |m.conjunctions| ==>
       m.conjunctions[c].aux < m.numVars && m.conjunctions[c].left < m.numVars && m.conjunctions[c].right < m.numVars) &&
    InRange(m.objVars, m.numVars) && |m.objWeights| == |m.objVars|
  }

  /** The values meet every constraint of the model. */
  predicate Satisfies(m: CpModel, values: seq<bool>)
    requires WellFormed(m)
  {
    |values| == m.numVars &&
    (forall g :: 0 <= g < |m.exactlyOne| ==> CountTrue(values, m.exactlyOne[g]) == 1) &&
    (forall c :: 0 <= c < |m.atMost| ==> CountTrue(values, m.atMost[c].vars) <= m.atMost[c].bound) &&
    (forall c :: 0 <= c < |m.conjunctions| ==>
       var j := m.conjunctions[c]; values[j.aux] == (values[j.left] && values[j.right]))
  }

  /** The one thing the scheduler assumes of the backend: an answer reported as solved satisfies the model. */
  predicate Sound(m: CpModel, a: Answer)
    requires WellFormed(m)
  {
    Solved(a.status) ==> Satisfies(m, a.values)
  }

  /** A satisfying assignment meets every "at most" row. */
  lemma SatisfiesAtMost(m: CpModel, values: seq<bool>, k: nat)
    requires WellFormed(m) && Satisfies(m, values) && k < |m.atMost|
    ensures InRange(m.atMost[k].vars, |values|) && CountTrue(values, m.atMost[k].vars) <= m.atMost[k].bound
  {
  }

  lemma CountTrueAppend(values: seq<bool>, a: seq<nat>, b: seq<nat>)
    requires InRange(a, |values|) && InRange(b, |values|)
    ensures InRange(a + b, |values|)
    ensures CountTrue(values, a + b) == CountTrue(values, a) + CountTrue(values, b)
  {
    CountAppendFirst(values, a, b, |b|);
  }

  lemma {:induction false} CountAppendFirst(values: seq<bool>, a: seq<nat>, b: seq<nat>, n: nat)
    requires InRange(a, |values|) && InRange(b, |values|) && n <= |b|
    ensures InRange(a + b, |values|)
    ensures CountFirst(values, a + b, |a| + n) == CountTrue(values, a) + CountFirst(values, b, n)
  {
    if n == 0 {
      CountFirstPrefix(values, a + b, a, |a|);
    } else {
      CountAppendFirst(values, a, b, n - 1);
      assert (a + b)[|a| + n - 1] == b[n - 1];
    }
  }
}
