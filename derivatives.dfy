/** The gradient and Hessian that `Function::compute_derivatives` (mod.rs) builds, stated
    on trees and in the order its loops build them: for each argument variable `x_i` the
    gradient entry `d f / d x_i`, then the Hessian row `d (d f / d x_i) / d x_j` for
    `j = i .. n-1`. Only the upper triangle is kept, row after row. */
module Derivatives {
  import opened Outcomes
  import opened Terms
  import Variables

  /** A differentiator: the derivative of a tree with respect to a variable, or the
      error that stops it. The loops are instantiated with `Differentiation.DeriveTerm`. */
  type Deriver = (Term, Variables.Variable) -> Result<Term>

  /** The derivatives of `g` with respect to `xs[i..j]`, left to right (the inner loop of
      `compute_derivatives`); the first failing derivative ends the row. */
  function Row(derive: Deriver, g: Term, xs: seq<Variables.Variable>, i: nat, j: nat): Result<seq<Term>>
    requires i <= j <= |xs|
    decreases j
  {
    if j == i then Ok([])
    else
      var front :- Row(derive, g, xs, i, j - 1);
      var d :- derive(g, xs[j - 1]);
      Ok(front + [d])
  }

  /** What the outer loop has gathered so far. */
  datatype Gathered = Gathered(gradient: seq<Term>, hessian: seq<Term>)

  /** The first `i` rounds of the outer loop over the variables `xs` of `t`. */
  function Rounds(derive: Deriver, t: Term, xs: seq<Variables.Variable>, i: nat): Result<Gathered>
    requires i <= |xs|
  {
    if i == 0 then Ok(Gathered([], []))
    else
      var prev :- Rounds(derive, t, xs, i - 1);
      var g :- derive(t, xs[i - 1]);
      var row :- Row(derive, g, xs, i - 1, |xs|);
      Ok(Gathered(prev.gradient + [g], prev.hessian + row))
  }

  /** The number of Hessian entries in rows `0 .. i-1` of an `n`-variable function: where
      row `i` starts in the flat Hessian array. */
  function RowStart(n: nat, i: nat): nat
    requires i <= n
  {
    if i == 0 then 0 else RowStart(n, i - 1) + (n - (i - 1))
  }

  /** Rows start where the previous one ends, so entry `(i, j)`, `i <= j`, lies in row `i`. */
  lemma {:induction false} RowStartClosedForm(n: nat, i: nat)
    requires i <= n
    ensures 2 * RowStart(n, i) == i * (2 * n - i + 1)
    ensures forall k :: 0 <= k < i ==> RowStart(n, k) + (n - k) <= RowStart(n, i)
  {
    if i > 0 {
      RowStartClosedForm(n, i - 1);
    }
  }

  /** The flat Hessian of `n` variables holds `n (n + 1) / 2` entries. */
  lemma HessianSize(n: nat)
    ensures 2 * RowStart(n, n) == n * (n + 1)
  {
    RowStartClosedForm(n, n);
  }

  /** A row succeeds exactly when each of its derivatives does, and then holds them in
      order. */
  lemma {:induction false} RowSucceeds(derive: Deriver, g: Term, xs: seq<Variables.Variable>, i: nat, j: nat)
    requires i <= j <= |xs|
    ensures Row(derive, g, xs, i, j).Ok? <==> forall k :: i <= k < j ==> derive(g, xs[k]).Ok?
    ensures Row(derive, g, xs, i, j).Ok? ==>
              |Row(derive, g, xs, i, j).value| == j - i &&
              forall k :: i <= k < j ==> derive(g, xs[k]) == Ok(Row(derive, g, xs, i, j).value[k - i])
    decreases j
  {
    if j > i {
      RowSucceeds(derive, g, xs, i, j - 1);
      var front, d := Row(derive, g, xs, i, j - 1), derive(g, xs[j - 1]);
      if front.Ok? && d.Ok? {
        assert Row(derive, g, xs, i, j) == Ok(front.value + [d.value]);
      }
    }
  }

  /** A failing row reports the error of its first failing derivative. */
  lemma {:induction false} RowFails(derive: Deriver, g: Term, xs: seq<Variables.Variable>, i: nat, j: nat)
    requires i <= j <= |xs|
    ensures Row(derive, g, xs, i, j).Fail? ==>
              exists k :: i <= k < j && derive(g, xs[k]).Fail? &&
                          Row(derive, g, xs, i, j).error == derive(g, xs[k]).error &&
                          forall k' :: i <= k' < k ==> derive(g, xs[k']).Ok?
    decreases j
  {
    if j > i {
      var front, d := Row(derive, g, xs, i, j - 1), derive(g, xs[j - 1]);
      if front.Fail? {
        RowFails(derive, g, xs, i, j - 1);
        assert Row(derive, g, xs, i, j) == front;
      } else if d.Fail? {
        RowSucceeds(derive, g, xs, i, j - 1);
        assert Row(derive, g, xs, i, j) == Fail(d.error);
      }
    }
  }

  /** Both directions together: a row succeeds exactly when each of its derivatives does
      and then holds them in order; a failing row reports the first failing derivative. */
  lemma RowEntries(derive: Deriver, g: Term, xs: seq<Variables.Variable>, i: nat, j: nat)
    requires i <= j <= |xs|
    ensures Row(derive, g, xs, i, j).Ok? <==> forall k :: i <= k < j ==> derive(g, xs[k]).Ok?
    ensures Row(derive, g, xs, i, j).Ok? ==>
              |Row(derive, g, xs, i, j).value| == j - i &&
              forall k :: i <= k < j ==> derive(g, xs[k]) == Ok(Row(derive, g, xs, i, j).value[k - i])
    ensures Row(derive, g, xs, i, j).Fail? ==>
              exists k :: i <= k < j && derive(g, xs[k]).Fail? &&
                          Row(derive, g, xs, i, j).error == derive(g, xs[k]).error &&
                          forall k' :: i <= k' < k ==> derive(g, xs[k']).Ok?
  {
    RowSucceeds(derive, g, xs, i, j);
    RowFails(derive, g, xs, i, j);
  }

  /** Every derivative the first `i` rounds take succeeds. */
  ghost predicate RoundsSucceed(derive: Deriver, t: Term, xs: seq<Variables.Variable>, i: nat)
    requires i <= |xs|
  {
    forall k :: 0 <= k < i ==>
      derive(t, xs[k]).Ok? &&
      forall j :: k <= j < |xs| ==> derive(derive(t, xs[k]).value, xs[j]).Ok?
  }

  /** The first `i` rounds succeed exactly when every derivative they take does. */
  lemma {:induction false} RoundsSucceedExactly(derive: Deriver, t: Term, xs: seq<Variables.Variable>, i: nat)
    requires i <= |xs|
    ensures Rounds(derive, t, xs, i).Ok? <==> RoundsSucceed(derive, t, xs, i)
  {
    if i > 0 {
      RoundsSucceedExactly(derive, t, xs, i - 1);
      var g := derive(t, xs[i - 1]);
      if Rounds(derive, t, xs, i - 1).Ok? && g.Ok? {
        RowEntries(derive, g.value, xs, i - 1, |xs|);
      }
    }
  }

  /** Hessian entry `(k, j)`, `k <= j`, of the rounds gathered in `r`. */
  ghost predicate HessianEntry(derive: Deriver, r: Gathered, xs: seq<Variables.Variable>, k: nat, j: nat)
    requires k <= j < |xs| && k < |r.gradient|
  {
    RowStart(|xs|, k) + (j - k) < |r.hessian| &&
    derive(r.gradient[k], xs[j]) == Ok(r.hessian[RowStart(|xs|, k) + (j - k)])
  }

  /** After `i` successful rounds gradient entry `k` is `d t / d xs[k]` and Hessian entry
      `RowStart(n, k) + (j - k)` is `d (d t / d xs[k]) / d xs[j]` for `k <= j < n`. */
  lemma {:induction false} RoundsEntries(derive: Deriver, t: Term, xs: seq<Variables.Variable>, i: nat)
    requires i <= |xs| && Rounds(derive, t, xs, i).Ok?
    ensures var r := Rounds(derive, t, xs, i).value;
            |r.gradient| == i && |r.hessian| == RowStart(|xs|, i) &&
            (forall k :: 0 <= k < i ==> derive(t, xs[k]) == Ok(r.gradient[k])) &&
            forall k, j :: 0 <= k < i && k <= j < |xs| ==> HessianEntry(derive, r, xs, k, j)
  {
    if i > 0 {
      RoundsEntries(derive, t, xs, i - 1);
      var prev := Rounds(derive, t, xs, i - 1).value;
      var g := derive(t, xs[i - 1]).value;
      RowEntries(derive, g, xs, i - 1, |xs|);
      var row := Row(derive, g, xs, i - 1, |xs|).value;
      var r := Rounds(derive, t, xs, i).value;
      assert r == Gathered(prev.gradient + [g], prev.hessian + row);
      forall k, j | 0 <= k < i && k <= j < |xs|
        ensures HessianEntry(derive, r, xs, k, j)
      {
        if k < i - 1 {
          RowStartClosedForm(|xs|, i - 1);
          assert HessianEntry(derive, prev, xs, k, j);
        }
      }
    }
  }

  /** Both loops together: the whole gradient has `n` entries and the Hessian
      `n (n + 1) / 2`. */
  lemma AllRounds(derive: Deriver, t: Term, xs: seq<Variables.Variable>)
    ensures Rounds(derive, t, xs, |xs|).Ok? <==> RoundsSucceed(derive, t, xs, |xs|)
    ensures Rounds(derive, t, xs, |xs|).Ok? ==>
              |Rounds(derive, t, xs, |xs|).value.gradient| == |xs| &&
              2 * |Rounds(derive, t, xs, |xs|).value.hessian| == |xs| * (|xs| + 1)
  {
    RoundsSucceedExactly(derive, t, xs, |xs|);
    if Rounds(derive, t, xs, |xs|).Ok? {
      RoundsEntries(derive, t, xs, |xs|);
    }
    HessianSize(|xs|);
  }

  /** Once a row has failed, the longer rows fail with the same error. */
  lemma {:induction false} RowFailureSticks(derive: Deriver, g: Term, xs: seq<Variables.Variable>, i: nat, j: nat, k: nat)
    requires i <= j <= k <= |xs| && Row(derive, g, xs, i, j).Fail?
    ensures Row(derive, g, xs, i, k) == Row(derive, g, xs, i, j)
    decreases k
  {
    if k > j {
      RowFailureSticks(derive, g, xs, i, j, k - 1);
    }
  }

  /** Once a round has failed, the later rounds fail with the same error: the loops stop
      at the first failing derivative. */
  lemma {:induction false} RoundsFailureSticks(derive: Deriver, t: Term, xs: seq<Variables.Variable>, i: nat, k: nat)
    requires i <= k <= |xs| && Rounds(derive, t, xs, i).Fail?
    ensures Rounds(derive, t, xs, k) == Rounds(derive, t, xs, i)
    decreases k
  {
    if k > i {
      RoundsFailureSticks(derive, t, xs, i, k - 1);
    }
  }
}
