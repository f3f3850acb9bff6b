/** Function inlining on trees (mod.rs `Graph::splice`): every variable of the body is
    replaced by the tree bound to it, and every node is rebuilt through the constructors,
    so simplification rules fire again on the substituted operands. */
module Inlining {
  import opened Outcomes
  import opened Operators
  import opened Terms
  import opened Simplification

  /** Every variable a tree mentions, including those under collections. */
  function AllVars(t: Term): set<VarKey> {
    match t
    case Num(_) => {}
    case Var(name, parameter) => {(name, parameter)}
    case Un(_, a) => AllVars(a)
    case Bin(_, l, r) => AllVars(l) + AllVars(r)
    case Arr(items) => set i, k | 0 <= i < |items| && k in AllVars(items[i]) :: k
    case Tup(items) => set i, k | 0 <= i < |items| && k in AllVars(items[i]) :: k
    case Rec(_, _, fields) => set f, k | f in fields && k in AllVars(fields[f]) :: k
  }

  /** The first entry of a struct's `name_order` that is not one of its fields. */
  function FirstMissing(order: seq<string>, fields: set<string>): (r: Option<string>)
    ensures r.None? <==> forall i :: 0 <= i < |order| ==> order[i] in fields
    ensures r.Some? ==> exists i :: 0 <= i < |order| && order[i] == r.value && r.value !in fields &&
                                    forall j :: 0 <= j < i ==> order[j] in fields
  {
    if |order| == 0 then None
    else if order[0] !in fields then Some(order[0])
    else
      var rest := FirstMissing(order[1..], fields);
      if rest.Some? then
        ghost var i :| 0 <= i < |order| - 1 && order[1..][i] == rest.value && rest.value !in fields &&
                       forall j :: 0 <= j < i ==> order[1..][j] in fields;
        assert order[i + 1] == rest.value;
        rest
      else
        rest
  }

  /** The variable bindings of a call: argument `i` is bound to input `i`, a later
      argument overrides an earlier one, and an argument that is not a variable binds
      nothing (its rebuilt node replaces the input before anything reads it). */
  function Bindings(arguments: seq<Term>, inputs: seq<Term>): map<VarKey, Term>
    requires |arguments| == |inputs|
  {
    if |arguments| == 0 then map[]
    else
      var env := Bindings(arguments[..|arguments| - 1], inputs[..|inputs| - 1]);
      var a := arguments[|arguments| - 1];
      if a.Var? then env[(a.name, a.parameter) := inputs[|inputs| - 1]] else env
  }

  /** The tree obtained by inlining `t` with the variables bound by `env`. */
  ghost function Inline(t: Term, env: map<VarKey, Term>): Result<Term> {
    match t
    case Num(c) => Ok(Num(c))
    case Var(name, parameter) =>
      if (name, parameter) in env then Ok(env[(name, parameter)]) else Fail(UnboundVariable)
    case Un(op, a) =>
      var a' :- Inline(a, env);
      Ok(SimplifyUnary(op, a'))
    case Bin(op, l, r) =>
      var l' :- Inline(l, env);
      var r' :- Inline(r, env);
      SimplifyBinary(op, l', r')
    case Arr(items) =>
      if exists i :: 0 <= i < |items| && Inline(items[i], env).Fail? then
        var i :| 0 <= i < |items| && Inline(items[i], env).Fail?;
        Fail(Inline(items[i], env).error)
      else
        Ok(Arr(seq(|items|, i requires 0 <= i < |items| => Inline(items[i], env).value)))
    case Tup(items) =>
      if exists i :: 0 <= i < |items| && Inline(items[i], env).Fail? then
        var i :| 0 <= i < |items| && Inline(items[i], env).Fail?;
        Fail(Inline(items[i], env).error)
      else
        Ok(Tup(seq(|items|, i requires 0 <= i < |items| => Inline(items[i], env).value)))
    case Rec(name, order, fields) =>
      if exists f :: f in fields && Inline(fields[f], env).Fail? then
        var f :| f in fields && Inline(fields[f], env).Fail?;
        Fail(Inline(fields[f], env).error)
      else if FirstMissing(order, fields.Keys).Some? then
        Fail(MissingField(FirstMissing(order, fields.Keys).value))
      else
        Ok(Rec(name, order, map f | f in fields && f in order :: Inline(fields[f], env).value))
  }

  /** Every struct's field set is exactly the set of names in its `name_order`. */
  predicate ExactRecords(t: Term) {
    match t
    case Num(_) => true
    case Var(_, _) => true
    case Un(_, a) => ExactRecords(a)
    case Bin(_, l, r) => ExactRecords(l) && ExactRecords(r)
    case Arr(items) => forall i :: 0 <= i < |items| ==> ExactRecords(items[i])
    case Tup(items) => forall i :: 0 <= i < |items| ==> ExactRecords(items[i])
    case Rec(_, order, fields) =>
      fields.Keys == (set f | f in order) &&
      forall f :: f in fields ==> ExactRecords(fields[f])
  }

  /** A variable is bound exactly when some argument is that variable. */
  lemma {:induction false} BindingsDomain(arguments: seq<Term>, inputs: seq<Term>, k: VarKey)
    requires |arguments| == |inputs|
    ensures k in Bindings(arguments, inputs) <==>
              exists i :: 0 <= i < |arguments| && arguments[i] == Var(k.0, k.1)
  {
    if |arguments| > 0 {
      var n := |arguments| - 1;
      BindingsDomain(arguments[..n], inputs[..n], k);
      if exists i :: 0 <= i < |arguments| && arguments[i] == Var(k.0, k.1) {
        var i :| 0 <= i < |arguments| && arguments[i] == Var(k.0, k.1);
        if i < n {
          assert arguments[..n][i] == Var(k.0, k.1);
        }
      }
      if exists i :: 0 <= i < n && arguments[..n][i] == Var(k.0, k.1) {
        var i :| 0 <= i < n && arguments[..n][i] == Var(k.0, k.1);
        assert arguments[i] == Var(k.0, k.1);
      }
    }
  }

  /** A variable is bound to the input of the last argument that is that variable. */
  lemma {:induction false} BindingsLastWins(arguments: seq<Term>, inputs: seq<Term>, k: VarKey, i: nat)
    requires |arguments| == |inputs| && i < |arguments| && arguments[i] == Var(k.0, k.1)
    requires forall j :: i < j < |arguments| ==> arguments[j] != Var(k.0, k.1)
    ensures k in Bindings(arguments, inputs) && Bindings(arguments, inputs)[k] == inputs[i]
  {
    var n := |arguments| - 1;
    if i < n {
      var front := arguments[..n];
      assert front[i] == Var(k.0, k.1);
      forall j | i < j < n ensures front[j] != Var(k.0, k.1) {
        assert front[j] == arguments[j];
      }
      BindingsLastWins(front, inputs[..n], k, i);
      assert inputs[..n][i] == inputs[i];
    }
  }

  /** Inlining succeeds at a node exactly when it succeeds on every child and, for a struct,
      every name of `name_order` is a field; the rebuilt node applies the constructor rules. */
  lemma InlineStep(t: Term, env: map<VarKey, Term>)
    ensures t.Un? ==> (Inline(t, env).Ok? <==> Inline(t.arg, env).Ok?)
    ensures t.Un? && Inline(t, env).Ok? ==> Inline(t, env).value == SimplifyUnary(t.uop, Inline(t.arg, env).value)
    ensures t.Bin? ==>
              (Inline(t, env).Ok? <==>
               Inline(t.left, env).Ok? && Inline(t.right, env).Ok? &&
               SimplifyBinary(t.bop, Inline(t.left, env).value, Inline(t.right, env).value).Ok?)
    ensures (t.Arr? || t.Tup?) ==>
              (Inline(t, env).Ok? <==> forall i :: 0 <= i < |t.items| ==> Inline(t.items[i], env).Ok?)
    ensures t.Rec? ==>
              (Inline(t, env).Ok? <==>
               (forall f :: f in t.fields ==> Inline(t.fields[f], env).Ok?) &&
               forall i :: 0 <= i < |t.nameOrder| ==> t.nameOrder[i] in t.fields)
    ensures t.Var? ==> (Inline(t, env).Ok? <==> (t.name, t.parameter) in env)
  {
  }

  /** A struct inlines to the struct of its inlined fields restricted to `name_order`
      once every field inlines and every name of `name_order` is a field: `inlined` is
      that restriction, given field by field. */
  lemma InlineRecord(name: string, order: seq<string>, fields: map<string, Term>, env: map<VarKey, Term>,
                     inlined: map<string, Term>)
    requires forall f :: f in fields ==> Inline(fields[f], env).Ok?
    requires forall i :: 0 <= i < |order| ==> order[i] in fields
    requires forall f :: f in inlined <==> f in fields && f in order
    requires forall f :: f in inlined ==> inlined[f] == Inline(fields[f], env).value
    ensures Inline(Rec(name, order, fields), env) == Ok(Rec(name, order, inlined))
  {
    assert FirstMissing(order, fields.Keys).None?;
    var built := map f | f in fields && f in order :: Inline(fields[f], env).value;
    assert built == inlined;
  }

  /** A successful inlining binds every variable the tree mentions. */
  lemma {:induction false} InlineBindsAllVars(t: Term, env: map<VarKey, Term>)
    requires Inline(t, env).Ok?
    ensures AllVars(t) <= env.Keys
  {
    match t
    case Num(_) =>
    case Var(_, _) =>
    case Un(_, a) =>
      InlineBindsAllVars(a, env);
    case Bin(_, l, r) =>
      InlineBindsAllVars(l, env);
      InlineBindsAllVars(r, env);
    case Arr(items) =>
      forall i | 0 <= i < |items| ensures AllVars(items[i]) <= env.Keys {
        InlineBindsAllVars(items[i], env);
      }
    case Tup(items) =>
      forall i | 0 <= i < |items| ensures AllVars(items[i]) <= env.Keys {
        InlineBindsAllVars(items[i], env);
      }
    case Rec(_, _, fields) =>
      forall f | f in fields ensures AllVars(fields[f]) <= env.Keys {
        InlineBindsAllVars(fields[f], env);
      }
  }

  /** Inlining a normal tree whose structs list exactly their fields, with every variable
      bound to itself, gives the tree back: the constructors leave normal trees alone. */
  lemma {:induction false} InlineIdentity(t: Term, env: map<VarKey, Term>)
    requires Normal(t) && ExactRecords(t)
    requires forall k :: k in AllVars(t) ==> k in env && env[k] == Var(k.0, k.1)
    ensures Inline(t, env) == Ok(t)
  {
    match t
    case Num(_) =>
    case Var(_, _) =>
    case Un(op, a) =>
      InlineIdentity(a, env);
      UnaryRules(op, a);
    case Bin(op, l, r) =>
      InlineIdentity(l, env);
      InlineIdentity(r, env);
      BinaryNoRule(op, l, r);
    case Arr(items) =>
      forall i | 0 <= i < |items| ensures Inline(items[i], env) == Ok(items[i]) {
        InlineIdentity(items[i], env);
      }
      assert seq(|items|, i requires 0 <= i < |items| => Inline(items[i], env).value) == items;
    case Tup(items) =>
      forall i | 0 <= i < |items| ensures Inline(items[i], env) == Ok(items[i]) {
        InlineIdentity(items[i], env);
      }
      assert seq(|items|, i requires 0 <= i < |items| => Inline(items[i], env).value) == items;
    case Rec(name, order, fields) =>
      forall f | f in fields ensures Inline(fields[f], env) == Ok(fields[f]) {
        InlineIdentity(fields[f], env);
      }
      forall i | 0 <= i < |order| ensures order[i] in fields {
        assert order[i] in (set f | f in order);
      }
      forall f | f in fields ensures f in order {
        assert f in (set g | g in order);
      }
      InlineRecord(name, order, fields, env, fields);
  }

  /** Inlining normal trees into a normal body yields a normal tree. */
  lemma {:induction false} InlineNormal(t: Term, env: map<VarKey, Term>)
    requires Normal(t)
    requires forall k :: k in env ==> Normal(env[k])
    requires Inline(t, env).Ok?
    ensures Normal(Inline(t, env).value)
  {
    match t
    case Num(_) =>
    case Var(_, _) =>
    case Un(op, a) =>
      InlineNormal(a, env);
      SimplifyUnaryNormal(op, Inline(a, env).value);
    case Bin(op, l, r) =>
      InlineNormal(l, env);
      InlineNormal(r, env);
      SimplifyBinaryNormal(op, Inline(l, env).value, Inline(r, env).value);
    case Arr(items) =>
      forall i | 0 <= i < |items| ensures Normal(Inline(items[i], env).value) {
        InlineNormal(items[i], env);
      }
    case Tup(items) =>
      forall i | 0 <= i < |items| ensures Normal(Inline(items[i], env).value) {
        InlineNormal(items[i], env);
      }
    case Rec(_, _, fields) =>
      forall f | f in fields ensures Normal(Inline(fields[f], env).value) {
        InlineNormal(fields[f], env);
      }
  }
}
