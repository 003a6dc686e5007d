/** Propositional formulas, their negation, and the Tseitin encoder into CNF
    (logic.js).

    A formula is a variable name, a NOT node over one argument, or a node of
    one of the six connectives over a list of arguments. The encoder keeps
    nested ANDs at the top as separate clauses, flattens nested ORs into one
    clause, and introduces a fresh variable (`or*k`, `and*k`) for every AND or
    OR that sits below them. */
module Logic {

  datatype Connective = And | Or | Xor | Eq | Nand | Nor

  /** `Var` is a bare name (a JS string); `Not` and `Node` are the operator
      objects `{op, args}` built by `not()` and by `and()` … `nor()`. */
  datatype Formula =
    | Var(name: string)
    | Not(arg: Formula)
    | Node(op: Connective, args: seq<Formula>)

  /** A clause is a list of literals, read as their disjunction. */
  type Clause = seq<Formula>

  /** An assignment of truth values to every variable name. */
  type Valuation = string -> bool

  // ---------------------------------------------------------------------
  // Shape predicates (logic.js:13-29)

  predicate IsOp(x: Formula) { !x.Var? }

  predicate IsVar(x: Formula) { !IsOp(x) }

  predicate IsNotVar(x: Formula) { IsOp(x) && x.Not? && IsVar(x.arg) }

  /** `varOrNegVar`: a literal. */
  predicate IsLiteral(x: Formula) { IsVar(x) || IsNotVar(x) }

  predicate IsOr(x: Formula) { IsOp(x) && x.Node? && x.op == Or }

  /** The variable a literal is about. */
  function LitName(l: Formula): string
    requires IsLiteral(l)
  {
    if l.Var? then l.name else l.arg.name
  }

  // ---------------------------------------------------------------------
  // Semantics: the evaluator of logic_tests.js:129-153

  /** The number of `true` entries. */
  function CountTrue(bs: seq<bool>): nat {
    if bs == [] then 0 else CountTrue(bs[..|bs| - 1]) + (if bs[|bs| - 1] then 1 else 0)
  }

  /** A connective applied to the values of its arguments; XOR and EQ are the
      parity of the number of true arguments. */
  function Apply(op: Connective, bs: seq<bool>): bool {
    match op
    case And => false !in bs
    case Or => true in bs
    case Nand => false in bs
    case Nor => true !in bs
    case Xor => CountTrue(bs) % 2 == 1
    case Eq => CountTrue(bs) % 2 == 0
  }

  function Eval(x: Formula, v: Valuation): bool
    decreases x
  {
    match x
    case Var(n) => v(n)
    case Not(a) => !Eval(a, v)
    case Node(op, args) => Apply(op, EvalAll(args, v))
  }

  function EvalAll(xs: seq<Formula>, v: Valuation): seq<bool>
    decreases xs
  {
    seq(|xs|, i requires 0 <= i < |xs| => Eval(xs[i], v))
  }

  lemma EvalOr(xs: seq<Formula>, v: Valuation)
    ensures Eval(Node(Or, xs), v) == ClauseSat(xs, v)
  {
    var bs := EvalAll(xs, v);
    if true in bs {
      var i :| 0 <= i < |bs| && bs[i];
      assert Eval(xs[i], v);
    }
    if exists i :: 0 <= i < |xs| && Eval(xs[i], v) {
      var i :| 0 <= i < |xs| && Eval(xs[i], v);
      assert bs[i];
    }
  }

  lemma EvalAnd(xs: seq<Formula>, v: Valuation)
    ensures Eval(Node(And, xs), v) == AllTrue(xs, v)
  {
    var bs := EvalAll(xs, v);
    if false in bs {
      var i :| 0 <= i < |bs| && !bs[i];
      assert !Eval(xs[i], v);
    }
    if !forall i :: 0 <= i < |xs| ==> Eval(xs[i], v) {
      var i :| 0 <= i < |xs| && !Eval(xs[i], v);
      assert !bs[i];
    }
  }

  // ---------------------------------------------------------------------
  // Negation (logic.js:49-65)

  /** The connective that `not` turns a node into. */
  function Dual(op: Connective): (d: Connective)
    ensures forall bs :: Apply(d, bs) == !Apply(op, bs)
  {
    match op
    case And => Nand
    case Nand => And
    case Or => Nor
    case Nor => Or
    case Xor => Eq
    case Eq => Xor
  }

  /** `not(x)`: drop a NOT, swap a connective for its dual over the same
      arguments, and wrap only a variable in a new NOT node. */
  function Negate(x: Formula): (r: Formula)
    ensures forall v :: Eval(r, v) == !Eval(x, v)
    ensures r == Not(x) <==> IsVar(x)
    ensures x.Node? ==> r.Node? && r.op == Dual(x.op) && r.args == x.args
    ensures IsLiteral(x) ==> IsLiteral(r) && LitName(r) == LitName(x)
  {
    match x
    case Var(_) => Not(x)
    case Not(a) => assert a < Not(a); a
    case Node(op, args) => Node(Dual(op), args)
  }

  /** Negating twice gives back the formula exactly when it is not a NOT over
      an operator node. */
  lemma NegateNegate(x: Formula)
    ensures Negate(Negate(x)) == x <==> !(x.Not? && IsOp(x.arg))
  {
    if x.Not? && x.arg.Not? {
      assert Negate(Negate(x)) == x.arg.arg;
      assert x.arg.arg != x;
    }
  }

  // ---------------------------------------------------------------------
  // Sizes, for termination of the stack loop in `deep_or`

  function Size(x: Formula): nat
    decreases x
  {
    match x
    case Var(_) => 1
    case Not(a) => 1 + Size(a)
    case Node(_, args) => 1 + SizeAll(args)
  }

  function SizeAll(xs: seq<Formula>): nat
    decreases xs
  {
    if xs == [] then 0 else SizeAll(xs[..|xs| - 1]) + Size(xs[|xs| - 1])
  }

  // ---------------------------------------------------------------------
  // Formulas the encoder accepts

  /** Built from variables, NOT over a variable, AND and OR: `tseitin_arg`
      has no case for a NOT over an operator and calls encoders for XOR, EQ,
      NAND and NOR that logic.js does not define. */
  predicate Encodable(x: Formula)
    decreases x
  {
    match x
    case Var(_) => true
    case Not(a) => a.Var?
    case Node(op, args) => (op == And || op == Or) && forall i :: 0 <= i < |args| ==> Encodable(args[i])
  }

  /** No variable name can clash with a name the encoder makes up. */
  predicate StarFree(n: string) { '*' !in n }

  predicate UserNamed(x: Formula)
    decreases x
  {
    match x
    case Var(n) => StarFree(n)
    case Not(a) => UserNamed(a)
    case Node(_, args) => forall i :: 0 <= i < |args| ==> UserNamed(args[i])
  }

  /** Two valuations that agree on every name without a `*` agree on every
      formula whose names have none. */
  lemma {:induction false} EvalUserAgree(x: Formula, w1: Valuation, w2: Valuation)
    requires UserNamed(x)
    requires forall n :: StarFree(n) ==> w1(n) == w2(n)
    ensures Eval(x, w1) == Eval(x, w2)
    decreases x
  {
    match x
    case Var(_) =>
    case Not(a) => EvalUserAgree(a, w1, w2);
    case Node(op, args) =>
      forall i | 0 <= i < |args| ensures Eval(args[i], w1) == Eval(args[i], w2) {
        EvalUserAgree(args[i], w1, w2);
      }
      assert EvalAll(args, w1) == EvalAll(args, w2);
  }

  // ---------------------------------------------------------------------
  // deep_or (logic.js:145-156)

  /** The maximal non-OR subterms of `x`, left to right. */
  function Disjuncts(x: Formula): seq<Formula>
    decreases x
  {
    if IsOr(x) then DisjunctsAll(x.args) else [x]
  }

  function DisjunctsAll(xs: seq<Formula>): seq<Formula>
    decreases xs
  {
    if xs == [] then [] else DisjunctsAll(xs[..|xs| - 1]) + Disjuncts(xs[|xs| - 1])
  }

  /** No disjunct is an OR, and disjuncts of an encodable (user-named)
      formula are encodable (user-named). */
  lemma {:induction false} DisjunctsShape(x: Formula)
    ensures forall i :: 0 <= i < |Disjuncts(x)| ==> !IsOr(Disjuncts(x)[i])
    ensures Encodable(x) ==> forall i :: 0 <= i < |Disjuncts(x)| ==> Encodable(Disjuncts(x)[i])
    ensures UserNamed(x) ==> forall i :: 0 <= i < |Disjuncts(x)| ==> UserNamed(Disjuncts(x)[i])
    decreases x, 1
  {
    if IsOr(x) {
      DisjunctsAllShape(x.args);
    }
  }

  lemma {:induction false} DisjunctsAllShape(xs: seq<Formula>)
    ensures forall i :: 0 <= i < |DisjunctsAll(xs)| ==> !IsOr(DisjunctsAll(xs)[i])
    ensures (forall j :: 0 <= j < |xs| ==> Encodable(xs[j]))
        ==> forall i :: 0 <= i < |DisjunctsAll(xs)| ==> Encodable(DisjunctsAll(xs)[i])
    ensures (forall j :: 0 <= j < |xs| ==> UserNamed(xs[j]))
        ==> forall i :: 0 <= i < |DisjunctsAll(xs)| ==> UserNamed(DisjunctsAll(xs)[i])
    decreases xs, 0
  {
    if xs != [] {
      var init, last := xs[..|xs| - 1], xs[|xs| - 1];
      DisjunctsAllShape(init);
      DisjunctsShape(last);
      var a, b := DisjunctsAll(init), Disjuncts(last);
      assert DisjunctsAll(xs) == a + b;
      assert forall i :: 0 <= i < |a| + |b| ==> (a + b)[i] == if i < |a| then a[i] else b[i - |a|];
    }
  }

  /** A formula is true exactly when one of its disjuncts is. */
  lemma {:induction false} DisjunctsEval(x: Formula, v: Valuation)
    ensures Eval(x, v) == ClauseSat(Disjuncts(x), v)
    decreases x, 1
  {
    if IsOr(x) {
      assert x == Node(Or, x.args);
      assert Disjuncts(x) == DisjunctsAll(x.args);
      EvalOr(x.args, v);
      DisjunctsAllEval(x.args, v);
    } else {
      assert Disjuncts(x)[0] == x;
    }
  }

  lemma {:induction false} DisjunctsAllEval(xs: seq<Formula>, v: Valuation)
    ensures ClauseSat(xs, v) == ClauseSat(DisjunctsAll(xs), v)
    decreases xs, 0
  {
    if xs != [] {
      var init, last := xs[..|xs| - 1], xs[|xs| - 1];
      var a, b := DisjunctsAll(init), Disjuncts(last);
      DisjunctsAllEval(init, v);
      DisjunctsEval(last, v);
      assert DisjunctsAll(xs) == a + b;
      if exists j :: 0 <= j < |xs| && Eval(xs[j], v) {
        var j :| 0 <= j < |xs| && Eval(xs[j], v);
        if j < |init| {
          assert Eval(init[j], v);
          var i :| 0 <= i < |a| && Eval(a[i], v);
          assert (a + b)[i] == a[i];
        } else {
          var i :| 0 <= i < |b| && Eval(b[i], v);
          assert (a + b)[|a| + i] == b[i];
        }
      }
      if exists i :: 0 <= i < |a + b| && Eval((a + b)[i], v) {
        var i :| 0 <= i < |a + b| && Eval((a + b)[i], v);
        if i < |a| {
          assert Eval(a[i], v);
          var j :| 0 <= j < |init| && Eval(init[j], v);
          assert xs[j] == init[j];
        } else {
          assert Eval(b[i - |a|], v);
          assert Eval(xs[|xs| - 1], v);
        }
      }
    }
  }

  /** A sequence backwards. */
  function Reversed(s: seq<Formula>): (r: seq<Formula>)
    ensures |r| == |s|
  {
    if s == [] then [] else [s[|s| - 1]] + Reversed(s[..|s| - 1])
  }

  // ---------------------------------------------------------------------
  // Fresh variable names (logic.js:119-120)

  /** The decimal digits of `n`, as JavaScript prints a number. */
  function NatToString(n: nat): (s: string)
    ensures |s| >= 1
    ensures forall i :: 0 <= i < |s| ==> '0' <= s[i] <= '9'
    decreases n
  {
    if n < 10 then [(48 + n) as char] else NatToString(n / 10) + [(48 + n % 10) as char]
  }

  lemma {:induction false} NatToStringInjective(a: nat, b: nat)
    requires NatToString(a) == NatToString(b)
    ensures a == b
    decreases a
  {
    var s := NatToString(a);
    if a >= 10 && b >= 10 {
      assert s[..|s| - 1] == NatToString(a / 10);
      assert NatToString(b) == NatToString(b / 10) + [(48 + b % 10) as char];
      assert s[..|s| - 1] == NatToString(b / 10);
      NatToStringInjective(a / 10, b / 10);
    }
  }

  /** `gensym(prefix)` once the counter has reached `k`. */
  function GensymName(prefix: string, k: nat): (s: string)
    ensures !StarFree(s)
  {
    prefix + "*" + NatToString(k)
  }

  /** Different counters give different names, whatever the prefixes, as
      long as the prefixes have no `*`. */
  lemma GensymNameInjective(p: string, q: string, k: nat, j: nat)
    requires StarFree(p) && StarFree(q)
    requires GensymName(p, k) == GensymName(q, j)
    ensures p == q && k == j
  {
    var s := GensymName(p, k);
    assert s == p + "*" + NatToString(k);
    assert s == q + "*" + NatToString(j);
    assert p == s[..|p|] == q;
    assert NatToString(k) == s[|p| + 1..] == NatToString(j);
    NatToStringInjective(k, j);
  }

  /** The names the encoder can make up while its counter goes from `lo` to `hi`. */
  function Fresh(lo: nat, hi: nat): set<string>
    decreases hi
  {
    if hi <= lo then {} else Fresh(lo, hi - 1) + {GensymName("or", hi), GensymName("and", hi)}
  }

  lemma FreshStep(lo: nat, hi: nat)
    requires lo < hi
    ensures Fresh(lo, hi - 1) <= Fresh(lo, hi)
    ensures GensymName("or", hi) in Fresh(lo, hi) && GensymName("and", hi) in Fresh(lo, hi)
  {
  }

  lemma {:induction false} FreshStarred(lo: nat, hi: nat, n: string)
    requires n in Fresh(lo, hi)
    ensures !StarFree(n)
    decreases hi
  {
    if hi > lo && n in Fresh(lo, hi - 1) {
      FreshStarred(lo, hi - 1, n);
    }
  }

  lemma {:induction false} FreshOutside(p: string, k: nat, lo: nat, hi: nat)
    requires p == "or" || p == "and"
    requires k <= lo || hi < k
    ensures GensymName(p, k) !in Fresh(lo, hi)
    decreases hi
  {
    if hi > lo {
      FreshOutside(p, k, lo, hi - 1);
      if GensymName(p, k) == GensymName("or", hi) {
        GensymNameInjective(p, "or", k, hi);
      }
      if GensymName(p, k) == GensymName("and", hi) {
        GensymNameInjective(p, "and", k, hi);
      }
    }
  }

  /** The names of a run are those of its first part and, disjoint from them,
      those of its second part. */
  lemma {:induction false} FreshSplit(a: nat, b: nat, c: nat)
    requires a <= b <= c
    ensures Fresh(a, c) == Fresh(a, b) + Fresh(b, c)
    ensures Fresh(a, b) !! Fresh(b, c)
    decreases c
  {
    if c > b {
      FreshSplit(a, b, c - 1);
      FreshOutside("or", c, a, b);
      FreshOutside("and", c, a, b);
    }
  }

  // ---------------------------------------------------------------------
  // Clauses and their names

  predicate ClauseSat(c: Clause, w: Valuation) {
    exists i :: 0 <= i < |c| && Eval(c[i], w)
  }

  predicate AllTrue(xs: seq<Formula>, w: Valuation) {
    forall i :: 0 <= i < |xs| ==> Eval(xs[i], w)
  }

  /** Two lists whose entries have the same values are true together and
      have a true entry together. */
  lemma SameValues(a: seq<Formula>, w1: Valuation, b: seq<Formula>, w2: Valuation)
    requires |a| == |b| && forall i :: 0 <= i < |a| ==> Eval(a[i], w1) == Eval(b[i], w2)
    ensures ClauseSat(a, w1) == ClauseSat(b, w2) && AllTrue(a, w1) == AllTrue(b, w2)
  {
    if ClauseSat(a, w1) {
      var i :| 0 <= i < |a| && Eval(a[i], w1);
      assert Eval(b[i], w2);
    }
    if ClauseSat(b, w2) {
      var i :| 0 <= i < |b| && Eval(b[i], w2);
      assert Eval(a[i], w1);
    }
  }

  predicate CnfSat(cls: seq<Clause>, w: Valuation) {
    forall k :: 0 <= k < |cls| ==> ClauseSat(cls[k], w)
  }

  lemma CnfSatAppend(a: seq<Clause>, b: seq<Clause>, w: Valuation)
    ensures CnfSat(a + b, w) <==> CnfSat(a, w) && CnfSat(b, w)
  {
    if CnfSat(a + b, w) {
      forall k | 0 <= k < |b| ensures ClauseSat(b[k], w) {
        assert (a + b)[|a| + k] == b[k];
      }
      forall k | 0 <= k < |a| ensures ClauseSat(a[k], w) {
        assert (a + b)[k] == a[k];
      }
    }
    if CnfSat(a, w) && CnfSat(b, w) {
      forall k | 0 <= k < |a + b| ensures ClauseSat((a + b)[k], w) {
        if k >= |a| {
          assert (a + b)[k] == b[k - |a|];
        }
      }
    }
  }

  lemma CnfSatSingle(c: Clause, w: Valuation)
    ensures CnfSat([c], w) <==> ClauseSat(c, w)
  {
    assert [c][0] == c;
  }

  /** `n` is a user's name or one of the made-up names in `S`. */
  predicate Owned(n: string, S: set<string>) { StarFree(n) || n in S }

  predicate LitIn(l: Formula, S: set<string>) { IsLiteral(l) && Owned(LitName(l), S) }

  predicate LitsIn(ls: seq<Formula>, S: set<string>) {
    forall i :: 0 <= i < |ls| ==> LitIn(ls[i], S)
  }

  predicate ClausesIn(cls: seq<Clause>, S: set<string>) {
    forall k :: 0 <= k < |cls| ==> LitsIn(cls[k], S)
  }

  /** The valuations agree on the user's names and on the made-up names in `S`. */
  ghost predicate AgreeOn(w1: Valuation, w2: Valuation, S: set<string>) {
    forall n :: Owned(n, S) ==> w1(n) == w2(n)
  }

  /** The valuations differ at most on the names in `S`. */
  ghost predicate SameOutside(w1: Valuation, w2: Valuation, S: set<string>) {
    forall n :: n !in S ==> w1(n) == w2(n)
  }

  lemma LitAgree(l: Formula, S: set<string>, w1: Valuation, w2: Valuation)
    requires LitIn(l, S) && AgreeOn(w1, w2, S)
    ensures Eval(l, w1) == Eval(l, w2)
  {
    assert Owned(LitName(l), S);
  }

  lemma ClausesAgree(cls: seq<Clause>, S: set<string>, w1: Valuation, w2: Valuation)
    requires ClausesIn(cls, S) && AgreeOn(w1, w2, S)
    ensures CnfSat(cls, w1) <==> CnfSat(cls, w2)
  {
    forall k | 0 <= k < |cls| ensures ClauseSat(cls[k], w1) <==> ClauseSat(cls[k], w2) {
      forall i | 0 <= i < |cls[k]| ensures Eval(cls[k][i], w1) == Eval(cls[k][i], w2) {
        assert LitsIn(cls[k], S);
        LitAgree(cls[k][i], S, w1, w2);
      }
    }
  }

  lemma ClausesInAppend(a: seq<Clause>, b: seq<Clause>, S: set<string>)
    requires ClausesIn(a, S) && ClausesIn(b, S)
    ensures ClausesIn(a + b, S)
  {
    forall k | 0 <= k < |a + b| ensures LitsIn((a + b)[k], S) {
      if k >= |a| {
        assert (a + b)[k] == b[k - |a|];
      }
    }
  }

  lemma ClausesInGrow(cls: seq<Clause>, S: set<string>, T: set<string>)
    requires ClausesIn(cls, S) && S <= T
    ensures ClausesIn(cls, T)
  {
    forall k, i | 0 <= k < |cls| && 0 <= i < |cls[k]| ensures LitIn(cls[k][i], T) {
      assert LitIn(cls[k][i], S);
    }
  }

  // ---------------------------------------------------------------------
  // The defining clauses of a fresh variable (logic.js:123-141)

  /** `g ∨ ¬b` for each `b`, in order. */
  function OrBackLinks(g: Formula, bs: seq<Formula>): (r: seq<Clause>)
    ensures |r| == |bs|
  {
    if bs == [] then [] else OrBackLinks(g, bs[..|bs| - 1]) + [[g, Negate(bs[|bs| - 1])]]
  }

  /** `¬g ∨ b` for each `b`, in order. */
  function AndBackLinks(g: Formula, bs: seq<Formula>): (r: seq<Clause>)
    ensures |r| == |bs|
  {
    if bs == [] then [] else AndBackLinks(g, bs[..|bs| - 1]) + [[Negate(g), bs[|bs| - 1]]]
  }

  function NegateAll(bs: seq<Formula>): seq<Formula> {
    seq(|bs|, i requires 0 <= i < |bs| => Negate(bs[i]))
  }

  /** `tseitin_or`: `¬g ∨ b1 ∨ … ∨ bn`, then `g ∨ ¬bi` for each `i`. */
  function OrTemplate(g: Formula, bs: seq<Formula>): (r: seq<Clause>)
    ensures |r| == 1 + |bs|
  {
    [[Negate(g)] + bs] + OrBackLinks(g, bs)
  }

  /** `tseitin_and`: `g ∨ ¬b1 ∨ … ∨ ¬bn`, then `¬g ∨ bi` for each `i`. */
  function AndTemplate(g: Formula, bs: seq<Formula>): (r: seq<Clause>)
    ensures |r| == 1 + |bs|
  {
    [[g] + NegateAll(bs)] + AndBackLinks(g, bs)
  }

  lemma ClauseOfTwo(a: Formula, b: Formula, w: Valuation)
    ensures CnfSat([[a, b]], w) <==> Eval(a, w) || Eval(b, w)
  {
    var c: Clause := [a, b];
    CnfSatSingle(c, w);
    if Eval(a, w) { assert Eval(c[0], w); }
    if Eval(b, w) { assert Eval(c[1], w); }
  }

  lemma {:induction false} OrBackLinksSat(g: Formula, bs: seq<Formula>, w: Valuation)
    ensures CnfSat(OrBackLinks(g, bs), w) <==> forall i :: 0 <= i < |bs| && Eval(bs[i], w) ==> Eval(g, w)
    decreases |bs|
  {
    if bs != [] {
      var init, b := bs[..|bs| - 1], bs[|bs| - 1];
      OrBackLinksSat(g, init, w);
      CnfSatAppend(OrBackLinks(g, init), [[g, Negate(b)]], w);
      ClauseOfTwo(g, Negate(b), w);
      assert forall i :: 0 <= i < |init| ==> init[i] == bs[i];
    }
  }

  lemma {:induction false} AndBackLinksSat(g: Formula, bs: seq<Formula>, w: Valuation)
    ensures CnfSat(AndBackLinks(g, bs), w) <==> (Eval(g, w) ==> forall i :: 0 <= i < |bs| ==> Eval(bs[i], w))
    decreases |bs|
  {
    if bs != [] {
      var init, b := bs[..|bs| - 1], bs[|bs| - 1];
      AndBackLinksSat(g, init, w);
      CnfSatAppend(AndBackLinks(g, init), [[Negate(g), b]], w);
      ClauseOfTwo(Negate(g), b, w);
      assert forall i :: 0 <= i < |init| ==> init[i] == bs[i];
    }
  }

  /** The first clause of `tseitin_or` holds unless `g` is true and every `b` false. */
  lemma OrHeadMeaning(g: Formula, bs: seq<Formula>, w: Valuation)
    ensures ClauseSat([Negate(g)] + bs, w) <==> !Eval(g, w) || ClauseSat(bs, w)
  {
    var head: Clause := [Negate(g)] + bs;
    if ClauseSat(bs, w) {
      var i :| 0 <= i < |bs| && Eval(bs[i], w);
      assert head[i + 1] == bs[i];
    }
    if !Eval(g, w) {
      assert Eval(head[0], w);
    }
    if ClauseSat(head, w) && Eval(g, w) {
      var i :| 0 <= i < |head| && Eval(head[i], w);
      assert i > 0 && head[i] == bs[i - 1];
    }
  }

  /** The clauses of `tseitin_or` hold exactly when `g` is the OR of `bs`. */
  lemma OrTemplateMeaning(g: Formula, bs: seq<Formula>, w: Valuation)
    ensures CnfSat(OrTemplate(g, bs), w) <==> Eval(g, w) == ClauseSat(bs, w)
  {
    var head: Clause := [Negate(g)] + bs;
    OrHeadMeaning(g, bs, w);
    OrBackLinksSat(g, bs, w);
    CnfSatAppend([head], OrBackLinks(g, bs), w);
    CnfSatSingle(head, w);
  }

  /** The first clause of `tseitin_and` holds unless `g` is false and every `b` true. */
  lemma AndHeadMeaning(g: Formula, bs: seq<Formula>, w: Valuation)
    ensures ClauseSat([g] + NegateAll(bs), w) <==> Eval(g, w) || !AllTrue(bs, w)
  {
    var head: Clause := [g] + NegateAll(bs);
    if !AllTrue(bs, w) {
      var i :| 0 <= i < |bs| && !Eval(bs[i], w);
      assert head[i + 1] == Negate(bs[i]);
    }
    if Eval(g, w) {
      assert Eval(head[0], w);
    }
    if ClauseSat(head, w) && !Eval(g, w) {
      var i :| 0 <= i < |head| && Eval(head[i], w);
      assert i > 0 && head[i] == Negate(bs[i - 1]);
    }
  }

  /** The clauses of `tseitin_and` hold exactly when `g` is the AND of `bs`. */
  lemma AndTemplateMeaning(g: Formula, bs: seq<Formula>, w: Valuation)
    ensures CnfSat(AndTemplate(g, bs), w) <==> Eval(g, w) == AllTrue(bs, w)
  {
    var head: Clause := [g] + NegateAll(bs);
    AndHeadMeaning(g, bs, w);
    AndBackLinksSat(g, bs, w);
    CnfSatAppend([head], AndBackLinks(g, bs), w);
    CnfSatSingle(head, w);
  }

  lemma {:induction false} BackLinksNames(g: Formula, bs: seq<Formula>, S: set<string>)
    requires LitIn(g, S) && LitsIn(bs, S)
    ensures ClausesIn(OrBackLinks(g, bs), S) && ClausesIn(AndBackLinks(g, bs), S)
    decreases |bs|
  {
    if bs != [] {
      var init, b := bs[..|bs| - 1], bs[|bs| - 1];
      assert LitsIn(init, S) by {
        assert forall i :: 0 <= i < |init| ==> init[i] == bs[i];
      }
      BackLinksNames(g, init, S);
      assert LitIn(b, S);
      var orLink: Clause := [g, Negate(b)];
      var andLink: Clause := [Negate(g), b];
      assert LitsIn(orLink, S) && LitsIn(andLink, S);
      ClausesInAppend(OrBackLinks(g, init), [orLink], S);
      ClausesInAppend(AndBackLinks(g, init), [andLink], S);
    }
  }

  lemma TemplateNames(g: Formula, bs: seq<Formula>, S: set<string>)
    requires LitIn(g, S) && LitsIn(bs, S)
    ensures ClausesIn(OrTemplate(g, bs), S) && ClausesIn(AndTemplate(g, bs), S)
  {
    BackLinksNames(g, bs, S);
    var orHead: Clause := [Negate(g)] + bs;
    var andHead: Clause := [g] + NegateAll(bs);
    assert LitsIn(orHead, S) by {
      forall i | 0 <= i < |orHead| ensures LitIn(orHead[i], S) {
        if i > 0 { assert orHead[i] == bs[i - 1]; }
      }
    }
    assert LitsIn(andHead, S) by {
      forall i | 0 <= i < |andHead| ensures LitIn(andHead[i], S) {
        if i > 0 { assert andHead[i] == Negate(bs[i - 1]); }
      }
    }
    ClausesInAppend([orHead], OrBackLinks(g, bs), S);
    ClausesInAppend([andHead], AndBackLinks(g, bs), S);
  }

  // ---------------------------------------------------------------------
  // What the encoder computes, as functions of the formula and the counter

  /** The literal standing for a subformula, the clauses defining the fresh
      variables made for it, and the counter afterwards. */
  datatype LitCode = LitCode(lit: Formula, defs: seq<Clause>, next: nat)

  datatype LitsCode = LitsCode(lits: seq<Formula>, defs: seq<Clause>, next: nat)

  datatype CnfCode = CnfCode(clauses: seq<Clause>, next: nat)

  /** `tseitin_arg`: a literal stands for itself; an AND or OR node gets a
      fresh variable defined after the clauses of its arguments. */
  function EncodeArg(x: Formula, id: nat): (r: LitCode)
    requires Encodable(x)
    ensures IsLiteral(r.lit) && r.next >= id
    ensures IsLiteral(x) <==> r.next == id
    decreases x, 0
  {
    if IsLiteral(x) then LitCode(x, [], id)
    else
      var a := EncodeArgs(x.args, id);
      var g := Var(GensymName(if x.op == Or then "or" else "and", a.next + 1));
      LitCode(g, a.defs + (if x.op == Or then OrTemplate(g, a.lits) else AndTemplate(g, a.lits)), a.next + 1)
  }

  /** `tseitin_args`: the arguments encoded left to right. */
  function EncodeArgs(xs: seq<Formula>, id: nat): (r: LitsCode)
    requires forall i :: 0 <= i < |xs| ==> Encodable(xs[i])
    ensures |r.lits| == |xs| && r.next >= id
    ensures forall i :: 0 <= i < |r.lits| ==> IsLiteral(r.lits[i])
    decreases xs, 1
  {
    if xs == [] then LitsCode([], [], id)
    else
      var a := EncodeArgs(xs[..|xs| - 1], id);
      var b := EncodeArg(xs[|xs| - 1], a.next);
      LitsCode(a.lits + [b.lit], a.defs + b.defs, b.next)
  }

  /** `tseitin_ors`: the clause for a non-AND subformula, one literal per disjunct. */
  function EncodeOrs(x: Formula, id: nat): (r: LitsCode)
    requires Encodable(x)
    ensures |r.lits| == |Disjuncts(x)|
  {
    DisjunctsShape(x);
    if IsLiteral(x) then LitsCode([x], [], id) else EncodeArgs(Disjuncts(x), id)
  }

  /** `tseitin_ands`: AND nodes are entered; every other subformula adds the
      definitions it needs and then its own clause. */
  function EncodeAnds(x: Formula, id: nat): (r: CnfCode)
    requires Encodable(x)
    ensures r.next >= id
    decreases x, 0
  {
    if x.Node? && x.op == And then EncodeAndsAll(x.args, id)
    else
      var o := EncodeOrs(x, id);
      CnfCode(o.defs + [o.lits], o.next)
  }

  function EncodeAndsAll(xs: seq<Formula>, id: nat): (r: CnfCode)
    requires forall i :: 0 <= i < |xs| ==> Encodable(xs[i])
    ensures r.next >= id
    decreases xs, 1
  {
    if xs == [] then CnfCode([], id)
    else
      var a := EncodeAndsAll(xs[..|xs| - 1], id);
      var b := EncodeAnds(xs[|xs| - 1], a.next);
      CnfCode(a.clauses + b.clauses, b.next)
  }

  /** `tseitin(x)`: the clauses of a fresh encoder. */
  function CnfOf(x: Formula): seq<Clause>
    requires Encodable(x)
  {
    EncodeAnds(x, 0).clauses
  }

  // ---------------------------------------------------------------------
  // The encoder object (logic.js:70-158)

  class TseitinEncoder {
    var clauses: seq<Clause>
    var gensymId: nat

    constructor ()
      ensures clauses == [] && gensymId == 0
    {
      clauses := [];
      gensymId := 0;
    }

    method Encode(x: Formula)
      requires Encodable(x)
      modifies this
      ensures clauses == old(clauses) + EncodeAnds(x, old(gensymId)).clauses
      ensures gensymId == EncodeAnds(x, old(gensymId)).next
    {
      TseitinAnds(x);
    }

    method TseitinAnds(x: Formula)
      requires Encodable(x)
      modifies this
      ensures clauses == old(clauses) + EncodeAnds(x, old(gensymId)).clauses
      ensures gensymId == EncodeAnds(x, old(gensymId)).next
      decreases x
    {
      if x.Node? && x.op == And {
        var args := x.args;
        for k := 0 to |args|
          invariant clauses == old(clauses) + EncodeAndsAll(args[..k], old(gensymId)).clauses
          invariant gensymId == EncodeAndsAll(args[..k], old(gensymId)).next
        {
          assert args[..k + 1][..k] == args[..k];
          TseitinAnds(args[k]);
        }
        assert args[..|args|] == args;
      } else {
        var clause := TseitinOrs(x);
        AddClause(clause);
      }
    }

    method AddClause(clause: Clause)
      modifies this
      ensures clauses == old(clauses) + [clause] && gensymId == old(gensymId)
    {
      clauses := clauses + [clause];
    }

    method TseitinOrs(x: Formula) returns (clause: Clause)
      requires Encodable(x)
      modifies this
      ensures clause == EncodeOrs(x, old(gensymId)).lits
      ensures clauses == old(clauses) + EncodeOrs(x, old(gensymId)).defs
      ensures gensymId == EncodeOrs(x, old(gensymId)).next
    {
      if IsLiteral(x) {
        return [x];
      }
      var vs := DeepOr(x);
      DisjunctsShape(x);
      clause := TseitinArgs(vs);
    }

    method TseitinArgs(args: seq<Formula>) returns (lits: seq<Formula>)
      requires forall i :: 0 <= i < |args| ==> Encodable(args[i])
      modifies this
      ensures lits == EncodeArgs(args, old(gensymId)).lits
      ensures clauses == old(clauses) + EncodeArgs(args, old(gensymId)).defs
      ensures gensymId == EncodeArgs(args, old(gensymId)).next
      decreases args, 1
    {
      lits := [];
      for k := 0 to |args|
        invariant lits == EncodeArgs(args[..k], old(gensymId)).lits
        invariant clauses == old(clauses) + EncodeArgs(args[..k], old(gensymId)).defs
        invariant gensymId == EncodeArgs(args[..k], old(gensymId)).next
      {
        ArgsSnoc(args, k, old(gensymId));
        ClausesAssoc(old(clauses), EncodeArgs(args[..k], old(gensymId)).defs, EncodeArg(args[k], gensymId).defs);
        var lit := TseitinArg(args[k]);
        lits := lits + [lit];
      }
      assert args[..|args|] == args;
    }

    method TseitinArg(x: Formula) returns (lit: Formula)
      requires Encodable(x)
      modifies this
      ensures lit == EncodeArg(x, old(gensymId)).lit
      ensures clauses == old(clauses) + EncodeArg(x, old(gensymId)).defs
      ensures gensymId == EncodeArg(x, old(gensymId)).next
      decreases x, 0
    {
      if IsLiteral(x) {
        return x;
      }
      ArgNode(x, gensymId);
      ghost var a := EncodeArgs(x.args, gensymId);
      var bs := TseitinArgs(x.args);
      if x.op == Or {
        lit := TseitinOr(bs);
        ClausesAssoc(old(clauses), a.defs, OrTemplate(lit, a.lits));
      } else {
        lit := TseitinAnd(bs);
        ClausesAssoc(old(clauses), a.defs, AndTemplate(lit, a.lits));
      }
    }

    method Gensym(prefix: string) returns (name: string)
      modifies this
      ensures gensymId == old(gensymId) + 1 && clauses == old(clauses)
      ensures name == GensymName(prefix, gensymId)
    {
      gensymId := gensymId + 1;
      name := prefix + "*" + NatToString(gensymId);
    }

    method TseitinOr(bs: seq<Formula>) returns (g: Formula)
      modifies this
      ensures g == Var(GensymName("or", old(gensymId) + 1)) && gensymId == old(gensymId) + 1
      ensures clauses == old(clauses) + OrTemplate(g, bs)
    {
      var name := Gensym("or");
      g := Var(name);
      AddClause([Negate(g)] + bs);
      for k := 0 to |bs|
        invariant gensymId == old(gensymId) + 1
        invariant clauses == old(clauses) + [[Negate(g)] + bs] + OrBackLinks(g, bs[..k])
      {
        assert bs[..k + 1][..k] == bs[..k];
        AddClause([g, Negate(bs[k])]);
      }
      assert bs[..|bs|] == bs;
    }

    method TseitinAnd(bs: seq<Formula>) returns (g: Formula)
      modifies this
      ensures g == Var(GensymName("and", old(gensymId) + 1)) && gensymId == old(gensymId) + 1
      ensures clauses == old(clauses) + AndTemplate(g, bs)
    {
      var name := Gensym("and");
      g := Var(name);
      AddClause([g] + NegateAll(bs));
      for k := 0 to |bs|
        invariant gensymId == old(gensymId) + 1
        invariant clauses == old(clauses) + [[g] + NegateAll(bs)] + AndBackLinks(g, bs[..k])
      {
        assert bs[..k + 1][..k] == bs[..k];
        AddClause([Negate(g), bs[k]]);
      }
      assert bs[..|bs|] == bs;
    }

    /** `deep_or`: pop from a stack, keep non-OR terms, push the arguments of
        OR terms, and reverse what was kept. */
    method DeepOr(x0: Formula) returns (res: seq<Formula>)
      ensures res == Disjuncts(x0)
    {
      res := [];
      var stack := [x0];
      StackPush([], x0);
      while |stack| > 0
        invariant DisjunctsAll(stack) + Reversed(res) == Disjuncts(x0)
        decreases SizeAll(stack)
      {
        var x := stack[|stack| - 1];
        ghost var top := stack;
        stack := stack[..|stack| - 1];
        StackPop(top, stack, x);
        if !IsOr(x) {
          KeepStep(stack, res, x, Disjuncts(x0));
          res := res + [x];
        } else {
          ghost var below := stack;
          stack := PushAll(stack, x.args);
          OrStep(stack, below, res, x, Disjuncts(x0));
        }
      }
      res := Reversed(res);
    }
  }

  /** The inner loop of `deep_or`: push the arguments of an OR term, in order. */
  method PushAll(below: seq<Formula>, args: seq<Formula>) returns (stack: seq<Formula>)
    ensures DisjunctsAll(stack) == DisjunctsAll(below) + DisjunctsAll(args)
    ensures SizeAll(stack) == SizeAll(below) + SizeAll(args)
  {
    stack := below;
    for k := 0 to |args|
      invariant DisjunctsAll(stack) == DisjunctsAll(below) + DisjunctsAll(args[..k])
      invariant SizeAll(stack) == SizeAll(below) + SizeAll(args[..k])
    {
      PushArg(stack, below, args, k);
      stack := stack + [args[k]];
    }
    assert args[..|args|] == args;
  }

  lemma ClausesAssoc(a: seq<Clause>, b: seq<Clause>, c: seq<Clause>)
    ensures (a + b) + c == a + (b + c)
  {
  }

  /** `EncodeArgs` over one more argument. */
  lemma ArgsSnoc(args: seq<Formula>, k: nat, id: nat)
    requires k < |args| && forall i :: 0 <= i < |args| ==> Encodable(args[i])
    ensures var a := EncodeArgs(args[..k], id); var b := EncodeArg(args[k], a.next);
      EncodeArgs(args[..k + 1], id) == LitsCode(a.lits + [b.lit], a.defs + b.defs, b.next)
  {
    assert args[..k + 1][..k] == args[..k];
  }

  /** `EncodeArg` on an AND or OR node. */
  lemma ArgNode(x: Formula, id: nat)
    requires Encodable(x) && !IsLiteral(x)
    ensures var a := EncodeArgs(x.args, id); var r := EncodeArg(x, id);
      r.next == a.next + 1 && r.lit == Var(GensymName(if x.op == Or then "or" else "and", a.next + 1))
      && r.defs == a.defs + (if x.op == Or then OrTemplate(r.lit, a.lits) else AndTemplate(r.lit, a.lits))
  {
  }

  /** Popping the top of the stack in `deep_or`. */
  lemma StackPop(top: seq<Formula>, stack: seq<Formula>, x: Formula)
    requires |top| > 0 && stack == top[..|top| - 1] && x == top[|top| - 1]
    ensures DisjunctsAll(top) == DisjunctsAll(stack) + Disjuncts(x)
    ensures SizeAll(top) == SizeAll(stack) + Size(x)
  {
  }

  /** A popped non-OR term is kept. */
  lemma KeepStep(stack: seq<Formula>, res: seq<Formula>, x: Formula, target: seq<Formula>)
    requires !IsOr(x) && (DisjunctsAll(stack) + Disjuncts(x)) + Reversed(res) == target
    ensures DisjunctsAll(stack) + Reversed(res + [x]) == target
  {
    ReversedPush(res, x);
    SeqAssoc(DisjunctsAll(stack), [x], Reversed(res));
  }

  /** A popped OR has been replaced by its arguments. */
  lemma OrStep(stack: seq<Formula>, below: seq<Formula>, res: seq<Formula>, x: Formula, target: seq<Formula>)
    requires IsOr(x) && (DisjunctsAll(below) + Disjuncts(x)) + Reversed(res) == target
    requires DisjunctsAll(stack) == DisjunctsAll(below) + DisjunctsAll(x.args)
    requires SizeAll(stack) == SizeAll(below) + SizeAll(x.args)
    ensures DisjunctsAll(stack) + Reversed(res) == target
    ensures SizeAll(stack) < SizeAll(below) + Size(x)
  {
  }

  lemma StackPush(stack: seq<Formula>, t: Formula)
    ensures DisjunctsAll(stack + [t]) == DisjunctsAll(stack) + Disjuncts(t)
    ensures SizeAll(stack + [t]) == SizeAll(stack) + Size(t)
  {
    assert (stack + [t])[..|stack|] == stack;
  }

  /** One step of the loop in `deep_or` that pushes the arguments of an OR. */
  lemma PushArg(stack: seq<Formula>, below: seq<Formula>, args: seq<Formula>, k: nat)
    requires k < |args|
    requires DisjunctsAll(stack) == DisjunctsAll(below) + DisjunctsAll(args[..k])
    requires SizeAll(stack) == SizeAll(below) + SizeAll(args[..k])
    ensures DisjunctsAll(stack + [args[k]]) == DisjunctsAll(below) + DisjunctsAll(args[..k + 1])
    ensures SizeAll(stack + [args[k]]) == SizeAll(below) + SizeAll(args[..k + 1])
  {
    var t, p := args[k], args[..k + 1];
    StackPush(stack, t);
    assert DisjunctsAll(p) == DisjunctsAll(args[..k]) + Disjuncts(t) && SizeAll(p) == SizeAll(args[..k]) + Size(t) by {
      assert p[..|p| - 1] == args[..k];
    }
    SeqAssoc(DisjunctsAll(below), DisjunctsAll(args[..k]), Disjuncts(t));
  }

  lemma SeqAssoc(a: seq<Formula>, b: seq<Formula>, c: seq<Formula>)
    ensures (a + b) + c == a + (b + c)
  {
  }

  lemma ReversedPush(s: seq<Formula>, x: Formula)
    ensures Reversed(s + [x]) == [x] + Reversed(s)
  {
    assert (s + [x])[..|s|] == s;
  }

  /** `tseitin(x)`. */
  method Tseitin(x: Formula) returns (cls: seq<Clause>)
    requires Encodable(x)
    ensures cls == CnfOf(x)
  {
    var e := new TseitinEncoder();
    e.Encode(x);
    cls := e.clauses;
  }

  // ---------------------------------------------------------------------
  // Names in the output

  lemma LitsInGrow(ls: seq<Formula>, S: set<string>, T: set<string>)
    requires LitsIn(ls, S) && S <= T
    ensures LitsIn(ls, T)
  {
    forall i | 0 <= i < |ls| ensures LitIn(ls[i], T) {
      assert LitIn(ls[i], S);
    }
  }

  lemma StarFreeNotFresh(lo: nat, hi: nat)
    ensures forall n :: StarFree(n) ==> n !in Fresh(lo, hi)
  {
    forall n | n in Fresh(lo, hi) ensures !StarFree(n) {
      FreshStarred(lo, hi, n);
    }
  }

  /** Every literal the encoder emits for `x` is a literal over a name of
      the user or a name made up while encoding `x`. */
  lemma {:induction false} ArgNames(x: Formula, id: nat)
    requires Encodable(x) && UserNamed(x)
    ensures LitIn(EncodeArg(x, id).lit, Fresh(id, EncodeArg(x, id).next))
    ensures ClausesIn(EncodeArg(x, id).defs, Fresh(id, EncodeArg(x, id).next))
    decreases x, 0
  {
    if !IsLiteral(x) {
      var a := EncodeArgs(x.args, id);
      ArgsNames(x.args, id);
      var e := EncodeArg(x, id);
      var S := Fresh(id, e.next);
      assert Fresh(id, a.next) <= S && LitIn(e.lit, S) by {
        FreshStep(id, e.next);
      }
      var t := if x.op == Or then OrTemplate(e.lit, a.lits) else AndTemplate(e.lit, a.lits);
      assert ClausesIn(t, S) by {
        LitsInGrow(a.lits, Fresh(id, a.next), S);
        TemplateNames(e.lit, a.lits, S);
      }
      ClausesInGrow(a.defs, Fresh(id, a.next), S);
      assert e.defs == a.defs + t;
      ClausesInAppend(a.defs, t, S);
    } else {
      assert LitName(x) == if x.Var? then x.name else x.arg.name;
    }
  }

  lemma {:induction false} ArgsNames(xs: seq<Formula>, id: nat)
    requires forall i :: 0 <= i < |xs| ==> Encodable(xs[i]) && UserNamed(xs[i])
    ensures LitsIn(EncodeArgs(xs, id).lits, Fresh(id, EncodeArgs(xs, id).next))
    ensures ClausesIn(EncodeArgs(xs, id).defs, Fresh(id, EncodeArgs(xs, id).next))
    decreases xs, 1
  {
    if xs != [] {
      var init, last := xs[..|xs| - 1], xs[|xs| - 1];
      var a := EncodeArgs(init, id);
      var b := EncodeArg(last, a.next);
      ArgsNames(init, id);
      ArgNames(last, a.next);
      FreshSplit(id, a.next, b.next);
      var S := Fresh(id, b.next);
      LitsInGrow(a.lits, Fresh(id, a.next), S);
      ClausesInGrow(a.defs, Fresh(id, a.next), S);
      ClausesInGrow(b.defs, Fresh(a.next, b.next), S);
      ClausesInAppend(a.defs, b.defs, S);
      assert LitIn(b.lit, S);
      assert LitsIn(a.lits + [b.lit], S) by {
        forall i | 0 <= i < |a.lits| + 1 ensures LitIn((a.lits + [b.lit])[i], S) {
          if i < |a.lits| {
            assert (a.lits + [b.lit])[i] == a.lits[i];
          }
        }
      }
    }
  }

  lemma OrsNames(x: Formula, id: nat)
    requires Encodable(x) && UserNamed(x)
    ensures LitsIn(EncodeOrs(x, id).lits, Fresh(id, EncodeOrs(x, id).next))
    ensures ClausesIn(EncodeOrs(x, id).defs, Fresh(id, EncodeOrs(x, id).next))
  {
    DisjunctsShape(x);
    if IsLiteral(x) {
      assert LitIn(x, Fresh(id, id)) by {
        assert LitName(x) == if x.Var? then x.name else x.arg.name;
      }
    } else {
      ArgsNames(Disjuncts(x), id);
    }
  }

  lemma {:induction false} AndsNames(x: Formula, id: nat)
    requires Encodable(x) && UserNamed(x)
    ensures ClausesIn(EncodeAnds(x, id).clauses, Fresh(id, EncodeAnds(x, id).next))
    decreases x, 0
  {
    if x.Node? && x.op == And {
      AndsAllNames(x.args, id);
    } else {
      var o := EncodeOrs(x, id);
      OrsNames(x, id);
      ClausesInAppend(o.defs, [o.lits], Fresh(id, o.next));
    }
  }

  lemma {:induction false} AndsAllNames(xs: seq<Formula>, id: nat)
    requires forall i :: 0 <= i < |xs| ==> Encodable(xs[i]) && UserNamed(xs[i])
    ensures ClausesIn(EncodeAndsAll(xs, id).clauses, Fresh(id, EncodeAndsAll(xs, id).next))
    decreases xs, 1
  {
    if xs != [] {
      var init, last := xs[..|xs| - 1], xs[|xs| - 1];
      var a := EncodeAndsAll(init, id);
      var b := EncodeAnds(last, a.next);
      AndsAllNames(init, id);
      AndsNames(last, a.next);
      FreshSplit(id, a.next, b.next);
      ClausesInGrow(a.clauses, Fresh(id, a.next), Fresh(id, b.next));
      ClausesInGrow(b.clauses, Fresh(a.next, b.next), Fresh(id, b.next));
      ClausesInAppend(a.clauses, b.clauses, Fresh(id, b.next));
    }
  }

  // ---------------------------------------------------------------------
  // Literals only, whatever the names

  /** Every entry of every clause is a variable or the NOT of one. */
  predicate LiteralClauses(cls: seq<Clause>) {
    forall k, i :: 0 <= k < |cls| && 0 <= i < |cls[k]| ==> IsLiteral(cls[k][i])
  }

  lemma LiteralClausesAppend(a: seq<Clause>, b: seq<Clause>)
    requires LiteralClauses(a) && LiteralClauses(b)
    ensures LiteralClauses(a + b)
  {
    forall k, i | 0 <= k < |a + b| && 0 <= i < |(a + b)[k]| ensures IsLiteral((a + b)[k][i]) {
      if k >= |a| {
        assert (a + b)[k] == b[k - |a|];
      } else {
        assert (a + b)[k] == a[k];
      }
    }
  }

  lemma {:induction false} BackLinksLiterals(g: Formula, bs: seq<Formula>)
    requires IsLiteral(g) && forall i :: 0 <= i < |bs| ==> IsLiteral(bs[i])
    ensures LiteralClauses(OrBackLinks(g, bs)) && LiteralClauses(AndBackLinks(g, bs))
    decreases |bs|
  {
    if bs != [] {
      var init, b := bs[..|bs| - 1], bs[|bs| - 1];
      BackLinksLiterals(g, init);
      var orLink: Clause := [g, Negate(b)];
      var andLink: Clause := [Negate(g), b];
      assert LiteralClauses([orLink]) && LiteralClauses([andLink]);
      LiteralClausesAppend(OrBackLinks(g, init), [orLink]);
      LiteralClausesAppend(AndBackLinks(g, init), [andLink]);
    }
  }

  lemma TemplateLiterals(g: Formula, bs: seq<Formula>)
    requires IsLiteral(g) && forall i :: 0 <= i < |bs| ==> IsLiteral(bs[i])
    ensures LiteralClauses(OrTemplate(g, bs)) && LiteralClauses(AndTemplate(g, bs))
  {
    BackLinksLiterals(g, bs);
    var orHead: Clause := [Negate(g)] + bs;
    var andHead: Clause := [g] + NegateAll(bs);
    assert LiteralClauses([orHead]) by {
      forall i | 0 <= i < |orHead| ensures IsLiteral(orHead[i]) {
        if i > 0 { assert orHead[i] == bs[i - 1]; }
      }
    }
    assert LiteralClauses([andHead]) by {
      forall i | 0 <= i < |andHead| ensures IsLiteral(andHead[i]) {
        if i > 0 { assert andHead[i] == Negate(bs[i - 1]); }
      }
    }
    LiteralClausesAppend([orHead], OrBackLinks(g, bs));
    LiteralClausesAppend([andHead], AndBackLinks(g, bs));
  }

  /** The defining clauses the encoder emits for any encodable `x` are made of literals. */
  lemma {:induction false} ArgLiterals(x: Formula, id: nat)
    requires Encodable(x)
    ensures LiteralClauses(EncodeArg(x, id).defs)
    decreases x, 0
  {
    if !IsLiteral(x) {
      var a := EncodeArgs(x.args, id);
      ArgsLiterals(x.args, id);
      var e := EncodeArg(x, id);
      TemplateLiterals(e.lit, a.lits);
      var t := if x.op == Or then OrTemplate(e.lit, a.lits) else AndTemplate(e.lit, a.lits);
      assert e.defs == a.defs + t;
      LiteralClausesAppend(a.defs, t);
    }
  }

  lemma {:induction false} ArgsLiterals(xs: seq<Formula>, id: nat)
    requires forall i :: 0 <= i < |xs| ==> Encodable(xs[i])
    ensures LiteralClauses(EncodeArgs(xs, id).defs)
    decreases xs, 1
  {
    if xs != [] {
      var init, last := xs[..|xs| - 1], xs[|xs| - 1];
      var a := EncodeArgs(init, id);
      ArgsLiterals(init, id);
      ArgLiterals(last, a.next);
      LiteralClausesAppend(a.defs, EncodeArg(last, a.next).defs);
    }
  }

  lemma {:induction false} AndsLiterals(x: Formula, id: nat)
    requires Encodable(x)
    ensures LiteralClauses(EncodeAnds(x, id).clauses)
    decreases x, 0
  {
    if x.Node? && x.op == And {
      AndsAllLiterals(x.args, id);
    } else {
      var o := EncodeOrs(x, id);
      DisjunctsShape(x);
      if !IsLiteral(x) {
        ArgsLiterals(Disjuncts(x), id);
      }
      assert LiteralClauses([o.lits]);
      LiteralClausesAppend(o.defs, [o.lits]);
    }
  }

  lemma {:induction false} AndsAllLiterals(xs: seq<Formula>, id: nat)
    requires forall i :: 0 <= i < |xs| ==> Encodable(xs[i])
    ensures LiteralClauses(EncodeAndsAll(xs, id).clauses)
    decreases xs, 1
  {
    if xs != [] {
      var init, last := xs[..|xs| - 1], xs[|xs| - 1];
      var a := EncodeAndsAll(init, id);
      AndsAllLiterals(init, id);
      AndsLiterals(last, a.next);
      LiteralClausesAppend(a.clauses, EncodeAnds(last, a.next).clauses);
    }
  }

  /** Every clause of `tseitin(x)` is made of literals; when the user's names
      are star-free, they are over the names of `x` and the names `or*k`,
      `and*k` for the counter values it used. */
  lemma TseitinNames(x: Formula)
    requires Encodable(x)
    ensures forall k, i :: 0 <= k < |CnfOf(x)| && 0 <= i < |CnfOf(x)[k]| ==> IsLiteral(CnfOf(x)[k][i])
    ensures UserNamed(x) ==> forall k, i :: 0 <= k < |CnfOf(x)| && 0 <= i < |CnfOf(x)[k]| ==>
      Owned(LitName(CnfOf(x)[k][i]), Fresh(0, EncodeAnds(x, 0).next))
  {
    AndsLiterals(x, 0);
    var cls := CnfOf(x);
    if UserNamed(x) {
      AndsNames(x, 0);
      forall k, i | 0 <= k < |cls| && 0 <= i < |cls[k]|
        ensures Owned(LitName(cls[k][i]), Fresh(0, EncodeAnds(x, 0).next))
      {
        assert LitsIn(cls[k], Fresh(0, EncodeAnds(x, 0).next));
      }
    }
  }

  // ---------------------------------------------------------------------
  // Soundness: a model of the clauses is a model of the formula

  lemma {:induction false} ArgSound(x: Formula, id: nat, w: Valuation)
    requires Encodable(x)
    ensures CnfSat(EncodeArg(x, id).defs, w) ==> Eval(EncodeArg(x, id).lit, w) == Eval(x, w)
    decreases x, 0
  {
    if !IsLiteral(x) && CnfSat(EncodeArg(x, id).defs, w) {
      var a := EncodeArgs(x.args, id);
      var g := EncodeArg(x, id).lit;
      ArgsSound(x.args, id, w);
      if x.op == Or {
        CnfSatAppend(a.defs, OrTemplate(g, a.lits), w);
        OrTemplateMeaning(g, a.lits, w);
        assert x == Node(Or, x.args);
        EvalOr(x.args, w);
        SameValues(a.lits, w, x.args, w);
      } else {
        CnfSatAppend(a.defs, AndTemplate(g, a.lits), w);
        AndTemplateMeaning(g, a.lits, w);
        assert x == Node(And, x.args);
        EvalAnd(x.args, w);
        SameValues(a.lits, w, x.args, w);
      }
    }
  }

  lemma {:induction false} ArgsSound(xs: seq<Formula>, id: nat, w: Valuation)
    requires forall i :: 0 <= i < |xs| ==> Encodable(xs[i])
    ensures CnfSat(EncodeArgs(xs, id).defs, w) ==>
      forall i :: 0 <= i < |xs| ==> Eval(EncodeArgs(xs, id).lits[i], w) == Eval(xs[i], w)
    decreases xs, 1
  {
    if xs != [] && CnfSat(EncodeArgs(xs, id).defs, w) {
      var init, last := xs[..|xs| - 1], xs[|xs| - 1];
      var a := EncodeArgs(init, id);
      var b := EncodeArg(last, a.next);
      assert CnfSat(a.defs, w) && CnfSat(b.defs, w) by {
        CnfSatAppend(a.defs, b.defs, w);
      }
      ArgsSound(init, id, w);
      ArgSound(last, a.next, w);
      SnocAgree(a.lits, b.lit, init, last, w);
      assert EncodeArgs(xs, id).lits == a.lits + [b.lit] && xs == init + [last];
    }
  }

  /** Entrywise equal values carry over to one more entry on each side. */
  lemma SnocAgree(ls: seq<Formula>, l: Formula, xs: seq<Formula>, x: Formula, w: Valuation)
    requires |ls| == |xs| && forall i :: 0 <= i < |xs| ==> Eval(ls[i], w) == Eval(xs[i], w)
    requires Eval(l, w) == Eval(x, w)
    ensures forall i :: 0 <= i < |xs| + 1 ==> Eval((ls + [l])[i], w) == Eval((xs + [x])[i], w)
  {
    forall i | 0 <= i < |xs| + 1 ensures Eval((ls + [l])[i], w) == Eval((xs + [x])[i], w) {
      if i < |xs| {
        assert (ls + [l])[i] == ls[i] && (xs + [x])[i] == xs[i];
      }
    }
  }

  lemma OrsSound(x: Formula, id: nat, w: Valuation)
    requires Encodable(x)
    ensures CnfSat(EncodeOrs(x, id).defs, w) ==> (ClauseSat(EncodeOrs(x, id).lits, w) <==> Eval(x, w))
  {
    DisjunctsShape(x);
    var o := EncodeOrs(x, id);
    if IsLiteral(x) {
      assert o.lits == [x];
      if Eval(x, w) {
        assert Eval(o.lits[0], w);
      }
    } else if CnfSat(o.defs, w) {
      var ds := Disjuncts(x);
      var lits := o.lits;
      assert o == EncodeArgs(ds, id);
      ArgsSound(ds, id, w);
      SameValues(lits, w, ds, w);
      DisjunctsEval(x, w);
    }
  }

  lemma {:induction false} AndsSound(x: Formula, id: nat, w: Valuation)
    requires Encodable(x)
    ensures CnfSat(EncodeAnds(x, id).clauses, w) ==> Eval(x, w)
    decreases x, 0
  {
    if x.Node? && x.op == And {
      AndsAllSound(x.args, id, w);
      assert x == Node(And, x.args);
      EvalAnd(x.args, w);
    } else {
      var o := EncodeOrs(x, id);
      CnfSatAppend(o.defs, [o.lits], w);
      CnfSatSingle(o.lits, w);
      OrsSound(x, id, w);
    }
  }

  lemma {:induction false} AndsAllSound(xs: seq<Formula>, id: nat, w: Valuation)
    requires forall i :: 0 <= i < |xs| ==> Encodable(xs[i])
    ensures CnfSat(EncodeAndsAll(xs, id).clauses, w) ==> forall i :: 0 <= i < |xs| ==> Eval(xs[i], w)
    decreases xs, 1
  {
    if xs != [] && CnfSat(EncodeAndsAll(xs, id).clauses, w) {
      var init, last := xs[..|xs| - 1], xs[|xs| - 1];
      var a := EncodeAndsAll(init, id);
      CnfSatAppend(a.clauses, EncodeAnds(last, a.next).clauses, w);
      AndsAllSound(init, id, w);
      AndsSound(last, a.next, w);
      forall i | 0 <= i < |xs| ensures Eval(xs[i], w) {
        if i < |init| {
          assert xs[i] == init[i];
        }
      }
    }
  }

  /** Every valuation satisfying `tseitin(x)` satisfies `x`. */
  lemma TseitinSound(x: Formula, w: Valuation)
    requires Encodable(x)
    ensures CnfSat(CnfOf(x), w) ==> Eval(x, w)
  {
    AndsSound(x, 0, w);
  }

  // ---------------------------------------------------------------------
  // Completeness: a model of the formula extends to a model of the clauses

  /** Extending by the values of the fresh names keeps every clause over
      older names as it was. */
  lemma KeepOlder(wa: Valuation, wb: Valuation, id: nat, mid: nat, hi: nat)
    requires id <= mid <= hi
    requires SameOutside(wb, wa, Fresh(mid, hi))
    ensures AgreeOn(wa, wb, Fresh(id, mid))
  {
    FreshSplit(id, mid, hi);
    StarFreeNotFresh(mid, hi);
  }

  lemma SameOnUsers(w1: Valuation, w2: Valuation, lo: nat, hi: nat)
    requires SameOutside(w1, w2, Fresh(lo, hi))
    ensures forall n :: StarFree(n) ==> w1(n) == w2(n)
  {
    StarFreeNotFresh(lo, hi);
  }

  /** The defining clauses of a gate hold when the gate has the value of
      the node and each argument literal the value of its argument. */
  lemma GateDefined(x: Formula, g: Formula, bs: seq<Formula>, w': Valuation, w: Valuation)
    requires x.Node? && (x.op == Or || x.op == And) && |bs| == |x.args|
    requires forall i :: 0 <= i < |bs| ==> Eval(bs[i], w') == Eval(x.args[i], w)
    requires Eval(g, w') == Eval(x, w)
    ensures CnfSat(if x.op == Or then OrTemplate(g, bs) else AndTemplate(g, bs), w')
  {
    SameValues(bs, w', x.args, w);
    if x.op == Or {
      OrTemplateMeaning(g, bs, w');
      assert x == Node(Or, x.args);
      EvalOr(x.args, w);
    } else {
      AndTemplateMeaning(g, bs, w');
      assert x == Node(And, x.args);
      EvalAnd(x.args, w);
    }
  }

  lemma {:induction false} ArgComplete(x: Formula, id: nat, w: Valuation) returns (w': Valuation)
    requires Encodable(x) && UserNamed(x)
    ensures SameOutside(w', w, Fresh(id, EncodeArg(x, id).next))
    ensures CnfSat(EncodeArg(x, id).defs, w')
    ensures Eval(EncodeArg(x, id).lit, w') == Eval(x, w)
    decreases x, 0
  {
    if IsLiteral(x) {
      return w;
    }
    var wa := ArgsComplete(x.args, id, w);
    ArgsNames(x.args, id);
    ArgNode(x, id);
    w' := GateComplete(x, id, EncodeArgs(x.args, id), wa, w);
  }

  /** The fresh variable of an AND or OR node takes the value of the node:
      the clauses of its arguments still hold, and so do its own. */
  lemma GateComplete(x: Formula, id: nat, a: LitsCode, wa: Valuation, w: Valuation) returns (w': Valuation)
    requires x.Node? && (x.op == Or || x.op == And) && |a.lits| == |x.args| && id <= a.next
    requires LitsIn(a.lits, Fresh(id, a.next)) && ClausesIn(a.defs, Fresh(id, a.next))
    requires SameOutside(wa, w, Fresh(id, a.next)) && CnfSat(a.defs, wa)
    requires forall i :: 0 <= i < |x.args| ==> Eval(a.lits[i], wa) == Eval(x.args[i], w)
    ensures var g := Var(GensymName(if x.op == Or then "or" else "and", a.next + 1));
      SameOutside(w', w, Fresh(id, a.next + 1))
      && CnfSat(a.defs + (if x.op == Or then OrTemplate(g, a.lits) else AndTemplate(g, a.lits)), w')
      && Eval(g, w') == Eval(x, w)
  {
    var p := if x.op == Or then "or" else "and";
    var name := GensymName(p, a.next + 1);
    var val := Eval(x, w);
    w' := n => if n == name then val else wa(n);
    assert w'(name) == val && forall n :: n != name ==> w'(n) == wa(n);
    GateSet(x, id, a, wa, w', w, p);
    GensymOutside(w', wa, w, id, a.next + 1, name);
  }

  /** Setting the fresh variable of a node to the node's value keeps the
      clauses of its arguments and satisfies its own. */
  lemma GateSet(x: Formula, id: nat, a: LitsCode, wa: Valuation, w': Valuation, w: Valuation, p: string)
    requires x.Node? && (x.op == Or || x.op == And) && |a.lits| == |x.args| && id <= a.next
    requires p == if x.op == Or then "or" else "and"
    requires LitsIn(a.lits, Fresh(id, a.next)) && ClausesIn(a.defs, Fresh(id, a.next))
    requires CnfSat(a.defs, wa)
    requires forall i :: 0 <= i < |x.args| ==> Eval(a.lits[i], wa) == Eval(x.args[i], w)
    requires w'(GensymName(p, a.next + 1)) == Eval(x, w)
    requires forall n :: n != GensymName(p, a.next + 1) ==> w'(n) == wa(n)
    ensures var g := Var(GensymName(p, a.next + 1));
      CnfSat(a.defs + (if x.op == Or then OrTemplate(g, a.lits) else AndTemplate(g, a.lits)), w')
  {
    var g := Var(GensymName(p, a.next + 1));
    assert AgreeOn(wa, w', Fresh(id, a.next)) by {
      FreshOutside(p, a.next + 1, id, a.next);
    }
    var t := if x.op == Or then OrTemplate(g, a.lits) else AndTemplate(g, a.lits);
    assert CnfSat(a.defs, w') by {
      ClausesAgree(a.defs, Fresh(id, a.next), wa, w');
    }
    assert CnfSat(t, w') by {
      forall i | 0 <= i < |a.lits| ensures Eval(a.lits[i], w') == Eval(x.args[i], w) {
        LitAgree(a.lits[i], Fresh(id, a.next), wa, w');
      }
      GateDefined(x, g, a.lits, w', w);
    }
    CnfSatAppend(a.defs, t, w');
  }

  /** Changing a valuation at one gensym numbered `hi` keeps it equal to
      `w` outside `Fresh(id, hi)`. */
  lemma GensymOutside(w': Valuation, wa: Valuation, w: Valuation, id: nat, hi: nat, name: string)
    requires id < hi
    requires name == GensymName("or", hi) || name == GensymName("and", hi)
    requires SameOutside(wa, w, Fresh(id, hi - 1))
    requires forall n :: n != name ==> w'(n) == wa(n)
    ensures SameOutside(w', w, Fresh(id, hi))
  {
    FreshStep(id, hi);
  }

  lemma {:induction false} ArgsComplete(xs: seq<Formula>, id: nat, w: Valuation) returns (w': Valuation)
    requires forall i :: 0 <= i < |xs| ==> Encodable(xs[i]) && UserNamed(xs[i])
    ensures SameOutside(w', w, Fresh(id, EncodeArgs(xs, id).next))
    ensures CnfSat(EncodeArgs(xs, id).defs, w')
    ensures forall i :: 0 <= i < |xs| ==> Eval(EncodeArgs(xs, id).lits[i], w') == Eval(xs[i], w)
    decreases xs, 1
  {
    if xs == [] {
      return w;
    }
    var init, last := xs[..|xs| - 1], xs[|xs| - 1];
    var a := EncodeArgs(init, id);
    var b := EncodeArg(last, a.next);
    var wa := ArgsComplete(init, id, w);
    assert Eval(last, wa) == Eval(last, w) by {
      SameOnUsers(wa, w, id, a.next);
      EvalUserAgree(last, wa, w);
    }
    w' := ArgComplete(last, a.next, wa);
    ArgsNames(init, id);
    ArgsJoin(xs, init, last, id, a, b, EncodeArgs(xs, id), wa, w', w);
  }

  /** The last argument's valuation keeps what the earlier ones made true. */
  lemma ArgsJoin(xs: seq<Formula>, init: seq<Formula>, last: Formula, id: nat, a: LitsCode, b: LitCode,
                 r: LitsCode, wa: Valuation, w': Valuation, w: Valuation)
    requires xs != [] && init == xs[..|xs| - 1] && last == xs[|xs| - 1]
    requires r == LitsCode(a.lits + [b.lit], a.defs + b.defs, b.next)
    requires id <= a.next <= b.next && |a.lits| == |init|
    requires LitsIn(a.lits, Fresh(id, a.next)) && ClausesIn(a.defs, Fresh(id, a.next))
    requires SameOutside(wa, w, Fresh(id, a.next)) && CnfSat(a.defs, wa)
    requires forall i :: 0 <= i < |init| ==> Eval(a.lits[i], wa) == Eval(init[i], w)
    requires SameOutside(w', wa, Fresh(a.next, b.next)) && CnfSat(b.defs, w')
    requires Eval(b.lit, w') == Eval(last, w)
    ensures SameOutside(w', w, Fresh(id, r.next))
    ensures CnfSat(r.defs, w')
    ensures forall i :: 0 <= i < |xs| ==> Eval(r.lits[i], w') == Eval(xs[i], w)
  {
    KeepOlder(wa, w', id, a.next, b.next);
    assert CnfSat(a.defs + b.defs, w') by {
      ClausesAgree(a.defs, Fresh(id, a.next), wa, w');
      CnfSatAppend(a.defs, b.defs, w');
    }
    forall i | 0 <= i < |init| ensures Eval(a.lits[i], w') == Eval(init[i], w) {
      LitAgree(a.lits[i], Fresh(id, a.next), wa, w');
    }
    SnocEval(xs, a.lits, b.lit, w', w);
    assert SameOutside(w', w, Fresh(id, b.next)) by {
      FreshSplit(id, a.next, b.next);
    }
  }

  /** Literals that agree with the arguments, one more at the end. */
  lemma SnocEval(xs: seq<Formula>, lits: seq<Formula>, lit: Formula, w': Valuation, w: Valuation)
    requires xs != [] && |lits| == |xs| - 1
    requires forall i :: 0 <= i < |xs| - 1 ==> Eval(lits[i], w') == Eval(xs[..|xs| - 1][i], w)
    requires Eval(lit, w') == Eval(xs[|xs| - 1], w)
    ensures forall i :: 0 <= i < |xs| ==> Eval((lits + [lit])[i], w') == Eval(xs[i], w)
  {
    forall i | 0 <= i < |xs| ensures Eval((lits + [lit])[i], w') == Eval(xs[i], w) {
      if i < |lits| {
        assert (lits + [lit])[i] == lits[i] && xs[..|xs| - 1][i] == xs[i];
      }
    }
  }


  lemma OrsComplete(x: Formula, id: nat, w: Valuation) returns (w': Valuation)
    requires Encodable(x) && UserNamed(x)
    ensures SameOutside(w', w, Fresh(id, EncodeOrs(x, id).next))
    ensures CnfSat(EncodeOrs(x, id).defs, w')
    ensures ClauseSat(EncodeOrs(x, id).lits, w') <==> Eval(x, w)
  {
    DisjunctsShape(x);
    var o := EncodeOrs(x, id);
    if IsLiteral(x) {
      assert o.lits == [x];
      if Eval(x, w) {
        assert Eval(o.lits[0], w);
      }
      return w;
    }
    var ds := Disjuncts(x);
    assert o == EncodeArgs(ds, id);
    w' := ArgsComplete(ds, id, w);
    SameValues(o.lits, w', ds, w);
    DisjunctsEval(x, w);
  }

  lemma {:induction false} AndsComplete(x: Formula, id: nat, w: Valuation) returns (w': Valuation)
    requires Encodable(x) && UserNamed(x) && Eval(x, w)
    ensures SameOutside(w', w, Fresh(id, EncodeAnds(x, id).next))
    ensures CnfSat(EncodeAnds(x, id).clauses, w')
    decreases x, 0
  {
    if x.Node? && x.op == And {
      assert x == Node(And, x.args);
      EvalAnd(x.args, w);
      w' := AndsAllComplete(x.args, id, w);
    } else {
      var o := EncodeOrs(x, id);
      w' := OrsComplete(x, id, w);
      CnfSatAppend(o.defs, [o.lits], w');
      CnfSatSingle(o.lits, w');
    }
  }

  lemma {:induction false} AndsAllComplete(xs: seq<Formula>, id: nat, w: Valuation) returns (w': Valuation)
    requires forall i :: 0 <= i < |xs| ==> Encodable(xs[i]) && UserNamed(xs[i]) && Eval(xs[i], w)
    ensures SameOutside(w', w, Fresh(id, EncodeAndsAll(xs, id).next))
    ensures CnfSat(EncodeAndsAll(xs, id).clauses, w')
    decreases xs, 1
  {
    if xs == [] {
      return w;
    }
    var init, last := xs[..|xs| - 1], xs[|xs| - 1];
    var a := EncodeAndsAll(init, id);
    var b := EncodeAnds(last, a.next);
    var wa := AndsAllComplete(init, id, w);
    SameOnUsers(wa, w, id, a.next);
    EvalUserAgree(last, wa, w);
    w' := AndsComplete(last, a.next, wa);
    AndsAllNames(init, id);
    KeepOlder(wa, w', id, a.next, b.next);
    ClausesAgree(a.clauses, Fresh(id, a.next), wa, w');
    CnfSatAppend(a.clauses, b.clauses, w');
    FreshSplit(id, a.next, b.next);
  }

  /** `v` and `w` give the same value to every name a user can write. */
  ghost predicate SameOnUserNames(w: Valuation, v: Valuation) {
    forall n :: StarFree(n) ==> w(n) == v(n)
  }

  /** The models of `tseitin(x)`, restricted to the user's names, are
      exactly the models of `x`. */
  lemma TseitinModels(x: Formula, v: Valuation)
    requires Encodable(x) && UserNamed(x)
    ensures Eval(x, v) <==> exists w :: SameOnUserNames(w, v) && CnfSat(CnfOf(x), w)
  {
    if Eval(x, v) {
      var w := AndsComplete(x, 0, v);
      SameOnUsers(w, v, 0, EncodeAnds(x, 0).next);
      assert SameOnUserNames(w, v) && CnfSat(CnfOf(x), w);
    }
    if exists w :: SameOnUserNames(w, v) && CnfSat(CnfOf(x), w) {
      var w :| SameOnUserNames(w, v) && CnfSat(CnfOf(x), w);
      TseitinSound(x, w);
      EvalUserAgree(x, w, v);
    }
  }

  // ---------------------------------------------------------------------
  // Clauses that are already clauses (logic.js:188-202)

  /** An OR tree whose leaves are literals. */
  predicate OrOfLiterals(x: Formula)
    decreases x
  {
    IsLiteral(x) || (IsOr(x) && forall i :: 0 <= i < |x.args| ==> OrOfLiterals(x.args[i]))
  }

  /** An AND tree whose leaves are OR trees of literals. */
  predicate AndOfClauses(x: Formula)
    decreases x
  {
    OrOfLiterals(x) || (x.Node? && x.op == And && forall i :: 0 <= i < |x.args| ==> AndOfClauses(x.args[i]))
  }

  /** The clauses such a formula reads as: one per OR tree, left to right. */
  function ClauseList(x: Formula): seq<Clause>
    decreases x
  {
    if x.Node? && x.op == And then ClauseListAll(x.args) else [Disjuncts(x)]
  }

  function ClauseListAll(xs: seq<Formula>): seq<Clause>
    decreases xs
  {
    if xs == [] then [] else ClauseListAll(xs[..|xs| - 1]) + ClauseList(xs[|xs| - 1])
  }

  lemma {:induction false} OrOfLiteralsDisjuncts(x: Formula)
    requires OrOfLiterals(x)
    ensures Encodable(x)
    ensures forall i :: 0 <= i < |Disjuncts(x)| ==> IsLiteral(Disjuncts(x)[i])
    decreases x, 1
  {
    if !IsLiteral(x) {
      OrOfLiteralsDisjunctsAll(x.args);
    }
  }

  lemma {:induction false} OrOfLiteralsDisjunctsAll(xs: seq<Formula>)
    requires forall i :: 0 <= i < |xs| ==> OrOfLiterals(xs[i])
    ensures forall i :: 0 <= i < |xs| ==> Encodable(xs[i])
    ensures forall i :: 0 <= i < |DisjunctsAll(xs)| ==> IsLiteral(DisjunctsAll(xs)[i])
    decreases xs, 0
  {
    if xs != [] {
      var init, last := xs[..|xs| - 1], xs[|xs| - 1];
      OrOfLiteralsDisjunctsAll(init);
      OrOfLiteralsDisjuncts(last);
      var a, b := DisjunctsAll(init), Disjuncts(last);
      assert forall i :: 0 <= i < |a| + |b| ==> (a + b)[i] == if i < |a| then a[i] else b[i - |a|];
      assert forall i :: 0 <= i < |init| ==> xs[i] == init[i];
    }
  }

  /** Literals are passed through with no clauses and no fresh names. */
  lemma {:induction false} LiteralArgs(xs: seq<Formula>, id: nat)
    requires forall i :: 0 <= i < |xs| ==> IsLiteral(xs[i])
    ensures forall i :: 0 <= i < |xs| ==> Encodable(xs[i])
    ensures EncodeArgs(xs, id) == LitsCode(xs, [], id)
    decreases |xs|
  {
    if xs != [] {
      LiteralArgs(xs[..|xs| - 1], id);
      assert xs[..|xs| - 1] + [xs[|xs| - 1]] == xs;
    }
  }

  /** An AND of ORs of literals is emitted clause for clause, with no fresh
      variable. */
  lemma {:induction false} Passthrough(x: Formula, id: nat)
    requires AndOfClauses(x)
    ensures Encodable(x) && EncodeAnds(x, id) == CnfCode(ClauseList(x), id)
    decreases x, 0
  {
    if x.Node? && x.op == And {
      PassthroughAll(x.args, id);
    } else {
      OrOfLiteralsDisjuncts(x);
      LiteralArgs(Disjuncts(x), id);
      if IsLiteral(x) {
        assert Disjuncts(x) == [x];
      }
    }
  }

  lemma {:induction false} PassthroughAll(xs: seq<Formula>, id: nat)
    requires forall i :: 0 <= i < |xs| ==> AndOfClauses(xs[i])
    ensures forall i :: 0 <= i < |xs| ==> Encodable(xs[i])
    ensures EncodeAndsAll(xs, id) == CnfCode(ClauseListAll(xs), id)
    decreases xs, 1
  {
    if xs != [] {
      var init, last := xs[..|xs| - 1], xs[|xs| - 1];
      PassthroughAll(init, id);
      Passthrough(last, id);
      assert forall i :: 0 <= i < |init| ==> xs[i] == init[i];
    }
  }

  /** Arguments that are not themselves ORs are their own disjuncts. */
  lemma {:induction false} DisjunctsOfLiterals(xs: seq<Formula>)
    requires forall i :: 0 <= i < |xs| ==> !IsOr(xs[i])
    ensures DisjunctsAll(xs) == xs
    decreases |xs|
  {
    if xs != [] {
      var init, last := xs[..|xs| - 1], xs[|xs| - 1];
      assert forall i :: 0 <= i < |init| ==> init[i] == xs[i];
      DisjunctsOfLiterals(init);
      assert DisjunctsAll(xs) == DisjunctsAll(init) + Disjuncts(last);
      assert Disjuncts(last) == [last];
      assert init + [last] == xs;
    }
  }

  /** The clause `p ∨ q ∨ (r ∨ s)` of the examples below, with literal
      leaves, flattens to `p, q, r, s`. */
  lemma ExampleClause(p: Formula, q: Formula, r: Formula, s: Formula)
    requires IsLiteral(p) && IsLiteral(q) && IsLiteral(r) && IsLiteral(s)
    ensures OrOfLiterals(Node(Or, [p, q, Node(Or, [r, s])]))
    ensures Disjuncts(Node(Or, [p, q, Node(Or, [r, s])])) == [p, q, r, s]
  {
    var rs := Node(Or, [r, s]);
    assert OrOfLiterals(rs);
    DisjunctsOfLiterals([r, s]);
    assert Disjuncts(rs) == [r, s];
    DisjunctsOfLiterals([p, q]);
    assert [p, q, rs][..2] == [p, q];
    assert DisjunctsAll([p, q, rs]) == DisjunctsAll([p, q]) + Disjuncts(rs);
  }

  /** A conjunction of two OR trees of literals becomes their two clauses. */
  lemma CnfOfTwoClauses(c1: Formula, c2: Formula)
    requires OrOfLiterals(c1) && OrOfLiterals(c2)
    ensures Encodable(Node(And, [c1, c2]))
    ensures CnfOf(Node(And, [c1, c2])) == [Disjuncts(c1), Disjuncts(c2)]
  {
    var x := Node(And, [c1, c2]);
    assert AndOfClauses(c1) && AndOfClauses(c2);
    assert AndOfClauses(x);
    Passthrough(x, 0);
    assert [c1, c2][..1] == [c1] && [c1][..0] == [];
    assert ClauseList(c1) == [Disjuncts(c1)] && ClauseList(c2) == [Disjuncts(c2)];
    assert ClauseListAll([c1]) == [Disjuncts(c1)];
  }

  /** The definition of `g` as `p ∧ q` for variables `g`, `p`, `q`. */
  lemma AndTemplateOfTwo(g: Formula, p: Formula, q: Formula)
    requires IsVar(g) && IsVar(p) && IsVar(q)
    ensures AndTemplate(g, [p, q]) == [[g, Not(p), Not(q)], [Not(g), p], [Not(g), q]]
  {
    assert [p, q][..1] == [p] && [p][..0] == [];
    assert Negate(g) == Not(g);
    assert AndBackLinks(g, [p]) == [[Not(g), p]];
    assert AndBackLinks(g, [p, q]) == [[Not(g), p], [Not(g), q]];
    assert NegateAll([p, q]) == [Not(p), Not(q)];
    assert [g] + [Not(p), Not(q)] == [g, Not(p), Not(q)];
  }

  lemma ExampleOrsOfVariables()
    ensures
      var x := Node(And, [Node(Or, [Var("a"), Var("b")]),
                          Node(Or, [Var("b"), Var("c"), Node(Or, [Var("d"), Var("e")])])]);
      Encodable(x) &&
      CnfOf(x) == [[Var("a"), Var("b")], [Var("b"), Var("c"), Var("d"), Var("e")]]
  {
    var c1 := Node(Or, [Var("a"), Var("b")]);
    var c2 := Node(Or, [Var("b"), Var("c"), Node(Or, [Var("d"), Var("e")])]);
    var x := Node(And, [c1, c2]);
    ExampleClause(Var("b"), Var("c"), Var("d"), Var("e"));
    DisjunctsOfLiterals([Var("a"), Var("b")]);
    CnfOfTwoClauses(c1, c2);
  }

  lemma ExampleOrsOfLiterals()
    ensures
      var x := Node(And, [Node(Or, [Not(Var("a")), Var("b")]),
                          Node(Or, [Var("b"), Not(Var("c")), Node(Or, [Var("d"), Not(Var("e"))])])]);
      Encodable(x) &&
      CnfOf(x) == [[Not(Var("a")), Var("b")], [Var("b"), Not(Var("c")), Var("d"), Not(Var("e"))]]
  {
    var c1 := Node(Or, [Not(Var("a")), Var("b")]);
    var c2 := Node(Or, [Var("b"), Not(Var("c")), Node(Or, [Var("d"), Not(Var("e"))])]);
    var x := Node(And, [c1, c2]);
    ExampleClause(Var("b"), Not(Var("c")), Var("d"), Not(Var("e")));
    DisjunctsOfLiterals([Not(Var("a")), Var("b")]);
    CnfOfTwoClauses(c1, c2);
  }
  lemma ExampleLiterals()
    ensures
      var x := Node(And, [Not(Var("a")), Var("b")]);
      Encodable(x) && CnfOf(x) == [[Not(Var("a"))], [Var("b")]]
  {
    var x := Node(And, [Not(Var("a")), Var("b")]);
    assert AndOfClauses(x);
    Passthrough(x, 0);
    assert [Not(Var("a")), Var("b")][..1] == [Not(Var("a"))];
  }

  /** An AND of two variables as an argument: one fresh `and*` variable
      and its three defining clauses. */
  lemma {:induction false} AndGateOfTwo(p: Formula, q: Formula, id: nat)
    requires IsVar(p) && IsVar(q)
    ensures Encodable(Node(And, [p, q]))
    ensures var g := Var(GensymName("and", id + 1));
      EncodeArg(Node(And, [p, q]), id) == LitCode(g, AndTemplate(g, [p, q]), id + 1)
  {
    VarPair(p, q, id);
    var g := Var(GensymName("and", id + 1));
    AndArg([p, q], id, LitsCode([p, q], [], id));
    assert [] + AndTemplate(g, [p, q]) == AndTemplate(g, [p, q]);
  }

  /** An AND node as an argument, once its arguments are encoded as `a`. */
  lemma AndArg(xs: seq<Formula>, id: nat, a: LitsCode)
    requires Encodable(Node(And, xs)) && a == EncodeArgs(xs, id)
    ensures var g := Var(GensymName("and", a.next + 1));
      EncodeArg(Node(And, xs), id) == LitCode(g, a.defs + AndTemplate(g, a.lits), a.next + 1)
  {
  }

  lemma {:induction false} VarPair(p: Formula, q: Formula, id: nat)
    requires IsVar(p) && IsVar(q)
    ensures Encodable(Node(And, [p, q])) && !IsLiteral(Node(And, [p, q]))
    ensures EncodeArgs([p, q], id) == LitsCode([p, q], [], id)
  {
    LiteralArgs([p, q], id);
  }

  /** Two arguments are encoded left to right, numbering on from the first. */
  lemma EncodeTwoArgs(p: Formula, q: Formula, id: nat)
    requires Encodable(p) && Encodable(q)
    ensures var a := EncodeArg(p, id); var b := EncodeArg(q, a.next);
      EncodeArgs([p, q], id) == LitsCode([a.lit, b.lit], a.defs + b.defs, b.next)
  {
    ArgsPair([p, q], id);
  }

  lemma ArgsPair(xs: seq<Formula>, id: nat)
    requires |xs| == 2 && Encodable(xs[0]) && Encodable(xs[1])
    ensures var a := EncodeArg(xs[0], id); var b := EncodeArg(xs[1], a.next);
      EncodeArgs(xs, id) == LitsCode([a.lit, b.lit], a.defs + b.defs, b.next)
  {
    var a := EncodeArg(xs[0], id);
    assert xs[..1] == [xs[0]];
    ArgsOne(xs[0], id);
    var b := EncodeArg(xs[1], a.next);
    assert EncodeArgs(xs, id) == LitsCode([a.lit] + [b.lit], a.defs + b.defs, b.next);
  }

  lemma ArgsOne(x: Formula, id: nat)
    requires Encodable(x)
    ensures var a := EncodeArg(x, id); EncodeArgs([x], id) == LitsCode([a.lit], a.defs, a.next)
  {
    var a := EncodeArg(x, id);
    assert [x][..0] == [] && [x][0] == x;
    assert [] + [a.lit] == [a.lit] && [] + a.defs == a.defs;
  }

  /** Two ANDs of variables as arguments: fresh variables `and*1` and
      `and*2`, with their definitions in order. */
  lemma TwoAndGates(a: Formula, b: Formula, c: Formula, d: Formula)
    requires IsVar(a) && IsVar(b) && IsVar(c) && IsVar(d)
    ensures Encodable(Node(And, [a, b])) && Encodable(Node(And, [c, d]))
    ensures
      var g1, g2 := Var(GensymName("and", 1)), Var(GensymName("and", 2));
      EncodeArgs([Node(And, [a, b]), Node(And, [c, d])], 0)
        == LitsCode([g1, g2], AndTemplate(g1, [a, b]) + AndTemplate(g2, [c, d]), 2)
  {
    AndGateOfTwo(a, b, 0);
    AndGateOfTwo(c, d, 1);
    EncodeTwoArgs(Node(And, [a, b]), Node(And, [c, d]), 0);
  }

  /** An OR of two ANDs of variables: each AND gets a fresh variable, and
      its definition comes before the clause that uses it. */
  lemma OrOfTwoAnds(a: Formula, b: Formula, c: Formula, d: Formula)
    requires IsVar(a) && IsVar(b) && IsVar(c) && IsVar(d)
    ensures
      var g1, g2 := Var(GensymName("and", 1)), Var(GensymName("and", 2));
      var x := Node(Or, [Node(And, [a, b]), Node(And, [c, d])]);
      Encodable(x) &&
      CnfOf(x) == [[g1, Not(a), Not(b)], [Not(g1), a], [Not(g1), b],
                   [g2, Not(c), Not(d)], [Not(g2), c], [Not(g2), d],
                   [g1, g2]]
  {
    var g1, g2 := Var(GensymName("and", 1)), Var(GensymName("and", 2));
    var ab, cd := Node(And, [a, b]), Node(And, [c, d]);
    var x := Node(Or, [ab, cd]);
    assert Encodable(x) && CnfOf(x) == AndTemplate(g1, [a, b]) + AndTemplate(g2, [c, d]) + [[g1, g2]] by {
      TwoAndGates(a, b, c, d);
      DisjunctsOfLiterals([ab, cd]);
    }
    AndTemplateOfTwo(g1, a, b);
    AndTemplateOfTwo(g2, c, d);
  }

  lemma ExampleFreshVariables()
    ensures
      var a, b, c, d := Var("a"), Var("b"), Var("c"), Var("d");
      var g1, g2 := Var("and*1"), Var("and*2");
      var x := Node(Or, [Node(And, [a, b]), Node(And, [c, d])]);
      Encodable(x) &&
      CnfOf(x) == [[g1, Not(a), Not(b)], [Not(g1), a], [Not(g1), b],
                   [g2, Not(c), Not(d)], [Not(g2), c], [Not(g2), d],
                   [g1, g2]]
  {
    assert GensymName("and", 1) == "and*1" by {
      assert NatToString(1) == "1";
    }
    assert GensymName("and", 2) == "and*2" by {
      assert NatToString(2) == "2";
    }
    OrOfTwoAnds(Var("a"), Var("b"), Var("c"), Var("d"));
  }
}
