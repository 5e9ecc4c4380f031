/** The connective-restricting rewriter of src/lib/logic/transform.ts.

    A basis is a bit set over the seven connectives. `Restrict` rewrites a
    formula until only connectives of the basis remain, using De Morgan's
    laws, the expansions of implication and equivalence, and collapses of
    negations into Scheffer (NAND) and n-ary NOR nodes.

    The rewriting does not shrink the formula: an equivalence duplicates
    both operands, and in the Scheffer basis a negation `!x` becomes
    `x | x`. Termination is argued with a weight per basis (`Weight`) that
    every rewrite lowers. For bases other than the seven presets the
    rewriting may not end (with only negation and implication allowed, the
    `and` and `or` rules produce each other), so `Restrict` is stated for
    the presets only. */
module Transform {
  import opened Types
  import Create

  /** The `Allowed` flag enum. */
  type Allowed = bv8

  const AllowNor: Allowed := 1
  const AllowScheffer: Allowed := 2
  const AllowNeg: Allowed := 4
  const AllowOr: Allowed := 8
  const AllowAnd: Allowed := 16
  const AllowImpl: Allowed := 32
  const AllowEquiv: Allowed := 64

  const NoAnd: Allowed := AllowNeg | AllowOr
  const NoOr: Allowed := AllowNeg | AllowAnd
  const NoImpl: Allowed := NoOr | AllowOr
  const NoEquiv: Allowed := NoImpl | AllowImpl
  const All: Allowed := NoEquiv | AllowEquiv

  predicate Has(b: Allowed, flag: Allowed) {
    b & flag != 0
  }

  /** The seven bases the user interface offers. */
  predicate IsPreset(b: Allowed) {
    b == All || b == NoEquiv || b == NoImpl || b == NoOr || b == NoAnd || b == AllowNor || b == AllowScheffer
  }

  /** `All` is exactly the five classical connectives. */
  lemma AllIsClassical()
    ensures All == AllowNeg | AllowOr | AllowAnd | AllowImpl | AllowEquiv
    ensures !Has(All, AllowNor) && !Has(All, AllowScheffer)
  {
  }

  /** `getAllowed`: the basis a name selects; any other string selects none. */
  function GetAllowed(s: string): (r: Option<Allowed>)
    ensures r.Some? ==> IsPreset(r.value)
  {
    if s == "all" then Some(All)
    else if s == "no-equiv" then Some(NoEquiv)
    else if s == "no-impl" then Some(NoImpl)
    else if s == "no-or" then Some(NoOr)
    else if s == "no-and" then Some(NoAnd)
    else if s == "nor" then Some(AllowNor)
    else if s == "scheffer" then Some(AllowScheffer)
    else None
  }

  /** The name under which each preset is offered. */
  function PresetName(b: Allowed): string
    requires IsPreset(b)
  {
    if b == All then "all"
    else if b == NoEquiv then "no-equiv"
    else if b == NoImpl then "no-impl"
    else if b == NoOr then "no-or"
    else if b == NoAnd then "no-and"
    else if b == AllowNor then "nor"
    else "scheffer"
  }

  /** `getAllowed` and the preset names are inverse: every preset is found
      under its name, and a name that selects a basis is that basis's name. */
  lemma GetAllowedInvertsName(b: Allowed, s: string)
    ensures IsPreset(b) ==> GetAllowed(PresetName(b)) == Some(b)
    ensures GetAllowed(s) == Some(b) ==> PresetName(b) == s
  {
  }

  /** `c1 | c2 | ... | cn` folded to the left, as the NOR expansion builds it. */
  function OrChain(cs: seq<Node>): Node
    requires |cs| >= 1
  {
    if |cs| == 1 then cs[0] else Or(OrChain(cs[..|cs| - 1]), cs[|cs| - 1])
  }

  /** The loop of the NOR branch: `stub` starts at the first child and takes
      every further child as a new right operand. */
  method OrChainLoop(cs: seq<Node>) returns (stub: Node)
    requires |cs| >= 1
    ensures stub == OrChain(cs)
  {
    stub := cs[0];
    var i := 1;
    while i < |cs|
      invariant 1 <= i <= |cs|
      invariant stub == OrChain(cs[..i])
    {
      assert cs[..i + 1][..i] == cs[..i];
      stub := Or(stub, cs[i]);
      i := i + 1;
    }
    assert cs[..|cs|] == cs;
  }

  /** The chain holds iff some child holds. */
  lemma {:induction false} OrChainValue(cs: seq<Node>, i: Interpretation)
    requires |cs| >= 1
    ensures Create.Value(OrChain(cs), i) <==> exists k | 0 <= k < |cs| :: Create.Value(cs[k], i)
    decreases |cs|
  {
    if |cs| > 1 {
      var p := cs[..|cs| - 1];
      OrChainValue(p, i);
      assert forall k | 0 <= k < |p| :: p[k] == cs[k];
      if Create.Value(cs[|cs| - 1], i) {
        assert exists k | 0 <= k < |cs| :: Create.Value(cs[k], i);
      }
      if exists k | 0 <= k < |cs| :: Create.Value(cs[k], i) {
        var k :| 0 <= k < |cs| && Create.Value(cs[k], i);
        if k < |p| {
          assert Create.Value(p[k], i);
        }
      }
    }
  }

  /** The chain is well formed and has the atoms of the children. */
  lemma {:induction false} OrChainShape(cs: seq<Node>)
    requires |cs| >= 1 && forall k | 0 <= k < |cs| :: WellFormed(cs[k])
    ensures WellFormed(OrChain(cs))
    ensures AtomNames(OrChain(cs)) == NamesOfAll(cs)
    decreases |cs|
  {
    if |cs| == 1 {
      ChildNamesIncluded(cs, 0);
    } else {
      var p := cs[..|cs| - 1];
      assert forall k | 0 <= k < |p| :: p[k] == cs[k];
      OrChainShape(p);
      NamesOfAllSnoc(p, cs[|cs| - 1]);
      assert p + [cs[|cs| - 1]] == cs;
    }
  }

  // ---------------------------------------------------------------------
  // Termination measure

  function OrCost(b: Allowed, x: nat, y: nat): nat {
    if b == AllowScheffer then 7 + 2 * x + 2 * y
    else if b == AllowNor then 14 + x + y
    else (if b == NoOr then 5 else 1) + x + y
  }

  function AndCost(b: Allowed, x: nat, y: nat): nat {
    if b == AllowScheffer then 33 + 8 * x + 8 * y
    else if b == AllowNor then 7 + x + y
    else (if b == NoAnd then 5 else 1) + x + y
  }

  function ImplCost(b: Allowed, x: nat, y: nat): nat {
    if b == AllowScheffer then 12 + 4 * x + 4 * y
    else if b == AllowNor then 17 + x + y
    else OrCost(b, 0, 0) + 2 + x + y
  }

  function EquivCost(b: Allowed, x: nat, y: nat): nat {
    if b == AllowScheffer then 226 + 64 * x + 64 * y
    else if b == AllowNor then 42 + 2 * x + 2 * y
    else AndCost(b, 0, 0) + 2 * OrCost(b, 0, 0) + 5 + 2 * x + 2 * y
  }

  function SchefferCost(b: Allowed, x: nat, y: nat): nat {
    if b == AllowScheffer then 1 + x + y
    else if b == AllowNor then 10 + x + y
    else AndCost(b, 0, 0) + 2 + x + y
  }

  /** An upper bound of the weight of `!x` from the weight `w` of `x`. */
  function NegBound(b: Allowed, w: nat): nat {
    if b == AllowScheffer then 2 + 2 * w
    else if b == AllowNor then 2 + w
    else 1 + w
  }

  /** The termination measure of `Restrict` in basis `b`. Every rewrite
      rule of the basis yields a formula of smaller weight. In the Scheffer
      basis a negation of a conjunction and in the NOR basis a negation of a
      disjunction are light, since they collapse in one step. */
  function Weight(n: Node, b: Allowed): (w: nat)
    ensures w >= 1
  {
    match n
    case Atom(_) => 1
    case Neg(c) =>
      if b == AllowScheffer && c.And? then 2 + Weight(c.left, b) + Weight(c.right, b)
      else if b == AllowNor && c.Or? then 2 + Weight(c.left, b) + Weight(c.right, b)
      else NegBound(b, Weight(c, b))
    case And(l, r) => AndCost(b, Weight(l, b), Weight(r, b))
    case Or(l, r) => OrCost(b, Weight(l, b), Weight(r, b))
    case Impl(l, r) => ImplCost(b, Weight(l, b), Weight(r, b))
    case Equiv(l, r) => EquivCost(b, Weight(l, b), Weight(r, b))
    case Scheffer(l, r) => SchefferCost(b, Weight(l, b), Weight(r, b))
    case Nor(cs) =>
      if b == AllowNor then 1 + SumWeight(cs, b)
      else 1 + NegBound(b, ChainWeight(cs, b))
  }

  function SumWeight(cs: seq<Node>, b: Allowed): nat {
    if |cs| == 0 then 0 else SumWeight(cs[..|cs| - 1], b) + Weight(cs[|cs| - 1], b)
  }

  /** The weight of `OrChain(cs)`, computed from the children. */
  function ChainWeight(cs: seq<Node>, b: Allowed): nat {
    if |cs| == 0 then 0
    else if |cs| == 1 then Weight(cs[0], b)
    else OrCost(b, ChainWeight(cs[..|cs| - 1], b), Weight(cs[|cs| - 1], b))
  }

  lemma NegWeight(x: Node, b: Allowed)
    ensures Weight(Neg(x), b) <= NegBound(b, Weight(x, b))
  {
  }

  lemma {:induction false} ChainWeightIsWeight(cs: seq<Node>, b: Allowed)
    requires |cs| >= 1
    ensures Weight(OrChain(cs), b) == ChainWeight(cs, b)
    decreases |cs|
  {
    if |cs| > 1 {
      ChainWeightIsWeight(cs[..|cs| - 1], b);
    }
  }

  lemma {:induction false} ChildWeight(cs: seq<Node>, k: nat, b: Allowed)
    requires k < |cs|
    ensures Weight(cs[k], b) <= SumWeight(cs, b)
    ensures SumWeight(cs[..k], b) < SumWeight(cs, b)
    decreases |cs|
  {
    if k < |cs| - 1 {
      var p := cs[..|cs| - 1];
      ChildWeight(p, k, b);
      assert p[k] == cs[k];
      assert p[..k] == cs[..k];
    }
  }

  /** Each rewrite rule lowers the weight in every basis that uses it. */
  lemma EquivRuleLighter(l: Node, r: Node, b: Allowed)
    ensures Weight(And(Impl(l, r), Impl(r, l)), b) < Weight(Equiv(l, r), b)
    ensures WellFormed(l) && WellFormed(r) ==> WellFormed(And(Impl(l, r), Impl(r, l)))
  {
  }

  lemma ImplRuleLighter(l: Node, r: Node, b: Allowed)
    ensures Weight(Or(Neg(l), r), b) < Weight(Impl(l, r), b)
  {
    NegWeight(l, b);
  }

  lemma AndRuleLighter(l: Node, r: Node, b: Allowed)
    requires b == AllowScheffer || b == AllowNor || b == NoAnd
    ensures Weight(Neg(Or(Neg(l), Neg(r))), b) < Weight(And(l, r), b)
  {
    NegWeight(l, b);
    NegWeight(r, b);
  }

  lemma OrRuleLighter(l: Node, r: Node, b: Allowed)
    requires b == AllowScheffer || b == AllowNor || b == NoOr
    ensures Weight(Neg(And(Neg(l), Neg(r))), b) < Weight(Or(l, r), b)
  {
    NegWeight(l, b);
    NegWeight(r, b);
  }

  lemma SchefferRuleLighter(l: Node, r: Node, b: Allowed)
    requires b != AllowScheffer
    ensures Weight(Neg(And(l, r)), b) < Weight(Scheffer(l, r), b)
  {
  }

  /** The collapses of a negation: into a Scheffer node in the Scheffer
      basis, into a NOR node in the NOR basis. */
  lemma NegCollapseLighter(c: Node, b: Allowed)
    requires WellFormed(c)
    ensures b == AllowScheffer && c.And? ==> Weight(Scheffer(c.left, c.right), b) < Weight(Neg(c), b)
    ensures b == AllowScheffer && !c.And? ==> Weight(Scheffer(c, c), b) < Weight(Neg(c), b)
    ensures b == AllowNor && c.Or? ==> Weight(Nor([c.left, c.right]), b) < Weight(Neg(c), b)
    ensures b == AllowNor && !c.Or? ==> Weight(Nor([c]), b) < Weight(Neg(c), b)
    ensures c.Or? ==> WellFormed(Nor([c.left, c.right]))
    ensures WellFormed(Nor([c]))
  {
    assert [c][..0] == [];
    assert SumWeight([c], b) == Weight(c, b);
    if c.Or? {
      var cs := [c.left, c.right];
      assert cs[..1] == [c.left];
      assert [c.left][..0] == [];
      assert SumWeight([c.left], b) == Weight(c.left, b);
      assert SumWeight(cs, b) == Weight(c.left, b) + Weight(c.right, b);
    }
  }

  // ---------------------------------------------------------------------
  // The rewriter

  /** `restrictOperators`. Each arm of the source's `switch` is one of the
      functions below. */
  function Restrict(n: Node, b: Allowed): (r: Node)
    requires IsPreset(b) && WellFormed(n)
    decreases Weight(n, b), 2
  {
    if b == All then n
    else match n
    case Equiv(l, r) => RestrictEquiv(l, r, b)
    case Impl(l, r) => RestrictImpl(l, r, b)
    case And(l, r) => RestrictAnd(l, r, b)
    case Or(l, r) => RestrictOr(l, r, b)
    case Neg(c) => RestrictNeg(c, b)
    case Nor(cs) => RestrictNor(cs, b)
    case Scheffer(l, r) => RestrictScheffer(l, r, b)
    case Atom(_) => n
  }

  function RestrictEquiv(l: Node, r: Node, b: Allowed): Node
    requires IsPreset(b) && WellFormed(l) && WellFormed(r)
    decreases Weight(Equiv(l, r), b), 1
  {
    if Has(b, AllowEquiv) then Equiv(Restrict(l, b), Restrict(r, b))
    else
      EquivRuleLighter(l, r, b);
      Restrict(And(Impl(l, r), Impl(r, l)), b)
  }

  function RestrictImpl(l: Node, r: Node, b: Allowed): Node
    requires IsPreset(b) && WellFormed(l) && WellFormed(r)
    decreases Weight(Impl(l, r), b), 1
  {
    if Has(b, AllowImpl) then Impl(Restrict(l, b), Restrict(r, b))
    else
      ImplRuleLighter(l, r, b);
      Restrict(Or(Neg(l), r), b)
  }

  function RestrictAnd(l: Node, r: Node, b: Allowed): Node
    requires IsPreset(b) && WellFormed(l) && WellFormed(r)
    decreases Weight(And(l, r), b), 1
  {
    if Has(b, AllowAnd) then And(Restrict(l, b), Restrict(r, b))
    else
      AndRuleLighter(l, r, b);
      Restrict(Neg(Or(Neg(l), Neg(r))), b)
  }

  function RestrictOr(l: Node, r: Node, b: Allowed): Node
    requires IsPreset(b) && WellFormed(l) && WellFormed(r)
    decreases Weight(Or(l, r), b), 1
  {
    if Has(b, AllowOr) then Or(Restrict(l, b), Restrict(r, b))
    else
      OrRuleLighter(l, r, b);
      Restrict(Neg(And(Neg(l), Neg(r))), b)
  }

  /** Without negation in the basis, a negation collapses into a Scheffer
      or NOR node. A basis with neither (no preset) keeps it as it is. */
  function RestrictNeg(c: Node, b: Allowed): Node
    requires IsPreset(b) && WellFormed(c)
    decreases Weight(Neg(c), b), 1
  {
    if Has(b, AllowNeg) then Neg(Restrict(c, b))
    else if b == AllowScheffer then
      NegCollapseLighter(c, b);
      if c.And? then Restrict(Scheffer(c.left, c.right), b)
      else Restrict(Scheffer(c, c), b)
    else if b == AllowNor then
      NegCollapseLighter(c, b);
      if c.Or? then Restrict(Nor([c.left, c.right]), b)
      else Restrict(Nor([c]), b)
    else Neg(c)
  }

  /** Outside the NOR basis a NOR node becomes the negated left-folded
      disjunction of its children. */
  function RestrictNor(cs: seq<Node>, b: Allowed): Node
    requires IsPreset(b) && WellFormed(Nor(cs))
    decreases Weight(Nor(cs), b), 1
  {
    if b != AllowNor then
      ChainWeightIsWeight(cs, b);
      NegWeight(OrChain(cs), b);
      OrChainShape(cs);
      Restrict(Neg(OrChain(cs)), b)
    else Nor(RestrictAll(cs, b))
  }

  function RestrictScheffer(l: Node, r: Node, b: Allowed): Node
    requires IsPreset(b) && WellFormed(l) && WellFormed(r)
    decreases Weight(Scheffer(l, r), b), 1
  {
    if b != AllowScheffer then
      SchefferRuleLighter(l, r, b);
      Restrict(Neg(And(l, r)), b)
    else Scheffer(Restrict(l, b), Restrict(r, b))
  }

  /** `children.map(c => restrictOperators(c, allowed))`. */
  function RestrictAll(cs: seq<Node>, b: Allowed): (rs: seq<Node>)
    requires IsPreset(b) && forall k | 0 <= k < |cs| :: WellFormed(cs[k])
    ensures |rs| == |cs|
    decreases SumWeight(cs, b), 3
  {
    if |cs| == 0 then []
    else
      ChildWeight(cs, |cs| - 1, b);
      RestrictAll(cs[..|cs| - 1], b) + [Restrict(cs[|cs| - 1], b)]
  }

  // ---------------------------------------------------------------------
  // The rewriter as the source runs it

  /** `restrictOperators` step by step: the NOR arm accumulates its
      disjunction chain and its rewritten children in loops. */
  method RestrictOperators(n: Node, b: Allowed) returns (r: Node)
    requires IsPreset(b) && WellFormed(n)
    ensures r == Restrict(n, b)
    decreases Weight(n, b), 2
  {
    if b == All {
      return n;
    }
    match n {
      case Equiv(x, y) => r := RestrictEquivArm(x, y, b);
      case Impl(x, y) => r := RestrictImplArm(x, y, b);
      case And(x, y) => r := RestrictAndArm(x, y, b);
      case Or(x, y) => r := RestrictOrArm(x, y, b);
      case Neg(c) => r := RestrictNegArm(c, b);
      case Nor(cs) => r := RestrictNorArm(cs, b);
      case Scheffer(x, y) => r := RestrictSchefferArm(x, y, b);
      case Atom(_) => r := n;
    }
  }

  method RestrictEquivArm(x: Node, y: Node, b: Allowed) returns (r: Node)
    requires IsPreset(b) && WellFormed(x) && WellFormed(y)
    ensures r == RestrictEquiv(x, y, b)
    decreases Weight(Equiv(x, y), b), 1
  {
    if Has(b, AllowEquiv) {
      var l := RestrictOperators(x, b);
      var rt := RestrictOperators(y, b);
      r := Equiv(l, rt);
    } else {
      EquivRuleLighter(x, y, b);
      r := RestrictOperators(And(Impl(x, y), Impl(y, x)), b);
    }
  }

  method RestrictImplArm(x: Node, y: Node, b: Allowed) returns (r: Node)
    requires IsPreset(b) && WellFormed(x) && WellFormed(y)
    ensures r == RestrictImpl(x, y, b)
    decreases Weight(Impl(x, y), b), 1
  {
    if Has(b, AllowImpl) {
      var l := RestrictOperators(x, b);
      var rt := RestrictOperators(y, b);
      r := Impl(l, rt);
    } else {
      ImplRuleLighter(x, y, b);
      r := RestrictOperators(Or(Neg(x), y), b);
    }
  }

  method RestrictAndArm(x: Node, y: Node, b: Allowed) returns (r: Node)
    requires IsPreset(b) && WellFormed(x) && WellFormed(y)
    ensures r == RestrictAnd(x, y, b)
    decreases Weight(And(x, y), b), 1
  {
    if Has(b, AllowAnd) {
      var l := RestrictOperators(x, b);
      var rt := RestrictOperators(y, b);
      r := And(l, rt);
    } else {
      AndRuleLighter(x, y, b);
      r := RestrictOperators(Neg(Or(Neg(x), Neg(y))), b);
    }
  }

  method RestrictOrArm(x: Node, y: Node, b: Allowed) returns (r: Node)
    requires IsPreset(b) && WellFormed(x) && WellFormed(y)
    ensures r == RestrictOr(x, y, b)
    decreases Weight(Or(x, y), b), 1
  {
    if Has(b, AllowOr) {
      var l := RestrictOperators(x, b);
      var rt := RestrictOperators(y, b);
      r := Or(l, rt);
    } else {
      OrRuleLighter(x, y, b);
      r := RestrictOperators(Neg(And(Neg(x), Neg(y))), b);
    }
  }

  method RestrictNegArm(c: Node, b: Allowed) returns (r: Node)
    requires IsPreset(b) && WellFormed(c)
    ensures r == RestrictNeg(c, b)
    decreases Weight(Neg(c), b), 1
  {
    if Has(b, AllowNeg) {
      var rc := RestrictOperators(c, b);
      r := Neg(rc);
    } else if b == AllowScheffer {
      NegCollapseLighter(c, b);
      if c.And? {
        r := RestrictOperators(Scheffer(c.left, c.right), b);
      } else {
        r := RestrictOperators(Scheffer(c, c), b);
      }
    } else if b == AllowNor {
      NegCollapseLighter(c, b);
      if c.Or? {
        r := RestrictOperators(Nor([c.left, c.right]), b);
      } else {
        r := RestrictOperators(Nor([c]), b);
      }
    } else {
      r := Neg(c);
    }
  }

  method RestrictNorArm(cs: seq<Node>, b: Allowed) returns (r: Node)
    requires IsPreset(b) && WellFormed(Nor(cs))
    ensures r == RestrictNor(cs, b)
    decreases Weight(Nor(cs), b), 1
  {
    if b != AllowNor {
      var stub := OrChainLoop(cs);
      ChainWeightIsWeight(cs, b);
      NegWeight(stub, b);
      OrChainShape(cs);
      r := RestrictOperators(Neg(stub), b);
    } else {
      var rs: seq<Node> := [];
      var i := 0;
      while i < |cs|
        invariant 0 <= i <= |cs|
        invariant rs == RestrictAll(cs[..i], b)
      {
        ChildWeight(cs, i, b);
        var c := RestrictOperators(cs[i], b);
        assert cs[..i + 1][..i] == cs[..i];
        rs := rs + [c];
        i := i + 1;
      }
      assert cs[..|cs|] == cs;
      r := Nor(rs);
    }
  }

  method RestrictSchefferArm(x: Node, y: Node, b: Allowed) returns (r: Node)
    requires IsPreset(b) && WellFormed(x) && WellFormed(y)
    ensures r == RestrictScheffer(x, y, b)
    decreases Weight(Scheffer(x, y), b), 1
  {
    if b != AllowScheffer {
      SchefferRuleLighter(x, y, b);
      r := RestrictOperators(Neg(And(x, y)), b);
    } else {
      var l := RestrictOperators(x, b);
      var rt := RestrictOperators(y, b);
      r := Scheffer(l, rt);
    }
  }

  lemma {:induction false} RestrictAllPointwise(cs: seq<Node>, b: Allowed, k: nat)
    requires IsPreset(b) && forall j | 0 <= j < |cs| :: WellFormed(cs[j])
    requires k < |cs|
    ensures RestrictAll(cs, b)[k] == Restrict(cs[k], b)
    decreases |cs|
  {
    var p := cs[..|cs| - 1];
    if k < |p| {
      assert p[k] == cs[k];
      RestrictAllPointwise(p, b, k);
    }
  }

  // ---------------------------------------------------------------------
  // What the rewriter guarantees

  /** Every connective of `n` is one the basis allows. */
  predicate Conforms(n: Node, b: Allowed) {
    match n
    case Atom(_) => true
    case Neg(c) => Has(b, AllowNeg) && Conforms(c, b)
    case And(l, r) => Has(b, AllowAnd) && Conforms(l, b) && Conforms(r, b)
    case Or(l, r) => Has(b, AllowOr) && Conforms(l, b) && Conforms(r, b)
    case Impl(l, r) => Has(b, AllowImpl) && Conforms(l, b) && Conforms(r, b)
    case Equiv(l, r) => Has(b, AllowEquiv) && Conforms(l, b) && Conforms(r, b)
    case Scheffer(l, r) => Has(b, AllowScheffer) && Conforms(l, b) && Conforms(r, b)
    case Nor(cs) => Has(b, AllowNor) && forall k | 0 <= k < |cs| :: Conforms(cs[k], b)
  }

  /** `m`, a rewrite of `n` in basis `b`, is well formed, has the atoms
      of `n`, uses only connectives of `b` (unless `b` is `All`, which
      leaves formulas untouched) and means what `n` means, NOR read as "no
      child holds". */
  ghost predicate Preserves(n: Node, m: Node, b: Allowed) {
    && WellFormed(m)
    && AtomNames(m) == AtomNames(n)
    && (b != All ==> Conforms(m, b))
    && forall i: Interpretation :: Create.Value(m, i) == Create.Value(n, i)
  }

  /** The induction behind the rewriter's guarantees, one arm at a time. */
  lemma {:induction false} RestrictPreserves(n: Node, b: Allowed)
    requires IsPreset(b) && WellFormed(n)
    ensures Preserves(n, Restrict(n, b), b)
    decreases Weight(n, b), 2
  {
    if b != All {
      match n
      case Atom(_) =>
      case Equiv(l, r) => EquivArmPreserves(l, r, b);
      case Impl(l, r) => ImplArmPreserves(l, r, b);
      case And(l, r) => AndArmPreserves(l, r, b);
      case Or(l, r) => OrArmPreserves(l, r, b);
      case Neg(c) => NegArmPreserves(c, b);
      case Nor(cs) => NorArmPreserves(cs, b);
      case Scheffer(l, r) => SchefferArmPreserves(l, r, b);
    }
  }

  /** A rewrite keeps the guarantees: if the rewritten formula `e` has the
      atoms and the meaning of `n`, what holds of `e` and `m` holds of `n`
      and `m`. */
  lemma RewriteStep(n: Node, e: Node, m: Node, b: Allowed)
    requires Preserves(e, m, b)
    requires AtomNames(e) == AtomNames(n)
    requires forall i: Interpretation :: Create.Value(e, i) == Create.Value(n, i)
    ensures Preserves(n, m, b)
  {
  }

  /** Rebuilding a binary node from rewritten operands keeps the guarantees. */
  lemma BinaryStep(n: Node, m: Node, b: Allowed)
    requires IsBinary(n) && IsBinary(m)
    requires m == n.(left := m.left, right := m.right)
    requires Preserves(n.left, m.left, b) && Preserves(n.right, m.right, b)
    requires b != All ==>
      (n.And? ==> Has(b, AllowAnd)) && (n.Or? ==> Has(b, AllowOr)) && (n.Impl? ==> Has(b, AllowImpl))
      && (n.Equiv? ==> Has(b, AllowEquiv)) && (n.Scheffer? ==> Has(b, AllowScheffer))
    ensures Preserves(n, m, b)
  {
    assert AtomNames(m) == AtomNames(m.left) + AtomNames(m.right);
    assert AtomNames(n) == AtomNames(n.left) + AtomNames(n.right);
    forall i: Interpretation ensures Create.Value(m, i) == Create.Value(n, i) {
      assert Create.Value(m.left, i) == Create.Value(n.left, i);
      assert Create.Value(m.right, i) == Create.Value(n.right, i);
    }
  }

  lemma {:induction false} EquivArmPreserves(l: Node, r: Node, b: Allowed)
    requires IsPreset(b) && WellFormed(l) && WellFormed(r)
    ensures Preserves(Equiv(l, r), RestrictEquiv(l, r, b), b)
    decreases Weight(Equiv(l, r), b), 1
  {
    if Has(b, AllowEquiv) {
      RestrictPreserves(l, b);
      RestrictPreserves(r, b);
      BinaryStep(Equiv(l, r), Equiv(Restrict(l, b), Restrict(r, b)), b);
    } else {
      EquivRuleLighter(l, r, b);
      var e := And(Impl(l, r), Impl(r, l));
      RestrictPreserves(e, b);
      assert AtomNames(Impl(r, l)) == AtomNames(l) + AtomNames(r);
      RewriteStep(Equiv(l, r), e, Restrict(e, b), b);
    }
  }

  lemma {:induction false} ImplArmPreserves(l: Node, r: Node, b: Allowed)
    requires IsPreset(b) && WellFormed(l) && WellFormed(r)
    ensures Preserves(Impl(l, r), RestrictImpl(l, r, b), b)
    decreases Weight(Impl(l, r), b), 1
  {
    if Has(b, AllowImpl) {
      RestrictPreserves(l, b);
      RestrictPreserves(r, b);
      BinaryStep(Impl(l, r), Impl(Restrict(l, b), Restrict(r, b)), b);
    } else {
      ImplRuleLighter(l, r, b);
      var e := Or(Neg(l), r);
      RestrictPreserves(e, b);
      RewriteStep(Impl(l, r), e, Restrict(e, b), b);
    }
  }

  lemma {:induction false} AndArmPreserves(l: Node, r: Node, b: Allowed)
    requires IsPreset(b) && WellFormed(l) && WellFormed(r)
    ensures Preserves(And(l, r), RestrictAnd(l, r, b), b)
    decreases Weight(And(l, r), b), 1
  {
    if Has(b, AllowAnd) {
      RestrictPreserves(l, b);
      RestrictPreserves(r, b);
      BinaryStep(And(l, r), And(Restrict(l, b), Restrict(r, b)), b);
    } else {
      AndRuleLighter(l, r, b);
      var e := Neg(Or(Neg(l), Neg(r)));
      RestrictPreserves(e, b);
      assert AtomNames(Or(Neg(l), Neg(r))) == AtomNames(Neg(l)) + AtomNames(Neg(r));
      forall i: Interpretation ensures Create.Value(e, i) == Create.Value(And(l, r), i) {
        assert Create.Value(e, i) == !Create.Value(Or(Neg(l), Neg(r)), i);
        assert Create.Value(Or(Neg(l), Neg(r)), i) == (!Create.Value(l, i) || !Create.Value(r, i));
      }
      RewriteStep(And(l, r), e, Restrict(e, b), b);
    }
  }

  lemma {:induction false} OrArmPreserves(l: Node, r: Node, b: Allowed)
    requires IsPreset(b) && WellFormed(l) && WellFormed(r)
    ensures Preserves(Or(l, r), RestrictOr(l, r, b), b)
    decreases Weight(Or(l, r), b), 1
  {
    if Has(b, AllowOr) {
      RestrictPreserves(l, b);
      RestrictPreserves(r, b);
      BinaryStep(Or(l, r), Or(Restrict(l, b), Restrict(r, b)), b);
    } else {
      OrRuleLighter(l, r, b);
      var e := Neg(And(Neg(l), Neg(r)));
      RestrictPreserves(e, b);
      assert AtomNames(And(Neg(l), Neg(r))) == AtomNames(Neg(l)) + AtomNames(Neg(r));
      forall i: Interpretation ensures Create.Value(e, i) == Create.Value(Or(l, r), i) {
        assert Create.Value(e, i) == !Create.Value(And(Neg(l), Neg(r)), i);
        assert Create.Value(And(Neg(l), Neg(r)), i) == (!Create.Value(l, i) && !Create.Value(r, i));
      }
      RewriteStep(Or(l, r), e, Restrict(e, b), b);
    }
  }

  lemma {:induction false} SchefferArmPreserves(l: Node, r: Node, b: Allowed)
    requires IsPreset(b) && WellFormed(l) && WellFormed(r)
    ensures Preserves(Scheffer(l, r), RestrictScheffer(l, r, b), b)
    decreases Weight(Scheffer(l, r), b), 1
  {
    if b != AllowScheffer {
      SchefferRuleLighter(l, r, b);
      var e := Neg(And(l, r));
      RestrictPreserves(e, b);
      RewriteStep(Scheffer(l, r), e, Restrict(e, b), b);
    } else {
      RestrictPreserves(l, b);
      RestrictPreserves(r, b);
      BinaryStep(Scheffer(l, r), Scheffer(Restrict(l, b), Restrict(r, b)), b);
    }
  }

  lemma NamesOfPair(x: Node, y: Node)
    ensures NamesOfAll([x]) == AtomNames(x)
    ensures NamesOfAll([x, y]) == AtomNames(x) + AtomNames(y)
  {
    ChildNamesIncluded([x], 0);
    ChildNamesIncluded([x, y], 0);
    ChildNamesIncluded([x, y], 1);
  }

  lemma {:induction false} NegArmPreserves(c: Node, b: Allowed)
    requires IsPreset(b) && WellFormed(c)
    ensures Preserves(Neg(c), RestrictNeg(c, b), b)
    decreases Weight(Neg(c), b), 1
  {
    if Has(b, AllowNeg) {
      RestrictPreserves(c, b);
      var m := Neg(Restrict(c, b));
      forall i: Interpretation ensures Create.Value(m, i) == Create.Value(Neg(c), i) {
        assert Create.Value(Restrict(c, b), i) == Create.Value(c, i);
      }
    } else if b == AllowScheffer {
      NegCollapseLighter(c, b);
      var e := if c.And? then Scheffer(c.left, c.right) else Scheffer(c, c);
      RestrictPreserves(e, b);
      RewriteStep(Neg(c), e, Restrict(e, b), b);
    } else if b == AllowNor {
      NegCollapseLighter(c, b);
      NamesOfPair(c, c);
      if c.Or? {
        NamesOfPair(c.left, c.right);
      }
      var e := if c.Or? then Nor([c.left, c.right]) else Nor([c]);
      RestrictPreserves(e, b);
      forall i: Interpretation ensures Create.Value(e, i) == Create.Value(Neg(c), i) {
        if c.Or? {
          assert [c.left, c.right][0] == c.left && [c.left, c.right][1] == c.right;
        } else {
          assert [c][0] == c;
        }
      }
      RewriteStep(Neg(c), e, Restrict(e, b), b);
    }
  }

  lemma {:induction false} NorArmPreserves(cs: seq<Node>, b: Allowed)
    requires IsPreset(b) && WellFormed(Nor(cs))
    ensures Preserves(Nor(cs), RestrictNor(cs, b), b)
    decreases Weight(Nor(cs), b), 1
  {
    if b != AllowNor {
      ChainWeightIsWeight(cs, b);
      NegWeight(OrChain(cs), b);
      OrChainShape(cs);
      var e := Neg(OrChain(cs));
      RestrictPreserves(e, b);
      forall i: Interpretation ensures Create.Value(e, i) == Create.Value(Nor(cs), i) {
        OrChainValue(cs, i);
      }
      RewriteStep(Nor(cs), e, Restrict(e, b), b);
    } else {
      var rs := RestrictAll(cs, b);
      forall k | 0 <= k < |cs| ensures rs[k] == Restrict(cs[k], b) && Preserves(cs[k], rs[k], b) {
        RestrictAllPointwise(cs, b, k);
        ChildWeight(cs, k, b);
        RestrictPreserves(cs[k], b);
      }
      forall a | a in NamesOfAll(rs) ensures a in NamesOfAll(cs) {
        var k :| 0 <= k < |rs| && a in AtomNames(rs[k]);
        ChildNamesIncluded(cs, k);
      }
      forall a | a in NamesOfAll(cs) ensures a in NamesOfAll(rs) {
        var k :| 0 <= k < |cs| && a in AtomNames(cs[k]);
        ChildNamesIncluded(rs, k);
      }
      forall i: Interpretation ensures Create.Value(Nor(rs), i) == Create.Value(Nor(cs), i) {
        assert forall k | 0 <= k < |cs| :: Create.Value(rs[k], i) == Create.Value(cs[k], i);
      }
    }
  }

  /** For every preset basis the result means what the input means, under
      every interpretation, NOR read as "no child holds". */
  lemma RestrictKeepsValue(n: Node, b: Allowed, i: Interpretation)
    requires IsPreset(b) && WellFormed(n)
    ensures Create.Value(Restrict(n, b), i) == Create.Value(n, i)
  {
    RestrictPreserves(n, b);
  }

  /** The result is well formed and has exactly the atoms of the input. */
  lemma RestrictKeepsAtoms(n: Node, b: Allowed)
    requires IsPreset(b) && WellFormed(n)
    ensures WellFormed(Restrict(n, b))
    ensures AtomNames(Restrict(n, b)) == AtomNames(n)
  {
    RestrictPreserves(n, b);
  }

  /** For the six presets other than `All`, the result uses only
      connectives of the basis: in the NOR basis only NOR nodes and atoms, in
      the Scheffer basis only Scheffer nodes and atoms. */
  lemma RestrictConforms(n: Node, b: Allowed)
    requires IsPreset(b) && b != All && WellFormed(n)
    ensures Conforms(Restrict(n, b), b)
  {
    RestrictPreserves(n, b);
  }

  /** With NOR read as "no child holds", evaluating the result on an
      interpretation that covers the input's atoms succeeds and agrees with
      evaluating the input. */
  lemma RestrictKeepsEvaluation(n: Node, b: Allowed, i: Interpretation)
    requires IsPreset(b) && WellFormed(n) && AtomNames(n) <= i.Keys
    ensures Create.EvaluateStd(n, i).Ok?
    ensures Create.EvaluateStd(Restrict(n, b), i) == Create.EvaluateStd(n, i)
  {
    RestrictPreserves(n, b);
  }

  /** A formula already in the basis is rebuilt node for node; with `All`
      every formula is returned as it is. Atoms conform to every basis, so
      they are always returned unchanged. */
  lemma {:induction false} RestrictFixesConforming(n: Node, b: Allowed)
    requires IsPreset(b) && WellFormed(n) && (b == All || Conforms(n, b))
    ensures Restrict(n, b) == n
  {
    if b != All {
      if n.Neg? {
        RestrictFixesConforming(n.child, b);
      } else if IsBinary(n) {
        RestrictFixesConforming(n.left, b);
        RestrictFixesConforming(n.right, b);
      } else if n.Nor? {
        var cs := n.children;
        var rs := RestrictAll(cs, b);
        forall k | 0 <= k < |cs| ensures rs[k] == cs[k] {
          RestrictAllPointwise(cs, b, k);
          RestrictFixesConforming(cs[k], b);
        }
        assert rs == cs;
      }
    }
  }

  /** Restricting twice gives the same tree as restricting once. */
  lemma RestrictIdempotent(n: Node, b: Allowed)
    requires IsPreset(b) && WellFormed(n)
    ensures var m := Restrict(n, b); WellFormed(m) && Restrict(m, b) == m
  {
    RestrictPreserves(n, b);
    RestrictFixesConforming(Restrict(n, b), b);
  }

  /** Without negation in the Scheffer basis, `!(x & y)` becomes `x | y`
      and any other `!c` becomes `c | c`. */
  lemma NegationCollapsesToScheffer(x: Node, y: Node, c: Node)
    requires WellFormed(x) && WellFormed(y) && WellFormed(c)
    ensures Restrict(Neg(And(x, y)), AllowScheffer)
         == Scheffer(Restrict(x, AllowScheffer), Restrict(y, AllowScheffer))
    ensures !c.And? ==>
      Restrict(Neg(c), AllowScheffer) == Scheffer(Restrict(c, AllowScheffer), Restrict(c, AllowScheffer))
  {
    var s := AllowScheffer;
    NegCollapseLighter(And(x, y), s);
    assert Restrict(Neg(And(x, y)), s) == RestrictNeg(And(x, y), s);
    assert RestrictNeg(And(x, y), s) == Restrict(Scheffer(x, y), s);
    assert Restrict(Scheffer(x, y), s) == RestrictScheffer(x, y, s);
    if !c.And? {
      NegCollapseLighter(c, s);
      assert Restrict(Neg(c), s) == RestrictNeg(c, s);
      assert RestrictNeg(c, s) == Restrict(Scheffer(c, c), s);
      assert Restrict(Scheffer(c, c), s) == RestrictScheffer(c, c, s);
    }
  }

  /** Without negation in the NOR basis, `!(x | y)` becomes `N(x, y)` and
      any other `!c` becomes `N(c)`. */
  lemma NegationCollapsesToNor(x: Node, y: Node, c: Node)
    requires WellFormed(x) && WellFormed(y) && WellFormed(c)
    ensures Restrict(Neg(Or(x, y)), AllowNor) == Nor([Restrict(x, AllowNor), Restrict(y, AllowNor)])
    ensures !c.Or? ==> Restrict(Neg(c), AllowNor) == Nor([Restrict(c, AllowNor)])
  {
    NegOrToNor(x, y);
    if !c.Or? {
      NegOtherToNor(c);
    }
  }

  lemma NegOrToNor(x: Node, y: Node)
    requires WellFormed(x) && WellFormed(y)
    ensures Restrict(Neg(Or(x, y)), AllowNor) == Nor([Restrict(x, AllowNor), Restrict(y, AllowNor)])
  {
    var v := AllowNor;
    NegCollapseLighter(Or(x, y), v);
    assert Restrict(Neg(Or(x, y)), v) == RestrictNeg(Or(x, y), v);
    assert RestrictNeg(Or(x, y), v) == Restrict(Nor([x, y]), v);
    assert Restrict(Nor([x, y]), v) == RestrictNor([x, y], v);
    RestrictAllPointwise([x, y], v, 0);
    RestrictAllPointwise([x, y], v, 1);
  }

  lemma NegOtherToNor(c: Node)
    requires WellFormed(c) && !c.Or?
    ensures Restrict(Neg(c), AllowNor) == Nor([Restrict(c, AllowNor)])
  {
    var v := AllowNor;
    NegCollapseLighter(c, v);
    assert Restrict(Neg(c), v) == RestrictNeg(c, v);
    assert RestrictNeg(c, v) == Restrict(Nor([c]), v);
    assert Restrict(Nor([c]), v) == RestrictNor([c], v);
    RestrictAllPointwise([c], v, 0);
  }

  /** The NOR basis against `evaluate` as the source writes it: `!a` with
      `a` true is false, but its rewrite `N(a)` evaluates to true, because a
      NOR node evaluates to true whatever its children are. Read as "no
      child holds", the rewrite is false as it should be. */
  lemma NorRewriteMisevaluated()
    ensures Restrict(Neg(Atom("a")), AllowNor) == Nor([Atom("a")])
    ensures Create.Evaluate(Neg(Atom("a")), map["a" := true]) == Ok(false)
    ensures Create.Evaluate(Restrict(Neg(Atom("a")), AllowNor), map["a" := true]) == Ok(true)
    ensures Create.EvaluateStd(Restrict(Neg(Atom("a")), AllowNor), map["a" := true]) == Ok(false)
  {
    NegationCollapsesToNor(Atom("a"), Atom("a"), Atom("a"));
    assert NamesOfAll([Atom("a")]) == AtomNames(Atom("a"));
    Create.NorEvaluatesToTrue([Atom("a")], map["a" := true], 0);
  }
}
