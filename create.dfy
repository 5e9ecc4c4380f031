/** The node operations of src/lib/logic/create.ts: the operator glyph,
    evaluation under an interpretation and the fully parenthesised
    rendering. The eight wrapper classes become the `Node` datatype; their
    builder methods `neg/and/or/impl/equiv` and the factory functions are
    its constructors. */
module Create {
  import opened Types

  /** The display glyph of a node: an atom shows its own name, a
      connective one character that is neither a parenthesis nor a comma. */
  function OperatorString(n: Node): (r: string)
    ensures n.Atom? ==> r == n.name
    ensures !n.Atom? ==> |r| == 1 && r[0] != '(' && r[0] != ')' && r[0] != ','
  {
    match n
    case Atom(name) => name
    case Neg(_) => "\U{00AC}"
    case And(_, _) => "\U{2227}"
    case Or(_, _) => "\U{2228}"
    case Impl(_, _) => "\U{2192}"
    case Equiv(_, _) => "\U{2194}"
    case Scheffer(_, _) => "|"
    case Nor(_) => "N"
  }

  /** The standard meaning of a formula: NOR holds iff every child is
      false. An atom absent from `i` counts as false; on interpretations
      that cover the formula's atoms this never matters. */
  function Value(n: Node, i: Interpretation): bool {
    match n
    case Atom(name) => name in i && i[name]
    case Neg(c) => !Value(c, i)
    case And(l, r) => Value(l, i) && Value(r, i)
    case Or(l, r) => Value(l, i) || Value(r, i)
    case Impl(l, r) => !Value(l, i) || Value(r, i)
    case Equiv(l, r) => Value(l, i) == Value(r, i)
    case Scheffer(l, r) => !(Value(l, i) && Value(r, i))
    case Nor(cs) => forall k | 0 <= k < |cs| :: !Value(cs[k], i)
  }

  /** `evaluate` as the source writes it. `&&` and `||` short-circuit, so
      the right operand is only looked at when the left one does not
      decide the result; a NOR node evaluates to true whatever its
      children are. */
  function Evaluate(n: Node, i: Interpretation): (r: Result<bool>)
    ensures r.Err? ==> r.error.MissingVariable? && r.error.name in AtomNames(n) && r.error.name !in i
    ensures AtomNames(n) <= i.Keys ==> r.Ok?
    ensures r.Ok? && NorFree(n) ==> r.value == Value(n, i)
    ensures n.Atom? ==> (r.Err? <==> n.name !in i) && (n.name in i ==> r == Ok(i[n.name]))
    ensures n.Nor? ==> r == Ok(true)
  {
    match n
    case Atom(name) =>
      if name in i then Ok(i[name]) else Err(MissingVariable(name))
    case Neg(c) =>
      (match Evaluate(c, i)
       case Err(e) => Err(e)
       case Ok(v) => Ok(!v))
    case And(l, r) =>
      (match Evaluate(l, i)
       case Err(e) => Err(e)
       case Ok(v) => if !v then Ok(false) else Evaluate(r, i))
    case Or(l, r) =>
      (match Evaluate(l, i)
       case Err(e) => Err(e)
       case Ok(v) => if v then Ok(true) else Evaluate(r, i))
    case Impl(l, r) =>
      (match Evaluate(l, i)
       case Err(e) => Err(e)
       case Ok(v) => if !v then Ok(true) else Evaluate(r, i))
    case Equiv(l, r) =>
      (match Evaluate(l, i)
       case Err(e) => Err(e)
       case Ok(v) =>
         match Evaluate(r, i)
         case Err(e) => Err(e)
         case Ok(w) => Ok(v == w))
    case Scheffer(l, r) =>
      (match Evaluate(l, i)
       case Err(e) => Err(e)
       case Ok(v) =>
         if !v then Ok(true)
         else match Evaluate(r, i)
           case Err(e) => Err(e)
           case Ok(w) => Ok(!w))
    case Nor(_) => Ok(true)
  }

  /** `evaluate` with NOR read as "true iff every child is false", the
      reading the rewriter relies on. Children are evaluated left to right
      and the first true child decides. Every other case is `Evaluate`'s. */
  function EvaluateStd(n: Node, i: Interpretation): (r: Result<bool>)
    ensures r.Err? ==> r.error.MissingVariable? && r.error.name in AtomNames(n) && r.error.name !in i
    ensures AtomNames(n) <= i.Keys ==> r.Ok?
    ensures r.Ok? ==> r.value == Value(n, i)
    ensures n.Atom? ==> (r.Err? <==> n.name !in i) && (n.name in i ==> r == Ok(i[n.name]))
  {
    match n
    case Atom(name) =>
      if name in i then Ok(i[name]) else Err(MissingVariable(name))
    case Neg(c) =>
      (match EvaluateStd(c, i)
       case Err(e) => Err(e)
       case Ok(v) => Ok(!v))
    case And(l, r) =>
      (match EvaluateStd(l, i)
       case Err(e) => Err(e)
       case Ok(v) => if !v then Ok(false) else EvaluateStd(r, i))
    case Or(l, r) =>
      (match EvaluateStd(l, i)
       case Err(e) => Err(e)
       case Ok(v) => if v then Ok(true) else EvaluateStd(r, i))
    case Impl(l, r) =>
      (match EvaluateStd(l, i)
       case Err(e) => Err(e)
       case Ok(v) => if !v then Ok(true) else EvaluateStd(r, i))
    case Equiv(l, r) =>
      (match EvaluateStd(l, i)
       case Err(e) => Err(e)
       case Ok(v) =>
         match EvaluateStd(r, i)
         case Err(e) => Err(e)
         case Ok(w) => Ok(v == w))
    case Scheffer(l, r) =>
      (match EvaluateStd(l, i)
       case Err(e) => Err(e)
       case Ok(v) =>
         if !v then Ok(true)
         else match EvaluateStd(r, i)
           case Err(e) => Err(e)
           case Ok(w) => Ok(!w))
    case Nor(cs) => NoneHolds(cs, i)
  }

  /** Evaluates `cs` from the left; true iff every child is false. */
  function NoneHolds(cs: seq<Node>, i: Interpretation): (r: Result<bool>)
    ensures r.Err? ==> r.error.MissingVariable? && r.error.name in NamesOfAll(cs) && r.error.name !in i
    ensures NamesOfAll(cs) <= i.Keys ==> r.Ok?
    ensures r.Ok? ==> r.value == forall k | 0 <= k < |cs| :: !Value(cs[k], i)
  {
    if |cs| == 0 then Ok(true)
    else
      assert forall k | 0 <= k < |cs| - 1 :: cs[1..][k] == cs[k + 1];
      assert forall a | a in AtomNames(cs[0]) :: a in NamesOfAll(cs);
      assert forall a | a in NamesOfAll(cs[1..]) :: a in NamesOfAll(cs);
      match EvaluateStd(cs[0], i)
      case Err(e) => Err(e)
      case Ok(v) => if v then Ok(false) else NoneHolds(cs[1..], i)
  }

  /** The source's NOR evaluation agrees with the standard one exactly on
      formulas without NOR nodes. */
  lemma {:induction false} EvaluateIsStdWithoutNor(n: Node, i: Interpretation)
    requires NorFree(n)
    ensures Evaluate(n, i) == EvaluateStd(n, i)
  {
    match n
    case Atom(_) =>
    case Neg(c) => EvaluateIsStdWithoutNor(c, i);
    case Nor(_) =>
    case _ =>
      EvaluateIsStdWithoutNor(n.left, i);
      EvaluateIsStdWithoutNor(n.right, i);
  }

  /** A NOR node evaluates to true under the source even when one of its
      children is true, where the standard reading gives false. */
  lemma NorEvaluatesToTrue(cs: seq<Node>, i: Interpretation, k: nat)
    requires NamesOfAll(cs) <= i.Keys
    requires k < |cs| && Value(cs[k], i)
    ensures Evaluate(Nor(cs), i) == Ok(true)
    ensures EvaluateStd(Nor(cs), i) == Ok(false)
  {
    assert AtomNames(Nor(cs)) == NamesOfAll(cs);
    assert !Value(Nor(cs), i);
  }

  /** Renders each child and joins the renderings with ", ". */
  function JoinRendered(cs: seq<Node>): string {
    if |cs| == 0 then ""
    else if |cs| == 1 then ToBasicString(cs[0])
    else JoinRendered(cs[..|cs| - 1]) + ", " + ToBasicString(cs[|cs| - 1])
  }

  /** Fully parenthesised text of a formula. */
  function ToBasicString(n: Node): string {
    match n
    case Atom(name) => name
    case Neg(c) => "\U{00AC}" + ToBasicString(c)
    case And(l, r) => "(" + ToBasicString(l) + " \U{2227} " + ToBasicString(r) + ")"
    case Or(l, r) => "(" + ToBasicString(l) + " \U{2228} " + ToBasicString(r) + ")"
    case Impl(l, r) => "(" + ToBasicString(l) + " \U{2192} " + ToBasicString(r) + ")"
    case Equiv(l, r) => "(" + ToBasicString(l) + " \U{2194} " + ToBasicString(r) + ")"
    case Scheffer(l, r) => "(" + ToBasicString(l) + " | " + ToBasicString(r) + ")"
    case Nor(cs) => "N(" + JoinRendered(cs) + ")"
  }

  /** The rendering writes each connective with the node's own glyph. */
  lemma RenderingUsesOperatorGlyph(n: Node)
    ensures n.Neg? ==> ToBasicString(n) == OperatorString(n) + ToBasicString(n.child)
    ensures IsBinary(n) ==>
              ToBasicString(n) ==
              "(" + ToBasicString(n.left) + " " + OperatorString(n) + " " + ToBasicString(n.right) + ")"
    ensures n.Nor? ==> ToBasicString(n) == OperatorString(n) + "(" + JoinRendered(n.children) + ")"
    ensures n.Atom? ==> ToBasicString(n) == OperatorString(n)
  {
  }

  /** Every atom name is free of parentheses. */
  predicate ParenFreeNames(n: Node) {
    forall name | name in AtomNames(n) :: '(' !in name && ')' !in name
  }

  /** Number of occurrences of `c` in `s`. */
  function Count(s: string, c: char): nat {
    multiset(s)[c]
  }

  /** The rendering opens exactly as many parentheses as it closes. */
  lemma {:induction false} RenderingIsBalanced(n: Node)
    requires ParenFreeNames(n)
    ensures Count(ToBasicString(n), '(') == Count(ToBasicString(n), ')')
  {
    match n
    case Atom(name) =>
      AtomBalanced(name);
    case Neg(c) =>
      assert ParenFreeNames(c);
      RenderingIsBalanced(c);
      NegBalanced(c);
    case Nor(cs) =>
      NorChildrenParenFree(cs);
      JoinIsBalanced(cs);
      ListCount(JoinRendered(cs));
    case _ =>
      assert ParenFreeNames(n.left) && ParenFreeNames(n.right);
      RenderingIsBalanced(n.left);
      RenderingIsBalanced(n.right);
      BinaryRenderingCount(n);
  }

  lemma AtomBalanced(name: string)
    requires ParenFreeNames(Atom(name))
    ensures Count(ToBasicString(Atom(name)), '(') == 0 == Count(ToBasicString(Atom(name)), ')')
  {
    assert name in AtomNames(Atom(name));
  }

  lemma NegBalanced(c: Node)
    requires Count(ToBasicString(c), '(') == Count(ToBasicString(c), ')')
    ensures Count(ToBasicString(Neg(c)), '(') == Count(ToBasicString(Neg(c)), ')')
  {
    CountConcat("\U{00AC}", ToBasicString(c));
  }

  lemma NorChildrenParenFree(cs: seq<Node>)
    requires ParenFreeNames(Nor(cs))
    ensures forall k | 0 <= k < |cs| :: ParenFreeNames(cs[k])
  {
    forall k | 0 <= k < |cs| ensures ParenFreeNames(cs[k]) {
      ChildNamesIncluded(cs, k);
    }
  }

  lemma BinaryRenderingCount(n: Node)
    requires IsBinary(n)
    ensures Count(ToBasicString(n), '(') == 1 + Count(ToBasicString(n.left), '(') + Count(ToBasicString(n.right), '(')
    ensures Count(ToBasicString(n), ')') == 1 + Count(ToBasicString(n.left), ')') + Count(ToBasicString(n.right), ')')
  {
    var mid := " " + OperatorString(n) + " ";
    RenderingUsesOperatorGlyph(n);
    assert '(' !in mid && ')' !in mid;
    WrappedCount(ToBasicString(n.left), mid, ToBasicString(n.right));
  }

  lemma CountConcat(a: string, b: string)
    ensures forall c :: Count(a + b, c) == Count(a, c) + Count(b, c)
  {
    assert forall c :: multiset(a + b)[c] == multiset(a)[c] + multiset(b)[c];
  }

  /** Parentheses of `(l mid r)` when `mid` holds none. */
  lemma WrappedCount(l: string, mid: string, r: string)
    requires '(' !in mid && ')' !in mid
    ensures Count("(" + l + mid + r + ")", '(') == 1 + Count(l, '(') + Count(r, '(')
    ensures Count("(" + l + mid + r + ")", ')') == 1 + Count(l, ')') + Count(r, ')')
  {
    CountConcat("(", l);
    CountConcat("(" + l, mid);
    CountConcat("(" + l + mid, r);
    CountConcat("(" + l + mid + r, ")");
    assert Count(mid, '(') == 0 && Count(mid, ')') == 0;
  }

  /** Parentheses of `N(j)`. */
  lemma ListCount(j: string)
    ensures Count("N(" + j + ")", '(') == 1 + Count(j, '(')
    ensures Count("N(" + j + ")", ')') == 1 + Count(j, ')')
  {
    CountConcat("N(", j);
    CountConcat("N(" + j, ")");
    assert "N(" == ['N'] + ['('];
    CountConcat(['N'], ['(']);
  }

  lemma {:induction false} JoinIsBalanced(cs: seq<Node>)
    requires forall k | 0 <= k < |cs| :: ParenFreeNames(cs[k])
    ensures Count(JoinRendered(cs), '(') == Count(JoinRendered(cs), ')')
  {
    if |cs| == 1 {
      RenderingIsBalanced(cs[0]);
    } else if |cs| > 1 {
      JoinIsBalanced(cs[..|cs| - 1]);
      RenderingIsBalanced(cs[|cs| - 1]);
      CountConcat(JoinRendered(cs[..|cs| - 1]), ", ");
      CountConcat(JoinRendered(cs[..|cs| - 1]) + ", ", ToBasicString(cs[|cs| - 1]));
    }
  }
}
