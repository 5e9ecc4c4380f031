/** Shared vocabulary of the propositional-logic engine: the formula tree,
    interpretations and the failures that lexing, parsing and evaluation
    report. Mirrors the `Logic` namespace of src/lib/types.d.ts. */
module Types {

  /** A propositional formula. Values are immutable: every builder and
      rewrite produces new nodes. */
  datatype Node =
    | Atom(name: string)
    | Neg(child: Node)
    | And(left: Node, right: Node)
    | Or(left: Node, right: Node)
    | Impl(left: Node, right: Node)
    | Equiv(left: Node, right: Node)
    | Scheffer(left: Node, right: Node)
    | Nor(children: seq<Node>)

  /** Variable name to truth value; a JavaScript object used as a dictionary. */
  type Interpretation = map<string, bool>

  /** The letter-and-digit property names every JavaScript object inherits
      from `Object.prototype`. The `in` test of an atom's evaluation finds
      them in every interpretation; the map model does not. */
  const InheritedNames: set<string> := {"toString", "valueOf", "constructor", "hasOwnProperty", "isPrototypeOf", "propertyIsEnumerable", "toLocaleString"}

  /** What a lexing or parsing error says was expected: one of the two
      arrows, an identifier, or a token kind printed as its numeric enum
      value (as a template string prints a TypeScript numeric enum). */
  datatype Expected = ImplArrow | EquivArrow | Identifier | KindNumber(code: nat)

  /** What the source reports by throwing. Message texts are not modelled;
      what they name (the offset, what was expected, the spelling found) is. */
  datatype Error =
    | LexError(pos: nat, expected: Expected)
    | UnexpectedToken(expected: Expected, found: string)
    | TrailingInput(found: string)
    | UnexpectedEnd
    | MissingVariable(name: string)
    | NoAtoms

  datatype Result<T> = Ok(value: T) | Err(error: Error)

  datatype Outcome = Pass | Fail(error: Error)

  datatype Option<T> = None | Some(value: T)

  predicate IsBinary(n: Node) {
    n.And? || n.Or? || n.Impl? || n.Equiv? || n.Scheffer?
  }

  /** The shape invariant of the tree: every NOR node has at least one child. */
  predicate WellFormed(n: Node) {
    match n
    case Atom(_) => true
    case Neg(c) => WellFormed(c)
    case Nor(cs) => |cs| >= 1 && forall k | 0 <= k < |cs| :: WellFormed(cs[k])
    case _ => WellFormed(n.left) && WellFormed(n.right)
  }

  /** The whole names of the atoms occurring in `n`. */
  function AtomNames(n: Node): set<string> {
    match n
    case Atom(name) => {name}
    case Neg(c) => AtomNames(c)
    case Nor(cs) => NamesOfAll(cs)
    case _ => AtomNames(n.left) + AtomNames(n.right)
  }

  function NamesOfAll(cs: seq<Node>): set<string> {
    set k, a | 0 <= k < |cs| && a in AtomNames(cs[k]) :: a
  }

  /** True when no NOR node occurs in `n`. */
  predicate NorFree(n: Node) {
    match n
    case Atom(_) => true
    case Neg(c) => NorFree(c)
    case Nor(_) => false
    case _ => NorFree(n.left) && NorFree(n.right)
  }

  lemma ChildNamesIncluded(cs: seq<Node>, k: nat)
    requires k < |cs|
    ensures AtomNames(cs[k]) <= NamesOfAll(cs)
  {
    forall a | a in AtomNames(cs[k]) ensures a in NamesOfAll(cs) {
      assert 0 <= k < |cs| && a in AtomNames(cs[k]);
    }
  }

  /** The names of a list of nodes with one more node appended. */
  lemma NamesOfAllSnoc(cs: seq<Node>, c: Node)
    ensures NamesOfAll(cs + [c]) == NamesOfAll(cs) + AtomNames(c)
  {
    var xs := cs + [c];
    forall a | a in NamesOfAll(xs) ensures a in NamesOfAll(cs) + AtomNames(c) {
      var k :| 0 <= k < |xs| && a in AtomNames(xs[k]);
      if k < |cs| {
        assert xs[k] == cs[k];
      }
    }
    forall a | a in NamesOfAll(cs) + AtomNames(c) ensures a in NamesOfAll(xs) {
      if a in AtomNames(c) {
        assert xs[|cs|] == c;
      } else {
        var k :| 0 <= k < |cs| && a in AtomNames(cs[k]);
        assert xs[k] == cs[k];
      }
    }
  }
}
