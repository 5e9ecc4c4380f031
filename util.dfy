/** Tree utilities of src/lib/logic/util.ts: the atom collector and the
    child list of a node.

    `collectAtoms` builds `new Set(name)` for an atom. A JavaScript `Set`
    built from a string holds the string's characters, so an atom named
    `ab` contributes `a` and `b`, not `ab`. The model keeps this: the
    collected "atoms" are one-letter strings. */
module Util {
  import opened Types

  /** `new Set(name)`: the one-letter strings of the characters of `name`. */
  function NameChars(name: string): (r: set<string>)
    ensures forall a :: a in r <==> |a| == 1 && a[0] in name
  {
    var r := set k | 0 <= k < |name| :: [name[k]];
    assert forall a | |a| == 1 && a[0] in name :: a in r by {
      forall a | |a| == 1 && a[0] in name ensures a in r {
        var k :| 0 <= k < |name| && name[k] == a[0];
        assert a == [name[k]];
      }
    }
    r
  }

  /** What `collectAtoms` returns: only one-letter strings. */
  function Atoms(n: Node): (r: set<string>)
    ensures forall a | a in r :: |a| == 1
  {
    match n
    case Atom(name) => NameChars(name)
    case Neg(c) => Atoms(c)
    case Nor(cs) => AtomsOfAll(cs)
    case _ => Atoms(n.left) + Atoms(n.right)
  }

  /** The union of `Atoms` over a list of nodes. */
  function AtomsOfAll(cs: seq<Node>): (r: set<string>)
    ensures forall a | a in r :: |a| == 1
  {
    set k, a | 0 <= k < |cs| && a in Atoms(cs[k]) :: a
  }

  /** `children`: the direct subformulas, in order: none for an atom, the
      operand of a negation, the two operands of a binary connective, and
      the operands of a NOR as listed. Each child is a proper subterm, and
      only atoms are leaves of a well-formed tree. */
  function Children(n: Node): (r: seq<Node>)
    ensures n.Atom? ==> r == []
    ensures n.Neg? ==> r == [n.child]
    ensures n.Nor? ==> r == n.children
    ensures (n.And? || n.Or? || n.Impl? || n.Equiv? || n.Scheffer?) ==> r == [n.left, n.right]
    ensures forall c | c in r :: c < n
    ensures !n.Atom? && WellFormed(n) ==> |r| >= 1
  {
    match n
    case Atom(_) => []
    case Neg(c) => [c]
    case Nor(cs) => cs
    case _ => [n.left, n.right]
  }

  /** The letters of a set of names. */
  function Letters(names: set<string>): set<string> {
    set name, a | name in names && a in NameChars(name) :: a
  }

  lemma AtomsOfAllSnoc(cs: seq<Node>, c: Node)
    ensures AtomsOfAll(cs + [c]) == AtomsOfAll(cs) + Atoms(c)
  {
    var xs := cs + [c];
    forall a | a in AtomsOfAll(xs) ensures a in AtomsOfAll(cs) + Atoms(c) {
      var k :| 0 <= k < |xs| && a in Atoms(xs[k]);
      if k < |cs| {
        assert xs[k] == cs[k];
      }
    }
    forall a | a in AtomsOfAll(cs) + Atoms(c) ensures a in AtomsOfAll(xs) {
      if a in Atoms(c) {
        assert xs[|cs|] == c;
      } else {
        var k :| 0 <= k < |cs| && a in Atoms(cs[k]);
        assert xs[k] == cs[k];
      }
    }
  }

  /** The inner loop of the NOR branch of `collectAtoms`: add every element
      of `sub` to `s`, one at a time. */
  method AddAll(s: set<string>, sub: set<string>) returns (t: set<string>)
    ensures t == s + sub
  {
    t := s;
    var rest := sub;
    while rest != {}
      invariant rest <= sub
      invariant t == s + (sub - rest)
      decreases |rest|
    {
      var a :| a in rest;
      t := t + {a};
      rest := rest - {a};
    }
  }

  /** `collectAtoms`. The NOR branch fills a set with nested loops, the
      other branches combine the children's sets. */
  method CollectAtoms(n: Node) returns (s: set<string>)
    ensures s == Atoms(n)
  {
    match n {
      case Atom(name) =>
        s := NameChars(name);
      case Neg(c) =>
        s := CollectAtoms(c);
      case Nor(cs) =>
        s := {};
        var i := 0;
        while i < |cs|
          invariant 0 <= i <= |cs|
          invariant s == AtomsOfAll(cs[..i])
        {
          var sub := CollectAtoms(cs[i]);
          s := AddAll(s, sub);
          assert cs[..i + 1] == cs[..i] + [cs[i]];
          AtomsOfAllSnoc(cs[..i], cs[i]);
          i := i + 1;
        }
        assert cs[..|cs|] == cs;
      case _ =>
        var l := CollectAtoms(n.left);
        var r := CollectAtoms(n.right);
        s := l + r;
    }
  }

  /** For every node other than an atom, `collectAtoms` is the union of
      its results on the node's `children`. */
  lemma {:induction false} AtomsOfChildren(n: Node)
    requires !n.Atom?
    ensures Atoms(n) == AtomsOfAll(Children(n))
  {
    var cs := Children(n);
    assert AtomsOfAll([]) == {};
    if n.Neg? {
      assert cs == [] + [n.child];
      AtomsOfAllSnoc([], n.child);
    } else if IsBinary(n) {
      assert cs == [] + [n.left] + [n.right];
      AtomsOfAllSnoc([], n.left);
      AtomsOfAllSnoc([] + [n.left], n.right);
    }
  }

  lemma LettersUnion(x: set<string>, y: set<string>)
    ensures Letters(x + y) == Letters(x) + Letters(y)
  {
  }

  /** Every collected atom is one letter of the name of an atom of `n`; and
      every letter of such a name is collected. */
  lemma {:induction false} AtomsAreLetters(n: Node)
    ensures Atoms(n) == Letters(AtomNames(n))
    decreases n
  {
    match n
    case Atom(name) =>
      assert AtomNames(n) == {name};
    case Neg(c) =>
      AtomsAreLetters(c);
    case Nor(cs) =>
      forall k | 0 <= k < |cs| {
        AtomsAreLetters(cs[k]);
      }
      forall a | a in Atoms(n) ensures a in Letters(NamesOfAll(cs)) {
        assert a in AtomsOfAll(cs);
        var k :| 0 <= k < |cs| && a in Atoms(cs[k]);
        var name :| name in AtomNames(cs[k]) && a in NameChars(name);
        ChildNamesIncluded(cs, k);
      }
      forall a | a in Letters(NamesOfAll(cs)) ensures a in Atoms(n) {
        var name :| name in NamesOfAll(cs) && a in NameChars(name);
        var k :| 0 <= k < |cs| && name in AtomNames(cs[k]);
        assert a in Letters(AtomNames(cs[k]));
      }
    case _ =>
      AtomsAreLetters(n.left);
      AtomsAreLetters(n.right);
      LettersUnion(AtomNames(n.left), AtomNames(n.right));
  }

  /** When every atom name is a single letter, the collector returns exactly
      the atom names. */
  lemma SingleLetterAtoms(n: Node)
    requires forall name | name in AtomNames(n) :: |name| == 1
    ensures Atoms(n) == AtomNames(n)
  {
    AtomsAreLetters(n);
    forall name | name in AtomNames(n) ensures name in Letters(AtomNames(n)) {
      assert name in NameChars(name);
    }
  }

  /** An atom with a longer name is broken up: its own name is not
      collected. */
  lemma LongNameFragmented(name: string)
    requires |name| >= 2
    ensures name !in Atoms(Atom(name))
    ensures forall k | 0 <= k < |name| :: [name[k]] in Atoms(Atom(name))
  {
  }
}
