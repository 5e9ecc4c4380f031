/** The truth-table enumerator of src/lib/logic/truth-table.ts: the sorted
    atom list, every interpretation of it in binary counting order, and one
    row per interpretation.

    The atoms are what `collectAtoms` returns, the letters of the atom
    names (see module Util). A formula whose atom names are all single
    letters gets a full table; one with a longer name fails at evaluation,
    because the name itself is never given a value. */
module TruthTable {
  import opened Types
  import opened Create
  import opened Util
  import Lexer

  // ---------------------------------------------------------------------
  // Sorting the atoms

  /** The order of JavaScript's default `sort` on strings: lexicographic
      by character, a proper prefix first. */
  predicate Below(a: string, b: string)
    decreases |a|
  {
    |b| > 0 && (|a| == 0 || a[0] < b[0] || (a[0] == b[0] && Below(a[1..], b[1..])))
  }

  lemma {:induction false} BelowIrreflexive(a: string)
    ensures !Below(a, a)
    decreases |a|
  {
    if |a| > 0 {
      BelowIrreflexive(a[1..]);
    }
  }

  lemma {:induction false} BelowTransitive(a: string, b: string, c: string)
    requires Below(a, b) && Below(b, c)
    ensures Below(a, c)
    decreases |a|
  {
    if |a| > 0 && a[0] == b[0] && b[0] == c[0] {
      BelowTransitive(a[1..], b[1..], c[1..]);
    }
  }

  lemma {:induction false} BelowTotal(a: string, b: string)
    requires a != b
    ensures Below(a, b) || Below(b, a)
    decreases |a|
  {
    if |a| > 0 && |b| > 0 && a[0] == b[0] {
      assert a == [a[0]] + a[1..] && b == [b[0]] + b[1..];
      BelowTotal(a[1..], b[1..]);
    }
  }

  /** `m` comes first among `s`. */
  predicate IsLeast(m: string, s: set<string>) {
    m in s && forall y | y in s && y != m :: Below(m, y)
  }

  lemma {:induction false} LeastExists(s: set<string>)
    requires s != {}
    ensures exists m :: IsLeast(m, s)
    decreases |s|
  {
    var x :| x in s;
    if s == {x} {
      assert IsLeast(x, s);
    } else {
      LeastExists(s - {x});
      var m :| IsLeast(m, s - {x});
      BelowTotal(x, m);
      if Below(x, m) {
        forall y | y in s && y != x ensures Below(x, y) {
          if y != m {
            BelowTransitive(x, m, y);
          }
        }
        assert IsLeast(x, s);
      } else {
        assert IsLeast(m, s);
      }
    }
  }

  lemma LeastUnique(m: string, m': string, s: set<string>)
    requires IsLeast(m, s) && IsLeast(m', s)
    ensures m == m'
  {
    if m != m' {
      BelowTransitive(m, m', m);
      BelowIrreflexive(m);
    }
  }

  /** The elements of `s` in ascending order: `[...s].sort()`. */
  ghost function SortedOf(s: set<string>): seq<string>
    decreases |s|
  {
    if s == {} then []
    else
      LeastExists(s);
      var m :| IsLeast(m, s);
      [m] + SortedOf(s - {m})
  }

  predicate StrictlySorted(xs: seq<string>) {
    forall j, k | 0 <= j < k < |xs| :: Below(xs[j], xs[k])
  }

  function Elements(xs: seq<string>): set<string> {
    set a | a in xs
  }

  lemma SortedOfStep(s: set<string>, m: string)
    requires IsLeast(m, s)
    ensures SortedOf(s) == [m] + SortedOf(s - {m})
  {
    var m' :| IsLeast(m', s) && SortedOf(s) == [m'] + SortedOf(s - {m'});
    LeastUnique(m, m', s);
  }

  /** The sorted list holds each atom exactly once. */
  lemma {:induction false} SortedOfElements(s: set<string>)
    ensures Elements(SortedOf(s)) == s
    ensures |SortedOf(s)| == |s|
    decreases |s|
  {
    if s != {} {
      LeastExists(s);
      var m :| IsLeast(m, s);
      SortedOfStep(s, m);
      var tail := SortedOf(s - {m});
      SortedOfElements(s - {m});
      assert Elements([m] + tail) == {m} + Elements(tail);
    }
  }

  /** The sorted list is in strictly ascending order. */
  lemma {:induction false} SortedOfSorts(s: set<string>)
    ensures StrictlySorted(SortedOf(s))
    decreases |s|
  {
    if s != {} {
      LeastExists(s);
      var m :| IsLeast(m, s);
      SortedOfStep(s, m);
      var tail := SortedOf(s - {m});
      var xs := [m] + tail;
      SortedOfSorts(s - {m});
      SortedOfElements(s - {m});
      forall j, k | 0 <= j < k < |xs| ensures Below(xs[j], xs[k]) {
        assert xs[k] == tail[k - 1];
        if j == 0 {
          assert tail[k - 1] in Elements(tail);
        } else {
          assert xs[j] == tail[j - 1];
        }
      }
    }
  }

  /** The sorted list is the only strictly ascending list of the atoms. */
  lemma {:induction false} SortedOfUnique(xs: seq<string>, s: set<string>)
    requires StrictlySorted(xs) && Elements(xs) == s
    ensures xs == SortedOf(s)
    decreases |xs|
  {
    if xs == [] {
      assert s == {};
    } else {
      SortedHead(xs, s);
      SortedOfStep(s, xs[0]);
      SortedOfUnique(xs[1..], s - {xs[0]});
      assert xs == [xs[0]] + xs[1..];
    }
  }

  /** The head of a strictly sorted list is its least element, and the
      tail is strictly sorted and holds all the other elements. */
  lemma SortedHead(xs: seq<string>, s: set<string>)
    requires StrictlySorted(xs) && Elements(xs) == s && xs != []
    ensures IsLeast(xs[0], s)
    ensures StrictlySorted(xs[1..]) && Elements(xs[1..]) == s - {xs[0]}
  {
    forall y | y in s && y != xs[0] ensures Below(xs[0], y) {
      var k :| 0 <= k < |xs| && xs[k] == y;
    }
    var tail := xs[1..];
    forall a ensures a in Elements(tail) <==> a in s - {xs[0]} {
      if a in Elements(tail) {
        var k :| 0 <= k < |tail| && tail[k] == a;
        assert Below(xs[0], xs[k + 1]);
        BelowIrreflexive(a);
      }
      if a in s - {xs[0]} {
        var k :| 0 <= k < |xs| && xs[k] == a;
        assert tail[k - 1] == a;
      }
    }
  }

  /** `[...collectAtoms(n)].sort()`: the library sort is modelled as taking
      the least remaining atom, one at a time. */
  method SortAtoms(s: set<string>) returns (xs: seq<string>)
    ensures xs == SortedOf(s)
  {
    xs := [];
    var rest := s;
    while rest != {}
      invariant SortedOf(s) == xs + SortedOf(rest)
      decreases |rest|
    {
      LeastExists(rest);
      var m :| m in rest && IsLeast(m, rest);
      SortedOfStep(rest, m);
      xs := xs + [m];
      rest := rest - {m};
    }
  }

  // ---------------------------------------------------------------------
  // Interpretations

  /** 2 to the power `p`. */
  function Pow2(p: nat): (r: nat)
    ensures r >= 1
  {
    if p == 0 then 1 else 2 * Pow2(p - 1)
  }

  /** Binary digit `p` of `k`, the least significant being digit 0. */
  predicate Bit(k: nat, p: nat) {
    if p == 0 then k % 2 == 1 else Bit(k / 2, p - 1)
  }

  /** `{ ...i, [a]: v }` for each interpretation of the list. */
  function Extend(ips: seq<Interpretation>, a: string, v: bool): seq<Interpretation> {
    seq(|ips|, k requires 0 <= k < |ips| => ips[k][a := v])
  }

  /** What `getAllInterpretations` returns: first every interpretation of
      the other atoms with `atoms[0]` false, then all of them again with
      `atoms[0]` true. */
  function AllInterpretations(atoms: seq<string>): Result<seq<Interpretation>>
    decreases |atoms|
  {
    if |atoms| == 0 then Err(NoAtoms)
    else if |atoms| == 1 then Ok([map[atoms[0] := false], map[atoms[0] := true]])
    else
      match AllInterpretations(atoms[1..])
      case Err(e) => Err(e)
      case Ok(rest) => Ok(Extend(rest, atoms[0], false) + Extend(rest, atoms[0], true))
  }

  /** One more push of the loops of `getAllInterpretations`. */
  lemma ExtendSnoc(ips: seq<Interpretation>, k: nat, a: string, v: bool)
    requires k < |ips|
    ensures Extend(ips[..k + 1], a, v) == Extend(ips[..k], a, v) + [ips[k][a := v]]
  {
    assert ips[..k + 1][..k] == ips[..k];
  }

  /** `getAllInterpretations`: recursive, with the two halves pushed by two
      loops. */
  method GetAllInterpretations(atoms: seq<string>) returns (r: Result<seq<Interpretation>>)
    ensures r == AllInterpretations(atoms)
    decreases |atoms|
  {
    if |atoms| == 0 {
      return Err(NoAtoms);
    }
    if |atoms| == 1 {
      return Ok([map[atoms[0] := false], map[atoms[0] := true]]);
    }
    var restI := GetAllInterpretations(atoms[1..]);
    if restI.Err? {
      return Err(restI.error);
    }
    var rest := restI.value;
    var ips: seq<Interpretation> := [];
    var k := 0;
    while k < |rest|
      invariant 0 <= k <= |rest|
      invariant ips == Extend(rest[..k], atoms[0], false)
    {
      ExtendSnoc(rest, k, atoms[0], false);
      ips := ips + [rest[k][atoms[0] := false]];
      k := k + 1;
    }
    k := 0;
    while k < |rest|
      invariant 0 <= k <= |rest|
      invariant ips == Extend(rest, atoms[0], false) + Extend(rest[..k], atoms[0], true)
    {
      ExtendSnoc(rest, k, atoms[0], true);
      ips := ips + [rest[k][atoms[0] := true]];
      k := k + 1;
    }
    assert rest[..|rest|] == rest;
    r := Ok(ips);
  }

  predicate Distinct(xs: seq<string>) {
    forall j, k | 0 <= j < k < |xs| :: xs[j] != xs[k]
  }

  /** Enumeration fails exactly on an empty atom list. */
  lemma InterpretationsFailOnlyWhenEmpty(atoms: seq<string>)
    ensures AllInterpretations(atoms).Err? <==> |atoms| == 0
    ensures AllInterpretations(atoms).Err? ==> AllInterpretations(atoms).error == NoAtoms
  {
    if |atoms| > 1 {
      InterpretationsCover(atoms);
    }
  }

  /** `2^n` interpretations, each of which gives a value to exactly the
      atoms of the list. */
  lemma {:induction false} InterpretationsCover(atoms: seq<string>)
    requires |atoms| >= 1
    ensures AllInterpretations(atoms).Ok?
    ensures |AllInterpretations(atoms).value| == Pow2(|atoms|)
    ensures forall i | i in AllInterpretations(atoms).value :: i.Keys == Elements(atoms)
    decreases |atoms|
  {
    if |atoms| > 1 {
      InterpretationsCover(atoms[1..]);
      var rest := AllInterpretations(atoms[1..]).value;
      assert Elements(atoms) == {atoms[0]} + Elements(atoms[1..]) by {
        assert atoms == [atoms[0]] + atoms[1..];
      }
      var lo, hi := Extend(rest, atoms[0], false), Extend(rest, atoms[0], true);
      assert AllInterpretations(atoms).value == lo + hi;
      forall i: Interpretation | i in lo + hi ensures i.Keys == Elements(atoms) {
        if i in lo {
          var k :| 0 <= k < |lo| && lo[k] == i;
          assert rest[k] in rest;
        } else {
          var k :| 0 <= k < |hi| && hi[k] == i;
          assert rest[k] in rest;
        }
      }
    }
  }

  lemma {:induction false} BitBelowPower(k: nat, m: nat)
    requires k < Pow2(m)
    ensures !Bit(k, m)
    decreases m
  {
    if m > 0 {
      BitBelowPower(k / 2, m - 1);
    }
  }

  lemma {:induction false} BitOfTopHalf(k: nat, m: nat)
    requires Pow2(m) <= k < 2 * Pow2(m)
    ensures Bit(k, m)
    decreases m
  {
    if m > 0 {
      BitOfTopHalf(k / 2, m - 1);
    }
  }

  lemma {:induction false} BitIgnoresHigherPower(k: nat, m: nat, p: nat)
    requires p < m
    ensures Bit(Pow2(m) + k, p) == Bit(k, p)
    decreases p
  {
    assert Pow2(m) == 2 * Pow2(m - 1);
    if p > 0 {
      assert (Pow2(m) + k) / 2 == Pow2(m - 1) + k / 2;
      BitIgnoresHigherPower(k / 2, m - 1, p - 1);
    }
  }

  /** Entry `k` of the two halves built from `rest`. */
  lemma HalvesAt(rest: seq<Interpretation>, a: string, k: nat)
    requires k < 2 * |rest|
    ensures var ips := Extend(rest, a, false) + Extend(rest, a, true);
      ips[k] == if k < |rest| then rest[k][a := false] else rest[k - |rest|][a := true]
  {
  }

  /** The recursive case of `AllInterpretations`, with its sizes. */
  lemma Unfold(atoms: seq<string>)
    requires |atoms| >= 2
    ensures AllInterpretations(atoms).Ok? && AllInterpretations(atoms[1..]).Ok?
    ensures var rest := AllInterpretations(atoms[1..]).value;
      AllInterpretations(atoms).value == Extend(rest, atoms[0], false) + Extend(rest, atoms[0], true)
      && |rest| == Pow2(|atoms| - 1)
      && |AllInterpretations(atoms).value| == Pow2(|atoms|)
  {
    InterpretationsCover(atoms);
    InterpretationsCover(atoms[1..]);
  }

  lemma DistinctTail(atoms: seq<string>)
    requires |atoms| >= 1 && Distinct(atoms)
    ensures Distinct(atoms[1..]) && atoms[0] !in Elements(atoms[1..])
  {
    forall j, k | 0 <= j < k < |atoms| - 1 ensures atoms[1..][j] != atoms[1..][k] {
      assert atoms[1..][j] == atoms[j + 1] && atoms[1..][k] == atoms[k + 1];
    }
    forall k | 0 <= k < |atoms| - 1 ensures atoms[1..][k] != atoms[0] {
      assert atoms[1..][k] == atoms[k + 1];
    }
  }

  /** One entry of the counting order: interpretation `k` gives `atoms[j]`
      the value of digit `n - 1 - j` of `k`. */
  lemma {:induction false} InterpretationAt(atoms: seq<string>, k: nat, j: nat)
    requires |atoms| >= 1 && Distinct(atoms)
    requires k < Pow2(|atoms|) && j < |atoms|
    ensures AllInterpretations(atoms).Ok?
    ensures |AllInterpretations(atoms).value| == Pow2(|atoms|)
    ensures atoms[j] in AllInterpretations(atoms).value[k]
    ensures AllInterpretations(atoms).value[k][atoms[j]] == Bit(k, |atoms| - 1 - j)
    decreases |atoms|
  {
    var n := |atoms|;
    if n == 1 {
      assert Bit(1, 0) && !Bit(0, 0);
    } else {
      var tail := atoms[1..];
      Unfold(atoms);
      DistinctTail(atoms);
      var rest := AllInterpretations(tail).value;
      var ips := AllInterpretations(atoms).value;
      HalvesAt(rest, atoms[0], k);
      var h := |rest|;
      var k' := if k < h then k else k - h;
      assert ips[k] == rest[k'][atoms[0] := k >= h];
      if j == 0 {
        if k < h {
          BitBelowPower(k, n - 1);
        } else {
          BitOfTopHalf(k, n - 1);
        }
      } else {
        InterpretationAt(tail, k', j - 1);
        assert atoms[j] == tail[j - 1] && atoms[j] != atoms[0];
        assert ips[k][atoms[j]] == rest[k'][tail[j - 1]];
        if k >= h {
          BitIgnoresHigherPower(k', n - 1, n - 1 - j);
        }
      }
    }
  }

  /** Binary counting with false before true and `atoms[0]` the most
      significant digit. */
  lemma InterpretationsCount(atoms: seq<string>)
    requires |atoms| >= 1 && Distinct(atoms)
    ensures AllInterpretations(atoms).Ok?
    ensures var ips := AllInterpretations(atoms).value;
      forall k, j | 0 <= k < |ips| && 0 <= j < |atoms| ::
        atoms[j] in ips[k] && ips[k][atoms[j]] == Bit(k, |atoms| - 1 - j)
  {
    InterpretationsCover(atoms);
    var ips := AllInterpretations(atoms).value;
    forall k, j | 0 <= k < |ips| && 0 <= j < |atoms|
      ensures atoms[j] in ips[k] && ips[k][atoms[j]] == Bit(k, |atoms| - 1 - j)
    {
      InterpretationAt(atoms, k, j);
    }
  }

  /** Two different numbers below `2^m` differ in one of their first `m`
      binary digits. */
  lemma {:induction false} DigitsDiffer(k: nat, k': nat, m: nat)
    requires k < k' < Pow2(m)
    ensures exists p: nat :: p < m && Bit(k, p) != Bit(k', p)
    decreases m
  {
    assert m > 0;
    assert Pow2(m) == 2 * Pow2(m - 1);
    if k % 2 != k' % 2 {
      assert m > 0 && Bit(k, 0) != Bit(k', 0);
    } else {
      DigitsDiffer(k / 2, k' / 2, m - 1);
      var p: nat :| p < m - 1 && Bit(k / 2, p) != Bit(k' / 2, p);
      assert Bit(k, p + 1) != Bit(k', p + 1);
    }
  }

  /** Over distinct atoms no interpretation is produced twice. */
  lemma InterpretationsDistinct(atoms: seq<string>)
    requires |atoms| >= 1 && Distinct(atoms)
    ensures AllInterpretations(atoms).Ok?
    ensures var ips := AllInterpretations(atoms).value;
      forall k, k' | 0 <= k < k' < |ips| :: ips[k] != ips[k']
  {
    InterpretationsCover(atoms);
    var ips := AllInterpretations(atoms).value;
    forall k, k' | 0 <= k < k' < |ips| ensures ips[k] != ips[k'] {
      DigitsDiffer(k, k', |atoms|);
      var p: nat :| p < |atoms| && Bit(k, p) != Bit(k', p);
      var j := |atoms| - 1 - p;
      InterpretationAt(atoms, k, j);
      InterpretationAt(atoms, k', j);
      assert ips[k][atoms[j]] != ips[k'][atoms[j]];
    }
  }

  // ---------------------------------------------------------------------
  // The table

  /** `stringify`. */
  function Stringify(b: bool): (r: string)
    ensures r == "T" <==> b
    ensures r == "F" <==> !b
  {
    if b then "T" else "F"
  }

  /** `stringify(i[a])`: a missing key reads as `undefined`, which is falsy. */
  function Cell(i: Interpretation, a: string): string {
    if a in i && i[a] then "T" else "F"
  }

  datatype Row = Row(world: seq<string>, result: seq<string>)

  datatype Table = Table(head: seq<string>, rows: seq<Row>)

  /** The `world` of a row: one cell per atom, in the order of `atoms`. */
  function World(atoms: seq<string>, i: Interpretation): seq<string> {
    seq(|atoms|, j requires 0 <= j < |atoms| => Cell(i, atoms[j]))
  }

  /** The row of one interpretation; it fails when evaluation does. NOR
      nodes are evaluated with their standard meaning (see `EvaluateStd`). */
  function RowOf(n: Node, atoms: seq<string>, i: Interpretation): Result<Row> {
    match EvaluateStd(n, i)
    case Err(e) => Err(e)
    case Ok(v) => Ok(Row(World(atoms, i), [Stringify(v)]))
  }

  /** The rows of the interpretations in order; the first failing
      evaluation ends the computation. */
  function Rows(n: Node, atoms: seq<string>, ips: seq<Interpretation>): Result<seq<Row>>
    decreases |ips|
  {
    if ips == [] then Ok([])
    else
      match Rows(n, atoms, ips[..|ips| - 1])
      case Err(e) => Err(e)
      case Ok(rows) =>
        match RowOf(n, atoms, ips[|ips| - 1])
        case Err(e) => Err(e)
        case Ok(row) => Ok(rows + [row])
  }

  /** Once a prefix of the rows fails, the whole computation fails with
      the same error. */
  lemma {:induction false} RowsKeepFirstError(n: Node, atoms: seq<string>, ips: seq<Interpretation>, k: nat)
    requires k <= |ips| && Rows(n, atoms, ips[..k]).Err?
    ensures Rows(n, atoms, ips) == Rows(n, atoms, ips[..k])
    decreases |ips| - k
  {
    if k < |ips| {
      assert ips[..k + 1][..k] == ips[..k];
      RowsKeepFirstError(n, atoms, ips, k + 1);
    } else {
      assert ips[..k] == ips;
    }
  }

  /** One round of the row loop: the next row is appended, or its failing
      evaluation is the outcome of the whole computation. */
  lemma RowsStep(n: Node, atoms: seq<string>, ips: seq<Interpretation>, k: nat, rows: seq<Row>)
    requires k < |ips| && Rows(n, atoms, ips[..k]) == Ok(rows)
    ensures EvaluateStd(n, ips[k]).Ok? ==>
      Rows(n, atoms, ips[..k + 1]) == Ok(rows + [Row(World(atoms, ips[k]), [Stringify(EvaluateStd(n, ips[k]).value)])])
    ensures EvaluateStd(n, ips[k]).Err? ==> Rows(n, atoms, ips) == Err(EvaluateStd(n, ips[k]).error)
  {
    assert ips[..k + 1][..k] == ips[..k];
    if EvaluateStd(n, ips[k]).Err? {
      RowsKeepFirstError(n, atoms, ips, k + 1);
    }
  }

  /** The table over the atom set `s`: the sorted atoms head the columns,
      followed by the rendering of `n`. */
  ghost function TableOver(n: Node, s: set<string>): Result<Table> {
    var atoms := SortedOf(s);
    match AllInterpretations(atoms)
    case Err(e) => Err(e)
    case Ok(ips) =>
      match Rows(n, atoms, ips)
      case Err(e) => Err(e)
      case Ok(rows) => Ok(Table(atoms + [ToBasicString(n)], rows))
  }

  /** What `computeTruthTable` returns: the table over the collected
      atoms, the letters of the atom names. */
  ghost function TruthTableOf(n: Node): Result<Table> {
    TableOver(n, Atoms(n))
  }

  /** The table over the whole atom names, as the collector was meant to
      gather them. */
  ghost function NamedTruthTable(n: Node): Result<Table> {
    TableOver(n, AtomNames(n))
  }

  /** The inner loop of `computeTruthTable`: one cell per atom. */
  method WorldOf(atoms: seq<string>, i: Interpretation) returns (world: seq<string>)
    ensures world == World(atoms, i)
  {
    world := [];
    var j := 0;
    while j < |atoms|
      invariant 0 <= j <= |atoms|
      invariant world == World(atoms[..j], i)
    {
      world := world + [Cell(i, atoms[j])];
      j := j + 1;
    }
    assert atoms[..|atoms|] == atoms;
  }

  /** `computeTruthTable`: the sorted atoms, their interpretations, and
      the rows computed by an outer loop over the interpretations and an
      inner loop over the atoms. */
  method ComputeTruthTable(n: Node) returns (r: Result<Table>)
    ensures r == TruthTableOf(n)
  {
    var collected := CollectAtoms(n);
    var atoms := SortAtoms(collected);
    var ipsR := GetAllInterpretations(atoms);
    if ipsR.Err? {
      return Err(ipsR.error);
    }
    var rowsR := RowsLoop(n, atoms, ipsR.value);
    if rowsR.Err? {
      return Err(rowsR.error);
    }
    r := Ok(Table(atoms + [ToBasicString(n)], rowsR.value));
  }

  /** The outer loop of `computeTruthTable`: one row per interpretation,
      the first failing evaluation ending the loop. */
  method RowsLoop(n: Node, atoms: seq<string>, ips: seq<Interpretation>) returns (r: Result<seq<Row>>)
    ensures r == Rows(n, atoms, ips)
  {
    var rows: seq<Row> := [];
    var k := 0;
    while k < |ips|
      invariant 0 <= k <= |ips|
      invariant Rows(n, atoms, ips[..k]) == Ok(rows)
    {
      var world := WorldOf(atoms, ips[k]);
      var v := EvaluateStd(n, ips[k]);
      RowsStep(n, atoms, ips, k, rows);
      if v.Err? {
        return Err(v.error);
      }
      rows := rows + [Row(world, [Stringify(v.value)])];
      k := k + 1;
    }
    assert ips[..|ips|] == ips;
    r := Ok(rows);
  }

  // ---------------------------------------------------------------------
  // Properties of the table

  lemma SortedDistinct(xs: seq<string>)
    requires StrictlySorted(xs)
    ensures Distinct(xs)
  {
    forall j, k | 0 <= j < k < |xs| ensures xs[j] != xs[k] {
      if xs[j] == xs[k] {
        BelowIrreflexive(xs[j]);
      }
    }
  }

  /** The rows succeed exactly when every interpretation's row does, and
      then there is one row per interpretation, in order. */
  lemma {:induction false} RowsInOrder(n: Node, atoms: seq<string>, ips: seq<Interpretation>)
    ensures Rows(n, atoms, ips).Ok? <==> forall k | 0 <= k < |ips| :: RowOf(n, atoms, ips[k]).Ok?
    ensures Rows(n, atoms, ips).Ok? ==>
      |Rows(n, atoms, ips).value| == |ips| &&
      forall k | 0 <= k < |ips| :: Rows(n, atoms, ips).value[k] == RowOf(n, atoms, ips[k]).value
    ensures Rows(n, atoms, ips).Err? ==> Rows(n, atoms, ips).error.MissingVariable?
    decreases |ips|
  {
    if ips != [] {
      var init := ips[..|ips| - 1];
      RowsInOrder(n, atoms, init);
      forall k | 0 <= k < |init| ensures init[k] == ips[k] {
      }
    }
  }

  /** The table fails with "No atoms" exactly when the collector finds no
      atom; any other failure is a missing variable. */
  lemma TableNeedsAtoms(n: Node)
    ensures TruthTableOf(n) == Err(NoAtoms) <==> Atoms(n) == {}
  {
    var atoms := SortedOf(Atoms(n));
    SortedOfElements(Atoms(n));
    InterpretationsFailOnlyWhenEmpty(atoms);
    if atoms != [] {
      RowsInOrder(n, atoms, AllInterpretations(atoms).value);
    }
  }

  /** The header is the atoms in ascending order, each once, followed by
      the rendering of the formula. */
  lemma TableHead(n: Node)
    ensures TruthTableOf(n).Ok? ==>
      var head := TruthTableOf(n).value.head;
      var w := |Atoms(n)|;
      |head| == w + 1 &&
      StrictlySorted(head[..w]) && Elements(head[..w]) == Atoms(n) &&
      head[w] == ToBasicString(n)
  {
    var atoms := SortedOf(Atoms(n));
    SortedOfElements(Atoms(n));
    SortedOfSorts(Atoms(n));
    if TruthTableOf(n).Ok? {
      assert TruthTableOf(n).value.head == atoms + [ToBasicString(n)];
      assert (atoms + [ToBasicString(n)])[..|atoms|] == atoms;
    }
  }

  /** A table over a set holding every atom name of `n` evaluates every
      row: one row for each of the `2^w` assignments to its `w` atoms. */
  lemma TableOverSucceeds(n: Node, s: set<string>)
    requires s != {} && AtomNames(n) <= s
    ensures TableOver(n, s).Ok?
    ensures |TableOver(n, s).value.rows| == Pow2(|s|)
  {
    var atoms := SortedOf(s);
    SortedOfElements(s);
    InterpretationsCover(atoms);
    var ips := AllInterpretations(atoms).value;
    forall k | 0 <= k < |ips| ensures RowOf(n, atoms, ips[k]).Ok? {
      assert ips[k] in ips;
      assert EvaluateStd(n, ips[k]).Ok?;
    }
    RowsInOrder(n, atoms, ips);
  }

  /** Row `k` of such a table shows in its world the binary digits of `k`
      (`F` for 0, `T` for 1, the first atom most significant) and in its
      result the value of the formula under that assignment. */
  lemma TableOverRows(n: Node, s: set<string>, k: nat, j: nat)
    requires s != {} && AtomNames(n) <= s
    requires k < Pow2(|s|) && j < |s|
    ensures TableOver(n, s).Ok? && |TableOver(n, s).value.rows| == Pow2(|s|)
    ensures AllInterpretations(SortedOf(s)).Ok?
    ensures |AllInterpretations(SortedOf(s)).value| == Pow2(|s|)
    ensures var row := TableOver(n, s).value.rows[k];
      |row.world| == |s| &&
      row.world[j] == Stringify(Bit(k, |s| - 1 - j)) &&
      row.result == [Stringify(Value(n, AllInterpretations(SortedOf(s)).value[k]))]
  {
    TableOverRow(n, s, k);
    var atoms := SortedOf(s);
    SortedOfElements(s);
    SortedOfSorts(s);
    SortedDistinct(atoms);
    InterpretationAt(atoms, k, j);
    var i := AllInterpretations(atoms).value[k];
    var row := RowOf(n, atoms, i).value;
    assert row.world == World(atoms, i);
    assert row.world[j] == Cell(i, atoms[j]);
    assert row.result == [Stringify(EvaluateStd(n, i).value)];
  }

  /** Row `k` of the table over `s` is the row of interpretation `k`. */
  lemma TableOverRow(n: Node, s: set<string>, k: nat)
    requires s != {} && AtomNames(n) <= s && k < Pow2(|s|)
    ensures TableOver(n, s).Ok? && |TableOver(n, s).value.rows| == Pow2(|s|)
    ensures AllInterpretations(SortedOf(s)).Ok?
    ensures |AllInterpretations(SortedOf(s)).value| == Pow2(|s|)
    ensures RowOf(n, SortedOf(s), AllInterpretations(SortedOf(s)).value[k]).Ok?
    ensures TableOver(n, s).value.rows[k] == RowOf(n, SortedOf(s), AllInterpretations(SortedOf(s)).value[k]).value
  {
    TableOverSucceeds(n, s);
    var atoms := SortedOf(s);
    RowsInOrder(n, atoms, AllInterpretations(atoms).value);
  }

  /** With one-letter atom names the model's table, whose result column
      reads NOR as `EvaluateStd` does, is complete: it has a row for each of the `2^w` assignments to the `w`
      atoms, row `k` shows the binary digits of `k` and the formula's value
      under them. */
  lemma TableRows(n: Node, k: nat, j: nat)
    requires AtomNames(n) != {}
    requires forall name | name in AtomNames(n) :: |name| == 1
    requires k < Pow2(|AtomNames(n)|) && j < |AtomNames(n)|
    ensures TruthTableOf(n).Ok? && |TruthTableOf(n).value.rows| == Pow2(|AtomNames(n)|)
    ensures AllInterpretations(SortedOf(AtomNames(n))).Ok?
    ensures |AllInterpretations(SortedOf(AtomNames(n))).value| == Pow2(|AtomNames(n)|)
    ensures var row := TruthTableOf(n).value.rows[k];
      var w := |AtomNames(n)|;
      |row.world| == w &&
      row.world[j] == Stringify(Bit(k, w - 1 - j)) &&
      row.result == [Stringify(Value(n, AllInterpretations(SortedOf(AtomNames(n))).value[k]))]
  {
    SingleLetterAtoms(n);
    assert TruthTableOf(n) == TableOver(n, AtomNames(n));
    TableOverRows(n, AtomNames(n), k, j);
  }

  /** The table over whole names is complete for every formula with an
      atom, whatever the length of its names. */
  lemma NamedTableRows(n: Node, k: nat, j: nat)
    requires AtomNames(n) != {}
    requires k < Pow2(|AtomNames(n)|) && j < |AtomNames(n)|
    ensures NamedTruthTable(n).Ok? && |NamedTruthTable(n).value.rows| == Pow2(|AtomNames(n)|)
    ensures AllInterpretations(SortedOf(AtomNames(n))).Ok?
    ensures |AllInterpretations(SortedOf(AtomNames(n))).value| == Pow2(|AtomNames(n)|)
    ensures var row := NamedTruthTable(n).value.rows[k];
      var w := |AtomNames(n)|;
      |row.world| == w &&
      row.world[j] == Stringify(Bit(k, w - 1 - j)) &&
      row.result == [Stringify(Value(n, AllInterpretations(SortedOf(AtomNames(n))).value[k]))]
  {
    TableOverRows(n, AtomNames(n), k, j);
  }

  /** An atom with a longer name makes the table fail: its letters get
      values, the name itself does not (unless it is a name every object
      inherits, which the model does not cover). */
  lemma MultiLetterAtomFails(name: string)
    requires |name| >= 2 && name !in InheritedNames
    requires forall k | 0 <= k < |name| :: Lexer.IsAlnum(name[k])
    ensures TruthTableOf(Atom(name)) == Err(MissingVariable(name))
  {
    var n := Atom(name);
    var s := Atoms(n);
    assert [name[0]] in s;
    var atoms := SortedOf(s);
    SortedOfElements(s);
    InterpretationsCover(atoms);
    var ips := AllInterpretations(atoms).value;
    assert ips[0] in ips;
    assert name !in ips[0];
    assert RowOf(n, atoms, ips[0]) == Err(MissingVariable(name));
    assert ips[..1][..0] == [];
    assert Rows(n, atoms, ips[..1]) == Err(MissingVariable(name));
    RowsKeepFirstError(n, atoms, ips, 1);
  }
}
