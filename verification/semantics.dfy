/**
 What the clauses of `generate_sat` mean. A truth assignment is the set of
 variables it makes true; the coverage, exclusivity and adjacency blocks hold
 exactly when every vertex has a colour, no vertex has two, and the ends of
 every edge differ. So the formula is satisfiable exactly when the graph has
 a proper colouring with colours 1..k.
 */
module CnfSemantics {
  import opened Graphs
  import opened CnfEncoder
  import opened EncoderFacts

  // ---------------------------------------------------------------- truth

  /** Literal +x holds when x is true, -x when x is false. */
  predicate LiteralHolds(t: set<int>, l: Literal) {
    if l > 0 then l in t else -l !in t
  }

  predicate ClauseHolds(t: set<int>, cl: Clause) {
    exists j | 0 <= j < |cl| :: LiteralHolds(t, cl[j])
  }

  predicate Satisfies(t: set<int>, cls: seq<Clause>) {
    forall i | 0 <= i < |cls| :: ClauseHolds(t, cls[i])
  }

  ghost predicate Satisfiable(cnf: Cnf) {
    exists t: set<int> :: Satisfies(t, cnf.clauses)
  }

  lemma SatisfiesAppend(t: set<int>, a: seq<Clause>, b: seq<Clause>)
    ensures Satisfies(t, a + b) <==> Satisfies(t, a) && Satisfies(t, b)
  {
    if Satisfies(t, a) && Satisfies(t, b) {
      forall i | 0 <= i < |a + b| ensures ClauseHolds(t, (a + b)[i]) {
        if i >= |a| { assert (a + b)[i] == b[i - |a|]; }
      }
    }
    if Satisfies(t, a + b) {
      forall i | 0 <= i < |a| ensures ClauseHolds(t, a[i]) {
        assert (a + b)[i] == a[i];
      }
      forall i | 0 <= i < |b| ensures ClauseHolds(t, b[i]) {
        assert (a + b)[|a| + i] == b[i];
      }
    }
  }

  /** A two-literal clause of negated variables holds unless both variables are true. */
  lemma NegatedPair(t: set<int>, x: int, y: int)
    requires x >= 1 && y >= 1
    ensures ClauseHolds(t, [-x, -y]) <==> !(x in t && y in t)
  {
    var cl := [-x, -y];
    if !(x in t && y in t) {
      if x !in t { assert LiteralHolds(t, cl[0]); } else { assert LiteralHolds(t, cl[1]); }
    }
  }

  // ---------------------------------------------------------------- what each block says

  /** Vertex v has at least one true colour variable. */
  ghost predicate HasColour(vs: seq<int>, k: int, t: set<int>, v: int)
    requires v in vs
  {
    exists c | 1 <= c <= k :: Var(vs, k, v, c) in t
  }

  /** Vertex v has no two true colour variables. */
  ghost predicate AtMostOneColour(vs: seq<int>, k: int, t: set<int>, v: int)
    requires v in vs
  {
    forall c1, c2 | 1 <= c1 < c2 <= k :: !(Var(vs, k, v, c1) in t && Var(vs, k, v, c2) in t)
  }

  /** No colour is true at both ends of e. */
  ghost predicate EdgeRespected(vs: seq<int>, k: int, t: set<int>, e: Edge)
    requires EdgeIn(vs, e)
  {
    forall c | 1 <= c <= k :: !(Var(vs, k, e.u, c) in t && Var(vs, k, e.v, c) in t)
  }

  lemma CoverageClauseMeaning(vs: seq<int>, k: int, t: set<int>, v: int)
    requires v in vs
    ensures ClauseHolds(t, CoverageClause(vs, k, v)) <==> HasColour(vs, k, t, v)
  {
    var cl := CoverageClause(vs, k, v);
    if ClauseHolds(t, cl) {
      var j :| 0 <= j < |cl| && LiteralHolds(t, cl[j]);
      VarInRange(vs, k, v, j + 1);
      assert Var(vs, k, v, j + 1) in t;
    }
    if HasColour(vs, k, t, v) {
      var c :| 1 <= c <= k && Var(vs, k, v, c) in t;
      VarInRange(vs, k, v, c);
      assert LiteralHolds(t, cl[c - 1]);
    }
  }

  /** The coverage block holds exactly when every listed vertex has a colour. */
  lemma CoverageMeaning(vs: seq<int>, k: int, t: set<int>)
    ensures Satisfies(t, CoverageBlock(vs, k)) <==> forall i | 0 <= i < |vs| :: HasColour(vs, k, t, vs[i])
  {
    var cov := CoverageBlock(vs, k);
    forall i | 0 <= i < |vs| ensures ClauseHolds(t, cov[i]) <==> HasColour(vs, k, t, vs[i]) {
      CoverageClauseMeaning(vs, k, t, vs[i]);
    }
  }

  lemma RowMeaning(vs: seq<int>, k: int, t: set<int>, v: int, c1: int)
    requires v in vs && 1 <= c1
    ensures Satisfies(t, ExclusivityRow(vs, k, v, c1))
        <==> forall c2 | c1 < c2 <= k :: !(Var(vs, k, v, c1) in t && Var(vs, k, v, c2) in t)
  {
    var row := ExclusivityRow(vs, k, v, c1);
    if Satisfies(t, row) {
      forall c2 | c1 < c2 <= k ensures !(Var(vs, k, v, c1) in t && Var(vs, k, v, c2) in t) {
        RowElement(vs, k, v, c1, c2 - c1 - 1);
        VarInRange(vs, k, v, c1);
        VarInRange(vs, k, v, c2);
        NegatedPair(t, Var(vs, k, v, c1), Var(vs, k, v, c2));
      }
    }
    if forall c2 | c1 < c2 <= k :: !(Var(vs, k, v, c1) in t && Var(vs, k, v, c2) in t) {
      forall j | 0 <= j < |row| ensures ClauseHolds(t, row[j]) {
        RowElement(vs, k, v, c1, j);
        VarInRange(vs, k, v, c1);
        VarInRange(vs, k, v, c1 + 1 + j);
        NegatedPair(t, Var(vs, k, v, c1), Var(vs, k, v, c1 + 1 + j));
      }
    }
  }

  lemma {:induction false} RowsMeaning(vs: seq<int>, k: int, t: set<int>, v: int, upTo: int)
    requires v in vs && upTo <= Palette(k) + 1
    ensures Satisfies(t, ExclusivityRows(vs, k, v, upTo))
        <==> forall c1, c2 | 1 <= c1 < upTo && c1 < c2 <= k :: !(Var(vs, k, v, c1) in t && Var(vs, k, v, c2) in t)
    decreases upTo
  {
    if upTo > 1 {
      RowsMeaning(vs, k, t, v, upTo - 1);
      RowMeaning(vs, k, t, v, upTo - 1);
      SatisfiesAppend(t, ExclusivityRows(vs, k, v, upTo - 1), ExclusivityRow(vs, k, v, upTo - 1));
    }
  }

  lemma {:induction false} ExclusivityMeaning(vs: seq<int>, k: int, t: set<int>, n: nat)
    requires n <= |vs|
    ensures Satisfies(t, ExclusivityBlock(vs, k, n)) <==> forall i | 0 <= i < n :: AtMostOneColour(vs, k, t, vs[i])
    decreases n
  {
    if n > 0 {
      ExclusivityMeaning(vs, k, t, n - 1);
      RowsMeaning(vs, k, t, vs[n - 1], Palette(k) + 1);
      SatisfiesAppend(t, ExclusivityBlock(vs, k, n - 1), VertexExclusivity(vs, k, vs[n - 1]));
    }
  }

  lemma EdgeClausesMeaning(vs: seq<int>, k: int, t: set<int>, e: Edge)
    requires EdgeIn(vs, e)
    ensures Satisfies(t, EdgeClauses(vs, k, e)) <==> EdgeRespected(vs, k, t, e)
  {
    var cl := EdgeClauses(vs, k, e);
    forall c | 1 <= c <= k
      ensures ClauseHolds(t, cl[c - 1]) <==> !(Var(vs, k, e.u, c) in t && Var(vs, k, e.v, c) in t)
    {
      VarInRange(vs, k, e.u, c);
      VarInRange(vs, k, e.v, c);
      NegatedPair(t, Var(vs, k, e.u, c), Var(vs, k, e.v, c));
    }
  }

  lemma {:induction false} AdjacencyMeaning(vs: seq<int>, k: int, t: set<int>, es: seq<Edge>)
    requires WellFormed(vs, es)
    ensures Satisfies(t, AdjacencyBlock(vs, k, es)) <==> forall i | 0 <= i < |es| :: EdgeRespected(vs, k, t, es[i])
    decreases |es|
  {
    if es != [] {
      var init, last := es[..|es| - 1], es[|es| - 1];
      AdjacencyPrefix(vs, k, es, |es| - 1);
      AdjacencyMeaning(vs, k, t, init);
      EdgeClausesMeaning(vs, k, t, last);
      assert AdjacencyBlock(vs, k, es) == AdjacencyBlock(vs, k, init) + EdgeClauses(vs, k, last);
      SatisfiesAppend(t, AdjacencyBlock(vs, k, init), EdgeClauses(vs, k, last));
      AllRespectedSnoc(vs, k, t, es, init);
    }
  }

  /** Every edge is respected exactly when all but the last are and the last is. */
  lemma AllRespectedSnoc(vs: seq<int>, k: int, t: set<int>, es: seq<Edge>, init: seq<Edge>)
    requires WellFormed(vs, es) && es != [] && init == es[..|es| - 1]
    ensures WellFormed(vs, init)
    ensures (forall i | 0 <= i < |es| :: EdgeRespected(vs, k, t, es[i]))
        <==> (forall i | 0 <= i < |init| :: EdgeRespected(vs, k, t, init[i])) && EdgeRespected(vs, k, t, es[|es| - 1])
  {
    assert forall i | 0 <= i < |init| :: init[i] == es[i];
  }

  /** An assignment satisfies the encoding exactly when every vertex has a colour, none has two,
      and no edge has the same colour at both ends. */
  lemma EncodingMeaning(vs: seq<int>, es: seq<Edge>, k: int, t: set<int>)
    requires WellFormed(vs, es)
    ensures Encode(vs, es, k).Success?
    ensures Satisfies(t, Encode(vs, es, k).value.clauses) <==>
      && (forall i | 0 <= i < |vs| :: HasColour(vs, k, t, vs[i]))
      && (forall i | 0 <= i < |vs| :: AtMostOneColour(vs, k, t, vs[i]))
      && (forall i | 0 <= i < |es| :: EdgeRespected(vs, k, t, es[i]))
  {
    var cov, exc, adj := CoverageBlock(vs, k), ExclusivityBlock(vs, k, |vs|), AdjacencyBlock(vs, k, es);
    CoverageMeaning(vs, k, t);
    ExclusivityMeaning(vs, k, t, |vs|);
    AdjacencyMeaning(vs, k, t, es);
    SatisfiesAppend(t, cov, exc);
    SatisfiesAppend(t, cov + exc, adj);
  }

  // ---------------------------------------------------------------- colourings

  /** col gives every listed vertex a colour 1..k and the two ends of every edge different colours. */
  predicate ProperColouring(vs: seq<int>, es: seq<Edge>, k: int, col: map<int, int>) {
    && (forall i | 0 <= i < |vs| :: vs[i] in col && 1 <= col[vs[i]] <= k)
    && (forall i | 0 <= i < |es| :: es[i].u in col && es[i].v in col && col[es[i].u] != col[es[i].v])
  }

  ghost predicate Colourable(vs: seq<int>, es: seq<Edge>, k: int) {
    exists col: map<int, int> :: ProperColouring(vs, es, k, col)
  }

  /** The assignment that makes (v, col[v]) true for each listed vertex and nothing else. */
  function ModelOf(vs: seq<int>, k: int, col: map<int, int>): set<int> {
    set i | 0 <= i < |vs| && vs[i] in col :: Var(vs, k, vs[i], col[vs[i]])
  }

  lemma ModelOfMember(vs: seq<int>, k: int, col: map<int, int>, v: int, c: int)
    requires forall i | 0 <= i < |vs| :: vs[i] in col && 1 <= col[vs[i]] <= k
    requires v in vs && 1 <= c <= k
    ensures v in col
    ensures Var(vs, k, v, c) in ModelOf(vs, k, col) <==> col[v] == c
  {
    var m := ModelOf(vs, k, col);
    var l := LastIndexOf(vs, v);
    if col[v] == c {
      assert Var(vs, k, vs[l], col[vs[l]]) in m;
    }
    if Var(vs, k, v, c) in m {
      var i :| 0 <= i < |vs| && vs[i] in col && Var(vs, k, vs[i], col[vs[i]]) == Var(vs, k, v, c);
      VarInjective(vs, k, vs[i], col[vs[i]], v, c);
    }
  }

  /** The least colour c0 <= c <= k whose variable for v is true, or 0 when there is none. */
  function FirstColour(vs: seq<int>, k: int, t: set<int>, v: int, c0: int): (c: int)
    requires v in vs && 1 <= c0
    ensures c == 0 || (c0 <= c <= k && Var(vs, k, v, c) in t)
    ensures (exists d | c0 <= d <= k :: Var(vs, k, v, d) in t) ==> c != 0
    decreases k - c0
  {
    if c0 > k then 0
    else if Var(vs, k, v, c0) in t then c0
    else FirstColour(vs, k, t, v, c0 + 1)
  }

  /** The colouring an assignment describes: each listed vertex takes its first true colour. */
  function ColouringOf(vs: seq<int>, k: int, t: set<int>): map<int, int> {
    map v | v in vs :: FirstColour(vs, k, t, v, 1)
  }

  /** A proper colouring gives an assignment that satisfies the encoding. */
  lemma ColouringGivesModel(vs: seq<int>, es: seq<Edge>, k: int, col: map<int, int>)
    requires WellFormed(vs, es) && ProperColouring(vs, es, k, col)
    ensures Encode(vs, es, k).Success?
    ensures Satisfies(ModelOf(vs, k, col), Encode(vs, es, k).value.clauses)
  {
    var t := ModelOf(vs, k, col);
    forall i | 0 <= i < |vs| ensures HasColour(vs, k, t, vs[i]) && AtMostOneColour(vs, k, t, vs[i]) {
      ModelOfMember(vs, k, col, vs[i], col[vs[i]]);
      forall c | 1 <= c <= k ensures Var(vs, k, vs[i], c) in t <==> col[vs[i]] == c {
        ModelOfMember(vs, k, col, vs[i], c);
      }
    }
    forall i | 0 <= i < |es| ensures EdgeRespected(vs, k, t, es[i]) {
      assert EdgeIn(vs, es[i]);
      forall c | 1 <= c <= k ensures !(Var(vs, k, es[i].u, c) in t && Var(vs, k, es[i].v, c) in t) {
        ModelOfMember(vs, k, col, es[i].u, c);
        ModelOfMember(vs, k, col, es[i].v, c);
      }
    }
    EncodingMeaning(vs, es, k, t);
  }

  /** An assignment that satisfies the encoding describes a proper colouring. */
  lemma ModelGivesColouring(vs: seq<int>, es: seq<Edge>, k: int, t: set<int>)
    requires WellFormed(vs, es)
    requires Encode(vs, es, k).Success? && Satisfies(t, Encode(vs, es, k).value.clauses)
    ensures ProperColouring(vs, es, k, ColouringOf(vs, k, t))
  {
    EncodingMeaning(vs, es, k, t);
    var col := ColouringOf(vs, k, t);
    forall i | 0 <= i < |es| ensures es[i].u in col && es[i].v in col && col[es[i].u] != col[es[i].v] {
      var e := es[i];
      assert EdgeIn(vs, e);
      var iu := LastIndexOf(vs, e.u);
      var iv := LastIndexOf(vs, e.v);
      assert HasColour(vs, k, t, vs[iu]) && HasColour(vs, k, t, vs[iv]);
      assert EdgeRespected(vs, k, t, e);
      EdgeEndsDiffer(vs, k, t, e);
    }
  }

  /** Both ends of a respected edge have a colour, and they are not the same one. */
  lemma EdgeEndsDiffer(vs: seq<int>, k: int, t: set<int>, e: Edge)
    requires EdgeIn(vs, e) && HasColour(vs, k, t, e.u) && HasColour(vs, k, t, e.v)
    requires EdgeRespected(vs, k, t, e)
    ensures var col := ColouringOf(vs, k, t); e.u in col && e.v in col && col[e.u] != col[e.v]
  {
  }

  /** A satisfying assignment makes exactly one colour variable true per vertex, the colour
      ColouringOf picks: assignments and colourings correspond one to one. */
  lemma ModelIsColouring(vs: seq<int>, es: seq<Edge>, k: int, t: set<int>, v: int, c: int)
    requires WellFormed(vs, es) && v in vs && 1 <= c <= k
    requires Encode(vs, es, k).Success? && Satisfies(t, Encode(vs, es, k).value.clauses)
    ensures Var(vs, k, v, c) in t <==> ColouringOf(vs, k, t)[v] == c
  {
    EncodingMeaning(vs, es, k, t);
    var l := LastIndexOf(vs, v);
    assert HasColour(vs, k, t, vs[l]) && AtMostOneColour(vs, k, t, vs[l]);
  }

  /** The graph has a proper k-colouring exactly when the encoding is satisfiable. */
  lemma ColourableIffSatisfiable(vs: seq<int>, es: seq<Edge>, k: int)
    requires WellFormed(vs, es)
    ensures Encode(vs, es, k).Success?
    ensures Colourable(vs, es, k) <==> Satisfiable(Encode(vs, es, k).value)
  {
    if Colourable(vs, es, k) {
      var col :| ProperColouring(vs, es, k, col);
      ColouringGivesModel(vs, es, k, col);
    }
    if Satisfiable(Encode(vs, es, k).value) {
      var t :| Satisfies(t, Encode(vs, es, k).value.clauses);
      ModelGivesColouring(vs, es, k, t);
    }
  }
}
