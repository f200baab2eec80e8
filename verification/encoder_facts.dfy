/**
 What `generate_sat` guarantees about its output: the numbering of
 (vertex, colour) pairs, the number of clauses, where each clause sits and
 what it holds, and the range of every literal.
 */
module EncoderFacts {
  import opened Graphs
  import opened CnfEncoder

  // ---------------------------------------------------------------- arithmetic

  lemma MulMonotone(a: int, b: int, k: int)
    ensures a <= b && 0 <= k ==> a * k <= b * k
  {
  }

  // ---------------------------------------------------------------- the numbering

  /** With distinct vertices, (vertices[i], c) gets variable i * k + c. */
  lemma VarOfDistinct(vs: seq<int>, k: int, i: nat, c: int)
    requires Distinct(vs) && i < |vs|
    ensures Var(vs, k, vs[i], c) == i * k + c
  {
    var l := LastIndexOf(vs, vs[i]);
    assert vs[l] == vs[i];
  }

  /** Every variable of a listed vertex and a colour 1..k lies in 1 .. |vertices| * k. */
  lemma VarInRange(vs: seq<int>, k: int, v: int, c: int)
    requires v in vs && 1 <= c <= k
    ensures 1 <= Var(vs, k, v, c) <= |vs| * k
  {
    var l := LastIndexOf(vs, v);
    MulMonotone(0, l, k);
    MulMonotone(l, |vs| - 1, k);
    assert (|vs| - 1) * k + k == |vs| * k;
  }

  /** Distinct (vertex, colour) pairs get distinct variables, even when a vertex is listed twice. */
  lemma VarInjective(vs: seq<int>, k: int, v1: int, c1: int, v2: int, c2: int)
    requires v1 in vs && v2 in vs && 1 <= c1 <= k && 1 <= c2 <= k
    requires Var(vs, k, v1, c1) == Var(vs, k, v2, c2)
    ensures v1 == v2 && c1 == c2
  {
    var l1, l2 := LastIndexOf(vs, v1), LastIndexOf(vs, v2);
    SameSlot(l1, c1, l2, c2, k);
  }

  /** Slot l * k + c with 1 <= c <= k determines l and c. */
  lemma SameSlot(l1: nat, c1: int, l2: nat, c2: int, k: int)
    requires 1 <= c1 <= k && 1 <= c2 <= k
    requires l1 * k + c1 == l2 * k + c2
    ensures l1 == l2 && c1 == c2
  {
    MulMonotone(l1 + 1, l2, k);
    MulMonotone(l2 + 1, l1, k);
    assert (l1 + 1) * k == l1 * k + k && (l2 + 1) * k == l2 * k + k;
  }

  /** With distinct vertices every number 1 .. |vertices| * k is the variable of some pair. */
  lemma VarOnto(vs: seq<int>, k: int, x: int) returns (i: nat, c: int)
    requires Distinct(vs) && k >= 1 && 1 <= x <= |vs| * k
    ensures i < |vs| && 1 <= c <= k && Var(vs, k, vs[i], c) == x
  {
    i := (x - 1) / k;
    c := (x - 1) % k + 1;
    assert i * k + c == x;
    MulMonotone(|vs|, i, k);
    assert i < |vs|;
    VarOfDistinct(vs, k, i, c);
  }

  // ---------------------------------------------------------------- lengths

  lemma {:induction false} RowsLength(vs: seq<int>, k: int, v: int, upTo: int)
    requires v in vs && 1 <= upTo <= Palette(k) + 1
    ensures 2 * |ExclusivityRows(vs, k, v, upTo)| == (upTo - 1) * (2 * Palette(k) - upTo)
    decreases upTo
  {
    if upTo > 1 {
      RowsLength(vs, k, v, upTo - 1);
      assert |ExclusivityRow(vs, k, v, upTo - 1)| == Palette(k) - (upTo - 1);
    }
  }

  /** Each vertex gets k(k-1)/2 exclusivity clauses. */
  lemma VertexExclusivityLength(vs: seq<int>, k: int, v: int)
    requires v in vs
    ensures 2 * |VertexExclusivity(vs, k, v)| == Palette(k) * (Palette(k) - 1)
  {
    RowsLength(vs, k, v, Palette(k) + 1);
  }

  /** Number of exclusivity clauses per vertex. */
  function PairsPerVertex(k: int): nat {
    Palette(k) * (Palette(k) - 1) / 2
  }

  lemma {:induction false} ExclusivityBlockLength(vs: seq<int>, k: int, n: nat)
    requires n <= |vs|
    ensures |ExclusivityBlock(vs, k, n)| == n * PairsPerVertex(k)
    decreases n
  {
    if n > 0 {
      ExclusivityBlockLength(vs, k, n - 1);
      VertexExclusivityLength(vs, k, vs[n - 1]);
      assert (n - 1) * PairsPerVertex(k) + PairsPerVertex(k) == n * PairsPerVertex(k);
    }
  }

  lemma {:induction false} AdjacencyBlockLength(vs: seq<int>, k: int, es: seq<Edge>)
    requires k >= 1 ==> WellFormed(vs, es)
    ensures |AdjacencyBlock(vs, k, es)| == |es| * Palette(k)
    decreases |es|
  {
    if es != [] {
      var init := es[..|es| - 1];
      assert k >= 1 ==> WellFormed(vs, init) by {
        if k >= 1 {
          forall i | 0 <= i < |init| ensures EdgeIn(vs, init[i]) {
            assert init[i] == es[i];
          }
        }
      }
      AdjacencyBlockLength(vs, k, init);
      assert (|es| - 1) * Palette(k) + Palette(k) == |es| * Palette(k);
    }
  }

  /** k(k-1)/2 is exact: the pair count is a whole number. */
  lemma PairsExact(k: int)
    ensures 2 * PairsPerVertex(k) == Palette(k) * (Palette(k) - 1)
  {
    var vs := [0];
    VertexExclusivityLength(vs, k, 0);
  }

  /** The encoder emits |V| + |V|·k(k-1)/2 + |E|·k clauses over |V|·k variables; the
      exclusivity count |V|·k(k-1)/2 is exact, with no rounding. */
  lemma ClauseCount(vs: seq<int>, es: seq<Edge>, k: int)
    requires Encode(vs, es, k).Success?
    ensures |Encode(vs, es, k).value.clauses| == |vs| + |vs| * PairsPerVertex(k) + |es| * Palette(k)
    ensures 2 * (|vs| * PairsPerVertex(k)) == |vs| * (Palette(k) * (Palette(k) - 1))
    ensures Encode(vs, es, k).value.numVars == |vs| * Palette(k)
  {
    ExclusivityBlockLength(vs, k, |vs|);
    AdjacencyBlockLength(vs, k, es);
    PairsExact(k);
    assert 2 * (|vs| * PairsPerVertex(k)) == |vs| * (2 * PairsPerVertex(k));
  }

  // ---------------------------------------------------------------- positions

  /** The coverage clause of vertex i is clause i: the k variables of vertex i, ascending. */
  lemma CoverageClauseAt(vs: seq<int>, es: seq<Edge>, k: int, i: nat)
    requires Encode(vs, es, k).Success? && Distinct(vs) && i < |vs|
    ensures |Encode(vs, es, k).value.clauses[i]| == Palette(k)
    ensures forall j | 0 <= j < Palette(k) :: Encode(vs, es, k).value.clauses[i][j] == i * k + j + 1
  {
    var cls := Encode(vs, es, k).value.clauses;
    assert cls[i] == CoverageClause(vs, k, vs[i]);
    forall j | 0 <= j < Palette(k) ensures cls[i][j] == i * k + j + 1 {
      VarOfDistinct(vs, k, i, j + 1);
    }
  }

  lemma {:induction false} RowsPrefix(vs: seq<int>, k: int, v: int, a: int, b: int)
    requires v in vs && a <= b
    ensures ExclusivityRows(vs, k, v, a) <= ExclusivityRows(vs, k, v, b)
    decreases b
  {
    if a < b && b > 1 {
      RowsPrefix(vs, k, v, a, b - 1);
    }
  }

  /** Row c1 of vertex v starts right after the rows of the colours below c1. */
  lemma RowAt(vs: seq<int>, k: int, v: int, c1: int, c2: int)
    requires v in vs && 1 <= c1 < c2 <= k
    ensures 2 * |ExclusivityRows(vs, k, v, c1)| == (c1 - 1) * (2 * k - c1)
    ensures |ExclusivityRows(vs, k, v, c1)| + (c2 - c1 - 1) < |VertexExclusivity(vs, k, v)|
    ensures VertexExclusivity(vs, k, v)[|ExclusivityRows(vs, k, v, c1)| + (c2 - c1 - 1)]
         == [-Var(vs, k, v, c1), -Var(vs, k, v, c2)]
  {
    RowsLength(vs, k, v, c1);
    RowAtIndex(vs, k, v, c1, c2);
  }

  lemma PrefixAt<T>(a: seq<T>, b: seq<T>, i: nat)
    requires a <= b && i < |a|
    ensures i < |b| && b[i] == a[i]
  {
  }

  /** The rows of the colours up to c1 open the whole exclusivity group of v. */
  lemma RowsOpenGroup(vs: seq<int>, k: int, v: int, c1: int)
    requires v in vs && 1 <= c1 < k
    ensures ExclusivityRows(vs, k, v, c1 + 1) <= VertexExclusivity(vs, k, v)
  {
    assert Palette(k) == k;
    RowsPrefix(vs, k, v, c1 + 1, k + 1);
  }

  /** Within the rows up to c1 + 1, the clause for c1 < c2 follows the rows below c1. */
  lemma RowInRows(vs: seq<int>, k: int, v: int, c1: int, c2: int)
    requires v in vs && 1 <= c1 < c2 <= k
    ensures |ExclusivityRows(vs, k, v, c1)| + (c2 - c1 - 1) < |ExclusivityRows(vs, k, v, c1 + 1)|
    ensures ExclusivityRows(vs, k, v, c1 + 1)[|ExclusivityRows(vs, k, v, c1)| + (c2 - c1 - 1)]
         == [-Var(vs, k, v, c1), -Var(vs, k, v, c2)]
  {
    var before, row := ExclusivityRows(vs, k, v, c1), ExclusivityRow(vs, k, v, c1);
    var rows := ExclusivityRows(vs, k, v, c1 + 1);
    assert rows == before + row;
    RowElement(vs, k, v, c1, c2 - c1 - 1);
  }

  lemma RowAtIndex(vs: seq<int>, k: int, v: int, c1: int, c2: int)
    requires v in vs && 1 <= c1 < c2 <= k
    ensures |ExclusivityRows(vs, k, v, c1)| + (c2 - c1 - 1) < |VertexExclusivity(vs, k, v)|
    ensures VertexExclusivity(vs, k, v)[|ExclusivityRows(vs, k, v, c1)| + (c2 - c1 - 1)]
         == [-Var(vs, k, v, c1), -Var(vs, k, v, c2)]
  {
    RowInRows(vs, k, v, c1, c2);
    RowsOpenGroup(vs, k, v, c1);
    PrefixAt(ExclusivityRows(vs, k, v, c1 + 1), VertexExclusivity(vs, k, v), |ExclusivityRows(vs, k, v, c1)| + (c2 - c1 - 1));
  }

  lemma RowElement(vs: seq<int>, k: int, v: int, c1: int, t: nat)
    requires v in vs && t < Palette(k - c1)
    ensures |ExclusivityRow(vs, k, v, c1)| == Palette(k - c1)
    ensures ExclusivityRow(vs, k, v, c1)[t] == [-Var(vs, k, v, c1), -Var(vs, k, v, c1 + 1 + t)]
  {
  }

  lemma {:induction false} BlockPrefix(vs: seq<int>, k: int, a: nat, b: nat)
    requires a <= b <= |vs|
    ensures ExclusivityBlock(vs, k, a) <= ExclusivityBlock(vs, k, b)
    decreases b
  {
    if a < b {
      BlockPrefix(vs, k, a, b - 1);
    }
  }

  /** Clause t of vertex i's exclusivity group sits at i * k(k-1)/2 + t in the exclusivity block. */
  lemma BlockAt(vs: seq<int>, k: int, i: nat, t: nat)
    requires i < |vs| && t < |VertexExclusivity(vs, k, vs[i])|
    ensures i * PairsPerVertex(k) + t < |ExclusivityBlock(vs, k, |vs|)|
    ensures ExclusivityBlock(vs, k, |vs|)[i * PairsPerVertex(k) + t] == VertexExclusivity(vs, k, vs[i])[t]
  {
    ExclusivityBlockLength(vs, k, i);
    BlockPrefix(vs, k, i + 1, |vs|);
  }

  /** Within vertex i's exclusivity group, the clause for colours c1 < c2 is
      [-(i*k + c1), -(i*k + c2)], at (c1-1)(2k-c1)/2 + (c2-c1-1). */
  lemma GroupClauseAt(vs: seq<int>, k: int, i: nat, c1: int, c2: int)
    requires Distinct(vs) && i < |vs| && 1 <= c1 < c2 <= k
    ensures var t := (c1 - 1) * (2 * k - c1) / 2 + (c2 - c1 - 1);
      0 <= t < |VertexExclusivity(vs, k, vs[i])| &&
      VertexExclusivity(vs, k, vs[i])[t] == [-(i * k + c1), -(i * k + c2)]
  {
    RowAt(vs, k, vs[i], c1, c2);
    VarOfDistinct(vs, k, i, c1);
    VarOfDistinct(vs, k, i, c2);
  }

  /** Within the exclusivity block, the clause for vertex i and colours c1 < c2 is
      [-(i*k + c1), -(i*k + c2)], at i·k(k-1)/2 + (c1-1)(2k-c1)/2 + (c2-c1-1). */
  lemma ExclusivityBlockAt(vs: seq<int>, k: int, i: nat, c1: int, c2: int)
    requires Distinct(vs) && i < |vs| && 1 <= c1 < c2 <= k
    ensures var p := i * PairsPerVertex(k) + (c1 - 1) * (2 * k - c1) / 2 + (c2 - c1 - 1);
      0 <= p < |ExclusivityBlock(vs, k, |vs|)| &&
      ExclusivityBlock(vs, k, |vs|)[p] == [-(i * k + c1), -(i * k + c2)]
  {
    GroupClauseAt(vs, k, i, c1, c2);
    BlockAt(vs, k, i, (c1 - 1) * (2 * k - c1) / 2 + (c2 - c1 - 1));
  }

  /** The exclusivity clause for vertex i and colours c1 < c2 is [-(i*k + c1), -(i*k + c2)], at
      position |V| + i·k(k-1)/2 + (c1-1)(2k-c1)/2 + (c2-c1-1): vertex by vertex, then c1 ascending,
      then c2 ascending. */
  lemma ExclusivityClauseAt(vs: seq<int>, es: seq<Edge>, k: int, i: nat, c1: int, c2: int)
    requires Encode(vs, es, k).Success? && Distinct(vs) && i < |vs| && 1 <= c1 < c2 <= k
    ensures var at := |vs| + i * PairsPerVertex(k) + (c1 - 1) * (2 * k - c1) / 2 + (c2 - c1 - 1);
      0 <= at < |Encode(vs, es, k).value.clauses| &&
      Encode(vs, es, k).value.clauses[at] == [-(i * k + c1), -(i * k + c2)]
  {
    ExclusivityBlockAt(vs, k, i, c1, c2);
    var cov, exc, adj := CoverageBlock(vs, k), ExclusivityBlock(vs, k, |vs|), AdjacencyBlock(vs, k, es);
    var p := i * PairsPerVertex(k) + (c1 - 1) * (2 * k - c1) / 2 + (c2 - c1 - 1);
    InMiddle(cov, exc, adj, p);
    assert Encode(vs, es, k).value.clauses == cov + exc + adj;
  }

  lemma InMiddle<T>(a: seq<T>, b: seq<T>, c: seq<T>, p: nat)
    requires p < |b|
    ensures |a| + p < |a + b + c| && (a + b + c)[|a| + p] == b[p]
  {
  }

  lemma {:induction false} AdjacencyPrefix(vs: seq<int>, k: int, es: seq<Edge>, a: nat)
    requires a <= |es| && (k >= 1 ==> WellFormed(vs, es))
    ensures k >= 1 ==> WellFormed(vs, es[..a])
    ensures AdjacencyBlock(vs, k, es[..a]) <= AdjacencyBlock(vs, k, es)
    decreases |es|
  {
    assert k >= 1 ==> WellFormed(vs, es[..a]) by {
      if k >= 1 {
        forall i | 0 <= i < a ensures EdgeIn(vs, es[..a][i]) {
          assert es[..a][i] == es[i];
        }
      }
    }
    if a < |es| {
      var init := es[..|es| - 1];
      AdjacencyPrefix(vs, k, init, a);
      assert init[..a] == es[..a];
    } else {
      assert es[..a] == es;
    }
  }

  /** Clause q of edge e's group sits at e·k + q in the adjacency block. */
  lemma EdgeGroupAt(vs: seq<int>, es: seq<Edge>, k: int, e: nat, q: nat)
    requires WellFormed(vs, es) && e < |es| && q < Palette(k)
    ensures EdgeIn(vs, es[e])
    ensures e * k + q < |AdjacencyBlock(vs, k, es)|
    ensures AdjacencyBlock(vs, k, es)[e * k + q] == EdgeClauses(vs, k, es[e])[q]
  {
    assert Palette(k) == k;
    AdjacencyPrefix(vs, k, es, e + 1);
    AdjacencyBlockLength(vs, k, es[..e]);
    var pre := es[..e + 1];
    assert pre[..e] == es[..e] && pre[e] == es[e];
    var head := AdjacencyBlock(vs, k, pre);
    assert head == AdjacencyBlock(vs, k, es[..e]) + EdgeClauses(vs, k, es[e]);
    assert head[e * k + q] == EdgeClauses(vs, k, es[e])[q];
    PrefixAt(head, AdjacencyBlock(vs, k, es), e * k + q);
  }

  /** Within the adjacency block, the clause for edge e and colour c sits at e·k + (c - 1). */
  lemma AdjacencyBlockAt(vs: seq<int>, es: seq<Edge>, k: int, e: nat, c: int)
    requires WellFormed(vs, es) && e < |es| && 1 <= c <= k
    ensures EdgeIn(vs, es[e])
    ensures e * k + (c - 1) < |AdjacencyBlock(vs, k, es)|
    ensures AdjacencyBlock(vs, k, es)[e * k + (c - 1)] == [-Var(vs, k, es[e].u, c), -Var(vs, k, es[e].v, c)]
  {
    EdgeGroupAt(vs, es, k, e, c - 1);
  }

  lemma AtEnd<T>(a: seq<T>, b: seq<T>, c: seq<T>, q: nat)
    requires q < |c|
    ensures |a| + |b| + q < |a + b + c| && (a + b + c)[|a| + |b| + q] == c[q]
  {
  }

  /** For edge e (input order, duplicates kept) and colour c, the clause [-var(u, c), -var(v, c)]
      sits at |V| + |V|·k(k-1)/2 + e·k + (c - 1). */
  lemma AdjacencyClauseAt(vs: seq<int>, es: seq<Edge>, k: int, e: nat, c: int)
    requires Encode(vs, es, k).Success? && e < |es| && 1 <= c <= k
    ensures EdgeIn(vs, es[e])
    ensures var at := |vs| + |vs| * PairsPerVertex(k) + e * k + (c - 1);
      at < |Encode(vs, es, k).value.clauses| &&
      Encode(vs, es, k).value.clauses[at] == [-Var(vs, k, es[e].u, c), -Var(vs, k, es[e].v, c)]
  {
    AdjacencyBlockAt(vs, es, k, e, c);
    ExclusivityBlockLength(vs, k, |vs|);
    var cov, exc, adj := CoverageBlock(vs, k), ExclusivityBlock(vs, k, |vs|), AdjacencyBlock(vs, k, es);
    AtEnd(cov, exc, adj, e * k + (c - 1));
    assert Encode(vs, es, k).value.clauses == cov + exc + adj;
  }

  // ---------------------------------------------------------------- literal bounds

  /** Every literal is non-zero and names a variable 1..n. */
  predicate LiteralsWithin(cls: seq<Clause>, n: int) {
    forall i, j | 0 <= i < |cls| && 0 <= j < |cls[i]| :: cls[i][j] != 0 && -n <= cls[i][j] <= n
  }

  lemma LiteralsWithinAppend(a: seq<Clause>, b: seq<Clause>, n: int)
    requires LiteralsWithin(a, n) && LiteralsWithin(b, n)
    ensures LiteralsWithin(a + b, n)
  {
    forall i, j | 0 <= i < |a + b| && 0 <= j < |(a + b)[i]|
      ensures (a + b)[i][j] != 0 && -n <= (a + b)[i][j] <= n
    {
      if i >= |a| { assert (a + b)[i] == b[i - |a|]; }
    }
  }

  lemma {:induction false} RowsWithin(vs: seq<int>, k: int, v: int, upTo: int)
    requires v in vs && upTo <= Palette(k) + 1
    ensures LiteralsWithin(ExclusivityRows(vs, k, v, upTo), |vs| * Palette(k))
    decreases upTo
  {
    if upTo > 1 {
      RowsWithin(vs, k, v, upTo - 1);
      var row := ExclusivityRow(vs, k, v, upTo - 1);
      var n := |vs| * Palette(k);
      assert n == |vs| * k;
      forall i, j | 0 <= i < |row| && 0 <= j < |row[i]| ensures row[i][j] != 0 && -n <= row[i][j] <= n {
        RowElement(vs, k, v, upTo - 1, i);
        VarInRange(vs, k, v, upTo - 1);
        VarInRange(vs, k, v, upTo + i);
      }
      LiteralsWithinAppend(ExclusivityRows(vs, k, v, upTo - 1), row, |vs| * Palette(k));
    }
  }

  lemma {:induction false} ExclusivityWithin(vs: seq<int>, k: int, n: nat)
    requires n <= |vs|
    ensures LiteralsWithin(ExclusivityBlock(vs, k, n), |vs| * Palette(k))
    decreases n
  {
    if n > 0 {
      ExclusivityWithin(vs, k, n - 1);
      RowsWithin(vs, k, vs[n - 1], Palette(k) + 1);
      LiteralsWithinAppend(ExclusivityBlock(vs, k, n - 1), VertexExclusivity(vs, k, vs[n - 1]), |vs| * Palette(k));
    }
  }

  lemma {:induction false} AdjacencyWithin(vs: seq<int>, k: int, es: seq<Edge>)
    requires k >= 1 ==> WellFormed(vs, es)
    ensures LiteralsWithin(AdjacencyBlock(vs, k, es), |vs| * Palette(k))
    decreases |es|
  {
    if es != [] {
      var init := es[..|es| - 1];
      AdjacencyPrefix(vs, k, es, |es| - 1);
      AdjacencyWithin(vs, k, init);
      var e := es[|es| - 1];
      var cl := EdgeClauses(vs, k, e);
      var n := |vs| * Palette(k);
      forall i, j | 0 <= i < |cl| && 0 <= j < |cl[i]| ensures cl[i][j] != 0 && -n <= cl[i][j] <= n {
        assert k >= 1 && n == |vs| * k;
        VarInRange(vs, k, e.u, i + 1);
        VarInRange(vs, k, e.v, i + 1);
      }
      LiteralsWithinAppend(AdjacencyBlock(vs, k, init), cl, |vs| * Palette(k));
    }
  }

  lemma CoverageWithin(vs: seq<int>, k: int)
    ensures LiteralsWithin(CoverageBlock(vs, k), |vs| * Palette(k))
  {
    var cov := CoverageBlock(vs, k);
    forall i, j | 0 <= i < |cov| && 0 <= j < |cov[i]|
      ensures cov[i][j] != 0 && -(|vs| * Palette(k)) <= cov[i][j] <= |vs| * Palette(k)
    {
      VarInRange(vs, k, vs[i], j + 1);
    }
  }

  /** Every literal of every clause names a variable 1 .. numVars: no lookup falls outside the map. */
  lemma LiteralBounds(vs: seq<int>, es: seq<Edge>, k: int)
    requires Encode(vs, es, k).Success?
    ensures LiteralsWithin(Encode(vs, es, k).value.clauses, Encode(vs, es, k).value.numVars)
  {
    var cov := CoverageBlock(vs, k);
    CoverageWithin(vs, k);
    ExclusivityWithin(vs, k, |vs|);
    AdjacencyWithin(vs, k, es);
    LiteralsWithinAppend(cov, ExclusivityBlock(vs, k, |vs|), |vs| * Palette(k));
    LiteralsWithinAppend(cov + ExclusivityBlock(vs, k, |vs|), AdjacencyBlock(vs, k, es), |vs| * Palette(k));
  }
}
