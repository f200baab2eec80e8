/**
 The CNF encoder, `generate_sat(vertices, edges, k)`: it numbers every
 (vertex, colour) pair with a propositional variable, then emits the
 coverage clauses (each vertex has a colour), the exclusivity clauses (no
 vertex has two) and the adjacency clauses (the ends of an edge differ).
 Colours are `range(1, k + 1)`, so for k <= 0 there are none.
 */
module CnfEncoder {
  import opened Wrappers
  import opened Graphs

  /** A literal: +x asserts variable x, -x denies it. */
  type Literal = int

  /** A disjunction of literals, in the order the source writes them. */
  type Clause = seq<Literal>

  /** The clauses in emission order and the variable count `var_count - 1`. */
  datatype Cnf = Cnf(clauses: seq<Clause>, numVars: int)

  /** The KeyError `var_map[(vertex, c)]` raises for an edge end that is not a listed vertex. */
  datatype EncodeError = UnknownVertex(vertex: int)

  /** How many colours `range(1, k + 1)` yields. */
  function Palette(k: int): nat {
    if k < 1 then 0 else k
  }

  /** Position of the last occurrence of v: the entry of `var_map` that survives. */
  function LastIndexOf(vs: seq<int>, v: int): (i: nat)
    requires v in vs
    ensures i < |vs| && vs[i] == v
    ensures forall j | i < j < |vs| :: vs[j] != v
    decreases |vs|
  {
    if vs[|vs| - 1] == v then |vs| - 1 else LastIndexOf(vs[..|vs| - 1], v)
  }

  /** `var_map[(v, c)]` once the numbering loop is done. For a colour 1..k the number can be
      decoded: (x - 1) / k is the position of v, (x - 1) % k + 1 the colour. */
  function Var(vs: seq<int>, k: int, v: int, c: int): (x: int)
    requires v in vs
    ensures 1 <= c <= k ==> (x - 1) / k == LastIndexOf(vs, v) && (x - 1) % k == c - 1
  {
    var l := LastIndexOf(vs, v);
    if 1 <= c <= k then SlotDecode(l, k, c); l * k + c else l * k + c
  }

  /** Slot l·k + c, for a colour c in 1..k, lies in block l at offset c - 1. */
  lemma SlotDecode(l: nat, k: int, c: int)
    requires 1 <= c <= k
    ensures (l * k + c - 1) / k == l && (l * k + c - 1) % k == c - 1
  {
    var x := l * k + c - 1;
    var q, r := x / k, x % k;
    assert x == q * k + r && 0 <= r < k;
    assert (l - q) * k == r - (c - 1);
    MulBound(l - q, k);
  }

  lemma MulBound(d: int, k: int)
    requires k >= 1
    ensures d >= 1 ==> d * k >= k
    ensures d <= -1 ==> d * k <= -k
  {
  }

  /** varMap is the finished numbering: defined exactly on the listed vertices with colours 1..k. */
  ghost predicate IsNumbering(vs: seq<int>, k: int, varMap: map<(int, int), int>) {
    && (forall p :: p in varMap <==> p.0 in vs && 1 <= p.1 <= k)
    && (forall p | p in varMap :: p.0 in vs && varMap[p] == Var(vs, k, p.0, p.1))
  }

  /** The numbering after the first i vertices, and, when c > 1, colours 1..c-1 of vertex i. */
  ghost predicate NumberedUpTo(vs: seq<int>, k: int, i: nat, c: int, varMap: map<(int, int), int>)
    requires i < |vs| || (i == |vs| && c == 1)
  {
    && (forall p :: p in varMap <==> (p.0 in vs[..i] || (c > 1 && p.0 == vs[i] && p.1 < c)) && 1 <= p.1 <= k)
    && (forall p | p in varMap ::
          varMap[p] == (if c > 1 && p.0 == vs[i] && p.1 < c then i else LastIndexOf(vs[..i], p.0)) * k + p.1)
  }

  /** The numbering loop: vertices in list order, colours 1..k, counting up from 1. */
  method NumberVariables(vs: seq<int>, k: int) returns (varMap: map<(int, int), int>, varCount: int)
    ensures IsNumbering(vs, k, varMap)
    ensures varCount == |vs| * Palette(k) + 1
  {
    varMap := map[];
    varCount := 1;
    for i := 0 to |vs|
      invariant NumberedUpTo(vs, k, i, 1, varMap)
      invariant varCount == i * Palette(k) + 1
    {
      var c := 1;
      while c <= k
        invariant 1 <= c <= Palette(k) + 1
        invariant varCount == i * Palette(k) + c
        invariant NumberedUpTo(vs, k, i, c, varMap)
      {
        NumberOne(vs, k, i, c, varMap);
        varMap := varMap[(vs[i], c) := varCount];
        varCount := varCount + 1;
        c := c + 1;
      }
      FinishVertex(vs, k, i, c, varMap);
      assert varCount == (i + 1) * Palette(k) + 1;
    }
    NumberingComplete(vs, k, varMap);
  }

  /** Numbering colour c of vertex i extends the partial numbering. */
  lemma NumberOne(vs: seq<int>, k: int, i: nat, c: int, varMap: map<(int, int), int>)
    requires i < |vs| && 1 <= c <= k
    requires NumberedUpTo(vs, k, i, c, varMap)
    ensures NumberedUpTo(vs, k, i, c + 1, varMap[(vs[i], c) := i * k + c])
  {
  }

  /** Once all colours of vertex i are numbered, the first i + 1 vertices are. */
  lemma FinishVertex(vs: seq<int>, k: int, i: nat, c: int, varMap: map<(int, int), int>)
    requires i < |vs| && c == Palette(k) + 1
    requires NumberedUpTo(vs, k, i, c, varMap)
    ensures NumberedUpTo(vs, k, i + 1, 1, varMap)
  {
    forall p | p in varMap
      ensures varMap[p] == LastIndexOf(vs[..i + 1], p.0) * k + p.1
    {
      assert p.0 in vs[..i + 1];
      LastIndexOfSnoc(vs, i, p.0);
    }
    forall p ensures p in varMap <==> p.0 in vs[..i + 1] && 1 <= p.1 <= k {
      if p.0 in vs[..i + 1] {
        LastIndexOfSnoc(vs, i, p.0);
      }
      assert p.0 in vs[..i] ==> p.0 in vs[..i + 1];
    }
  }

  lemma NumberingComplete(vs: seq<int>, k: int, varMap: map<(int, int), int>)
    requires NumberedUpTo(vs, k, |vs|, 1, varMap)
    ensures IsNumbering(vs, k, varMap)
  {
    assert vs[..|vs|] == vs;
  }

  /** Extending the prefix by vs[i] moves the last occurrence of vs[i] to i and leaves the others. */
  lemma LastIndexOfSnoc(vs: seq<int>, i: nat, v: int)
    requires i < |vs| && v in vs[..i + 1]
    ensures v != vs[i] ==> v in vs[..i]
    ensures LastIndexOf(vs[..i + 1], v) == if v == vs[i] then i else LastIndexOf(vs[..i], v)
  {
    var pre := vs[..i + 1];
    assert pre[..i] == vs[..i] && pre[i] == vs[i] && |pre| - 1 == i;
    if v != vs[i] {
      var j :| 0 <= j < |pre| && pre[j] == v;
      assert j < i && vs[..i][j] == v;
    }
  }

  // ---------------------------------------------------------------- specification

  /** The coverage clause of v: its variables for colours 1..k, ascending. */
  function CoverageClause(vs: seq<int>, k: int, v: int): Clause
    requires v in vs
  {
    seq(Palette(k), j requires 0 <= j < Palette(k) => Var(vs, k, v, j + 1))
  }

  /** One coverage clause per listed vertex, in list order. */
  function CoverageBlock(vs: seq<int>, k: int): seq<Clause> {
    seq(|vs|, i requires 0 <= i < |vs| => CoverageClause(vs, k, vs[i]))
  }

  /** The exclusivity clauses of v for colour c1: one per c2 = c1 + 1 .. k. */
  function ExclusivityRow(vs: seq<int>, k: int, v: int, c1: int): seq<Clause>
    requires v in vs
  {
    seq(Palette(k - c1), j requires 0 <= j < Palette(k - c1) => [-Var(vs, k, v, c1), -Var(vs, k, v, c1 + 1 + j)])
  }

  /** The rows of v for colours c1 = 1 .. upTo - 1, in that order. */
  function ExclusivityRows(vs: seq<int>, k: int, v: int, upTo: int): seq<Clause>
    requires v in vs
    decreases upTo
  {
    if upTo <= 1 then [] else ExclusivityRows(vs, k, v, upTo - 1) + ExclusivityRow(vs, k, v, upTo - 1)
  }

  /** All exclusivity clauses of v. */
  function VertexExclusivity(vs: seq<int>, k: int, v: int): seq<Clause>
    requires v in vs
  {
    ExclusivityRows(vs, k, v, Palette(k) + 1)
  }

  /** The exclusivity clauses of the first n listed vertices, in list order. */
  function ExclusivityBlock(vs: seq<int>, k: int, n: nat): seq<Clause>
    requires n <= |vs|
  {
    if n == 0 then [] else ExclusivityBlock(vs, k, n - 1) + VertexExclusivity(vs, k, vs[n - 1])
  }

  /** The adjacency clauses of e: one per colour 1..k. */
  function EdgeClauses(vs: seq<int>, k: int, e: Edge): seq<Clause>
    requires k >= 1 ==> EdgeIn(vs, e)
  {
    seq(Palette(k), j requires 0 <= j < Palette(k) => [-Var(vs, k, e.u, j + 1), -Var(vs, k, e.v, j + 1)])
  }

  /** The adjacency clauses of the edges, in edge order (duplicates included). */
  function AdjacencyBlock(vs: seq<int>, k: int, es: seq<Edge>): seq<Clause>
    requires k >= 1 ==> WellFormed(vs, es)
    decreases |es|
  {
    if es == [] then []
    else AdjacencyBlock(vs, k, es[..|es| - 1]) + EdgeClauses(vs, k, es[|es| - 1])
  }

  /** The first edge end whose lookup fails, scanning edges in order and u before v. */
  function FirstUnknown(vs: seq<int>, es: seq<Edge>): (r: Option<int>)
    ensures r.None? <==> WellFormed(vs, es)
    ensures r.Some? ==> r.value !in vs
    decreases |es|
  {
    if es == [] then None
    else if es[0].u !in vs then Some(es[0].u)
    else if es[0].v !in vs then Some(es[0].v)
    else
      var r := FirstUnknown(vs, es[1..]);
      assert WellFormed(vs, es) <==> WellFormed(vs, es[1..]) by {
        assert forall i | 1 <= i < |es| :: es[i] == es[1..][i - 1];
      }
      r
  }

  /** `generate_sat(vertices, edges, k)` as a value. */
  function Encode(vs: seq<int>, es: seq<Edge>, k: int): (r: Result<Cnf, EncodeError>)
    ensures r.Failure? <==> k >= 1 && !WellFormed(vs, es)
    ensures r.Failure? ==> r.error.vertex !in vs
    ensures r.Success? ==> r.value.numVars == |vs| * Palette(k)
  {
    if k >= 1 && FirstUnknown(vs, es).Some? then Failure(UnknownVertex(FirstUnknown(vs, es).value))
    else Success(Cnf(CoverageBlock(vs, k) + ExclusivityBlock(vs, k, |vs|) + AdjacencyBlock(vs, k, es), |vs| * Palette(k)))
  }

  // ---------------------------------------------------------------- the passes

  /** Coverage pass: for each vertex, the clause of its k positive literals. */
  method CoveragePass(vs: seq<int>, k: int, varMap: map<(int, int), int>) returns (clauses: seq<Clause>)
    requires IsNumbering(vs, k, varMap)
    ensures clauses == CoverageBlock(vs, k)
  {
    clauses := [];
    for i := 0 to |vs|
      invariant |clauses| == i
      invariant forall j | 0 <= j < i :: clauses[j] == CoverageClause(vs, k, vs[j])
    {
      var clause: Clause := [];
      var c := 1;
      while c <= k
        invariant 1 <= c <= Palette(k) + 1
        invariant |clause| == c - 1
        invariant forall j | 0 <= j < c - 1 :: clause[j] == Var(vs, k, vs[i], j + 1)
      {
        clause := clause + [varMap[(vs[i], c)]];
        c := c + 1;
      }
      clauses := clauses + [clause];
    }
  }

  /** Exclusivity pass: for each vertex and colours c1 < c2, the clause -(v, c1) -(v, c2). */
  method ExclusivityPass(vs: seq<int>, k: int, varMap: map<(int, int), int>) returns (clauses: seq<Clause>)
    requires IsNumbering(vs, k, varMap)
    ensures clauses == ExclusivityBlock(vs, k, |vs|)
  {
    clauses := [];
    for i := 0 to |vs|
      invariant clauses == ExclusivityBlock(vs, k, i)
    {
      var v := vs[i];
      var c1 := 1;
      while c1 <= k
        invariant 1 <= c1 <= Palette(k) + 1
        invariant clauses == ExclusivityBlock(vs, k, i) + ExclusivityRows(vs, k, v, c1)
      {
        clauses := AppendRow(clauses, vs, k, v, c1, varMap);
        c1 := c1 + 1;
      }
    }
  }

  /** The innermost loop of the exclusivity pass: the clauses -(v, c1) -(v, c2) for c2 = c1 + 1 .. k,
      appended in that order. */
  method AppendRow(clauses: seq<Clause>, vs: seq<int>, k: int, v: int, c1: int, varMap: map<(int, int), int>)
    returns (clauses': seq<Clause>)
    requires IsNumbering(vs, k, varMap)
    requires v in vs && 1 <= c1 <= k
    ensures clauses' == clauses + ExclusivityRow(vs, k, v, c1)
  {
    clauses' := clauses;
    var c2 := c1 + 1;
    while c2 <= k
      invariant c1 + 1 <= c2 <= k + 1
      invariant clauses' == clauses + ExclusivityRow(vs, k, v, c1)[..c2 - c1 - 1]
    {
      // the source writes "-{a}", which is str(-a) because a >= 1
      clauses' := clauses' + [[-varMap[(v, c1)], -varMap[(v, c2)]]];
      RowGrows(vs, k, v, c1, c2);
      c2 := c2 + 1;
    }
    assert ExclusivityRow(vs, k, v, c1)[..c2 - c1 - 1] == ExclusivityRow(vs, k, v, c1);
  }

  /** Adjacency pass: for each edge in order and each colour, the clause -(u, c) -(v, c);
      the lookup of an end that is not a listed vertex fails. */
  method AdjacencyPass(vs: seq<int>, es: seq<Edge>, k: int, varMap: map<(int, int), int>)
    returns (r: Result<seq<Clause>, EncodeError>)
    requires IsNumbering(vs, k, varMap)
    ensures k >= 1 && FirstUnknown(vs, es).Some? ==> r == Failure(UnknownVertex(FirstUnknown(vs, es).value))
    ensures !(k >= 1 && FirstUnknown(vs, es).Some?) ==> r == Success(AdjacencyBlock(vs, k, es))
  {
    var clauses: seq<Clause> := [];
    for i := 0 to |es|
      invariant k >= 1 ==> WellFormed(vs, es[..i])
      invariant clauses == AdjacencyBlock(vs, k, es[..i])
    {
      var e := es[i];
      ghost var before := clauses;
      var c := 1;
      while c <= k
        invariant 1 <= c <= Palette(k) + 1
        invariant c > 1 ==> EdgeIn(vs, e)
        invariant c == 1 ==> clauses == before
        invariant c > 1 ==> clauses == before + EdgeClauses(vs, k, e)[..c - 1]
      {
        if (e.u, c) !in varMap {
          FirstUnknownAfterKnown(vs, es, i);
          return Failure(UnknownVertex(e.u));
        }
        if (e.v, c) !in varMap {
          FirstUnknownAfterKnown(vs, es, i);
          return Failure(UnknownVertex(e.v));
        }
        clauses := clauses + [[-varMap[(e.u, c)], -varMap[(e.v, c)]]];
        EdgeClausesGrow(vs, k, e, c);
        c := c + 1;
      }
      assert es[..i + 1][..i] == es[..i] && es[..i + 1][i] == e;
      assert k >= 1 ==> WellFormed(vs, es[..i + 1]);
      assert k >= 1 ==> EdgeClauses(vs, k, e)[..c - 1] == EdgeClauses(vs, k, e);
    }
    assert es[..|es|] == es;
    return Success(clauses);
  }

  /** The row of c1 up to colour c2 is the row up to c2 - 1, then the clause for (c1, c2). */
  lemma RowGrows(vs: seq<int>, k: int, v: int, c1: int, c2: int)
    requires v in vs && 1 <= c1 < c2 <= k
    ensures ExclusivityRow(vs, k, v, c1)[..c2 - c1]
         == ExclusivityRow(vs, k, v, c1)[..c2 - c1 - 1] + [[-Var(vs, k, v, c1), -Var(vs, k, v, c2)]]
  {
    var row := ExclusivityRow(vs, k, v, c1);
    assert row[c2 - c1 - 1] == [-Var(vs, k, v, c1), -Var(vs, k, v, c2)];
  }

  /** The clauses of e up to colour c are those up to c - 1, then the clause for c. */
  lemma EdgeClausesGrow(vs: seq<int>, k: int, e: Edge, c: int)
    requires EdgeIn(vs, e) && 1 <= c <= k
    ensures EdgeClauses(vs, k, e)[..c] == EdgeClauses(vs, k, e)[..c - 1] + [[-Var(vs, k, e.u, c), -Var(vs, k, e.v, c)]]
  {
    var cls := EdgeClauses(vs, k, e);
    assert cls[c - 1] == [-Var(vs, k, e.u, c), -Var(vs, k, e.v, c)];
  }

  /** When the edges before i resolve, the first failing lookup is found at edge i or later. */
  lemma {:induction false} FirstUnknownAfterKnown(vs: seq<int>, es: seq<Edge>, i: nat)
    requires i < |es| && WellFormed(vs, es[..i])
    ensures FirstUnknown(vs, es) == FirstUnknown(vs, es[i..])
    decreases i
  {
    if i > 0 {
      assert es[..i][0] == es[0];
      assert es[1..][..i - 1] == es[..i][1..];
      var tail := es[1..][..i - 1];
      assert WellFormed(vs, tail) by {
        forall j | 0 <= j < i - 1 ensures EdgeIn(vs, tail[j]) {
          assert tail[j] == es[..i][j + 1];
        }
      }
      FirstUnknownAfterKnown(vs, es[1..], i - 1);
      assert es[1..][i - 1..] == es[i..];
    } else {
      assert es[0..] == es;
    }
  }

  /** `generate_sat(vertices, edges, k)`: returns the clauses and `var_count - 1`. */
  method GenerateSat(vs: seq<int>, es: seq<Edge>, k: int) returns (r: Result<Cnf, EncodeError>)
    ensures r == Encode(vs, es, k)
  {
    var varMap, varCount := NumberVariables(vs, k);
    var coverage := CoveragePass(vs, k, varMap);
    var exclusivity := ExclusivityPass(vs, k, varMap);
    var adjacency := AdjacencyPass(vs, es, k, varMap);
    match adjacency
    case Failure(err) =>
      r := Failure(err);
    case Success(adj) =>
      r := Success(Cnf(coverage + exclusivity + adj, varCount - 1));
  }
}
