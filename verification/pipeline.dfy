/**
 The program's main path: read k, read the graph, encode k-colourability,
 write the DIMACS text. The console is replaced by the given input lines and
 the returned output lines; the prompts are not part of the output.
 */
module GraphToSat {
  import opened Wrappers
  import opened Text
  import opened Graphs
  import opened GraphReader
  import opened CnfEncoder
  import opened EncoderFacts
  import opened CnfSemantics
  import opened Dimacs

  /** The DIMACS lines for k colours and the graph the input lines declare, or the reading error.
      The encoder cannot fail here: the reader puts every edge end in the vertex list. */
  method Convert(k: int, lines: seq<string>) returns (r: Result<seq<string>, ReadError>)
    ensures r.Failure? <==> ScanEdges(lines).Failure?
    ensures r.Failure? ==> r.error == ScanEdges(lines).error
    ensures r.Success? ==>
      var es := ScanEdges(lines).value;
      var vs := SortedOf(Endpoints(es));
      Encode(vs, es, k).Success? && r.value == DimacsLines(Encode(vs, es, k).value)
  {
    var g := ReadGraph(lines);
    if g.Failure? {
      return Failure(g.error);
    }
    var graph := g.value;
    ReaderEstablishesEncoderInput(lines);
    var enc := GenerateSat(graph.vertices, graph.edges, k);
    assert enc.Success?;
    var cnf := enc.value;
    var out := WriteDimacs(cnf.clauses, cnf.numVars);
    r := Success(out);
  }

  /** What the output says about the graph read from the input: the header counts |V|·k variables
      and |V| + |V|·k(k-1)/2 + |E|·k clauses, the text reads back as the encoding, and that encoding
      is satisfiable exactly when the graph has a proper k-colouring. */
  lemma OutputMeaning(k: int, lines: seq<string>)
    requires ScanEdges(lines).Success?
    ensures var es := ScanEdges(lines).value;
      var vs := SortedOf(Endpoints(es));
      && Encode(vs, es, k).Success?
      && |Encode(vs, es, k).value.clauses| == |vs| + |vs| * PairsPerVertex(k) + |es| * Palette(k)
      && Encode(vs, es, k).value.numVars == |vs| * Palette(k)
      && ParseDimacs(DimacsLines(Encode(vs, es, k).value)) == Some(Encode(vs, es, k).value)
      && (Colourable(vs, es, k) <==> Satisfiable(Encode(vs, es, k).value))
  {
    var es := ScanEdges(lines).value;
    var vs := SortedOf(Endpoints(es));
    ReaderEstablishesEncoderInput(lines);
    ColourableIffSatisfiable(vs, es, k);
    ClauseCount(vs, es, k);
    LiteralBounds(vs, es, k);
    DimacsRoundTrip(Encode(vs, es, k).value);
  }

  /** What a run prints, prompts left out, or the exception that ends it. */
  datatype Outcome = Printed(lines: seq<string>) | Crashed(error: ReadError)

  const InvalidInputMessage: string := "Invalid input. Please enter an integer for the number of colors."

  /** `int(line)` on a whole input line: Python strips the surrounding whitespace, so the line must
      hold exactly one word, and that word must be an integer. */
  function ParseCount(line: string): (k: Option<int>)
    ensures k.Some? ==> |Words(line)| == 1 && ParseInt(Words(line)[0]) == k
    ensures |Words(line)| != 1 ==> k.None?
  {
    var ws := Words(line);
    if |ws| == 1 then ParseInt(ws[0]) else None
  }

  /** The line `str(k)` is read back as k. */
  lemma ParseCountOfIntToString(k: int)
    ensures ParseCount(IntToString(k)) == Some(k)
  {
    WordsOfJoin([IntToString(k)]);
    ParseIntOfIntToString(k);
  }

  /** The main block: k from the first input line, then the graph from the lines after it. A
      ValueError, from k or from an edge end, prints the invalid-input message; the IndexError of an
      `e` line with too few words is not caught. */
  method Run(countLine: string, lines: seq<string>) returns (out: Outcome)
    ensures ParseCount(countLine).None? ==> out == Printed([InvalidInputMessage])
    ensures ParseCount(countLine).Some? && ScanEdges(lines).Failure? ==>
      out == (if ScanEdges(lines).error.NotAnInteger? then Printed([InvalidInputMessage]) else Crashed(ScanEdges(lines).error))
    ensures ParseCount(countLine).Some? && ScanEdges(lines).Success? ==>
      var k, es := ParseCount(countLine).value, ScanEdges(lines).value;
      var vs := SortedOf(Endpoints(es));
      Encode(vs, es, k).Success? && out == Printed(DimacsLines(Encode(vs, es, k).value))
  {
    var k := ParseCount(countLine);
    if k.None? {
      return Printed([InvalidInputMessage]);
    }
    var r := Convert(k.value, lines);
    if r.Success? {
      out := Printed(r.value);
    } else if r.error.NotAnInteger? {
      out := Printed([InvalidInputMessage]);
    } else {
      out := Crashed(r.error);
    }
  }

  /** A k line that is not an integer, such as `abc`, gets the message and no DIMACS text. */
  lemma NonNumericCount()
    ensures ParseCount("abc") == None
  {
    assert TokenLength("abc") == 3;
    assert "abc"[..3] == "abc" && "abc"[3..] == [];
    assert Words("abc") == ["abc"];
    assert !AllDigits("abc");
  }

  // ---------------------------------------------------------------- worked examples

  /** Vertices [1, 2], two colours: (1, 1), (1, 2), (2, 1), (2, 2) get 1, 2, 3, 4. */
  lemma ExampleNumbering(vs: seq<int>)
    requires vs == [1, 2]
    ensures Var(vs, 2, 1, 1) == 1 && Var(vs, 2, 1, 2) == 2
    ensures Var(vs, 2, 2, 1) == 3 && Var(vs, 2, 2, 2) == 4
  {
    VarOfDistinct(vs, 2, 0, 1);
    VarOfDistinct(vs, 2, 0, 2);
    VarOfDistinct(vs, 2, 1, 1);
    VarOfDistinct(vs, 2, 1, 2);
  }

  lemma ExampleCoverage(vs: seq<int>)
    requires vs == [1, 2]
    ensures CoverageBlock(vs, 2) == [[1, 2], [3, 4]]
  {
    ExampleNumbering(vs);
    var c1, c2 := CoverageClause(vs, 2, 1), CoverageClause(vs, 2, 2);
    assert |c1| == 2 && c1[0] == 1 && c1[1] == 2;
    assert |c2| == 2 && c2[0] == 3 && c2[1] == 4;
    var b := CoverageBlock(vs, 2);
    assert |b| == 2 && b[0] == c1 && b[1] == c2;
    assert c1 == [1, 2] && c2 == [3, 4];
    assert b == [c1, c2];
  }

  lemma ExampleExclusivity(vs: seq<int>)
    requires vs == [1, 2]
    ensures ExclusivityBlock(vs, 2, 2) == [[-1, -2], [-3, -4]]
  {
    ExampleNumbering(vs);
    var r1, r2 := ExclusivityRow(vs, 2, 1, 1), ExclusivityRow(vs, 2, 2, 1);
    assert |r1| == 1 && r1[0] == [-1, -2];
    assert |r2| == 1 && r2[0] == [-3, -4];
    assert r1 == [[-1, -2]] && r2 == [[-3, -4]];
    assert ExclusivityRows(vs, 2, 1, 1) == [] && ExclusivityRows(vs, 2, 2, 1) == [];
    assert VertexExclusivity(vs, 2, 1) == r1;
    assert VertexExclusivity(vs, 2, 2) == r2;
    assert ExclusivityBlock(vs, 2, 1) == r1;
  }

  lemma ExampleAdjacency(vs: seq<int>)
    requires vs == [1, 2]
    ensures AdjacencyBlock(vs, 2, [Edge(1, 2)]) == [[-1, -3], [-2, -4]]
  {
    ExampleNumbering(vs);
    var e := EdgeClauses(vs, 2, Edge(1, 2));
    assert |e| == 2 && e[0] == [-1, -3] && e[1] == [-2, -4];
    assert e == [[-1, -3], [-2, -4]];
    assert [Edge(1, 2)][..0] == [];
  }

  /** One edge between 1 and 2, two colours: four variables and six clauses, in this order. */
  lemma SingleEdgeTwoColours()
    ensures Encode([1, 2], [Edge(1, 2)], 2)
         == Success(Cnf([[1, 2], [3, 4], [-1, -2], [-3, -4], [-1, -3], [-2, -4]], 4))
  {
    var vs, es := [1, 2], [Edge(1, 2)];
    ExampleCoverage(vs);
    ExampleExclusivity(vs);
    ExampleAdjacency(vs);
    assert EdgeIn(vs, es[0]);
    assert WellFormed(vs, es);
    var cls := CoverageBlock(vs, 2) + ExclusivityBlock(vs, 2, |vs|) + AdjacencyBlock(vs, 2, es);
    assert Encode(vs, es, 2) == Success(Cnf(cls, |vs| * Palette(2)));
    assert cls == [[1, 2], [3, 4], [-1, -2], [-3, -4], [-1, -3], [-2, -4]];
    assert |vs| * Palette(2) == 4;
  }

  lemma PairLine(a: int, b: int)
    ensures ClauseLine([a, b]) == IntToString(a) + " " + IntToString(b) + " 0"
  {
    var ts := Tokens([a, b]);
    assert ts == [IntToString(a), IntToString(b)] && ts[1..] == [IntToString(b)];
    assert Join(ts) == IntToString(a) + " " + IntToString(b);
  }

  /** The DIMACS text of that encoding. */
  lemma SingleEdgeTwoColoursText()
    ensures DimacsLines(Cnf([[1, 2], [3, 4], [-1, -2], [-3, -4], [-1, -3], [-2, -4]], 4))
         == ["p cnf 4 6", "1 2 0", "3 4 0", "-1 -2 0", "-3 -4 0", "-1 -3 0", "-2 -4 0"]
  {
    var cls := [[1, 2], [3, 4], [-1, -2], [-3, -4], [-1, -3], [-2, -4]];
    ExampleHeader();
    ExampleCoverageLines();
    ExampleExclusivityLines();
    ExampleAdjacencyLines();
    var ls := ClauseLines(cls);
    assert |ls| == 6;
    assert ls[0] == "1 2 0" && ls[1] == "3 4 0" && ls[2] == "-1 -2 0";
    assert ls[3] == "-3 -4 0" && ls[4] == "-1 -3 0" && ls[5] == "-2 -4 0";
    assert ls == ["1 2 0", "3 4 0", "-1 -2 0", "-3 -4 0", "-1 -3 0", "-2 -4 0"];
  }

  lemma ExampleHeader()
    ensures HeaderLine(4, 6) == "p cnf 4 6"
  {
    assert IntToString(4) == "4" && IntToString(6) == "6";
  }

  /** The coverage clause lines of the single-edge example. */
  lemma ExampleCoverageLines()
    ensures ClauseLine([1, 2]) == "1 2 0" && ClauseLine([3, 4]) == "3 4 0"
  {
    assert IntToString(1) == "1" && IntToString(2) == "2";
    assert IntToString(3) == "3" && IntToString(4) == "4";
    PairLine(1, 2);
    PairLine(3, 4);
  }

  /** The exclusivity clause lines of the single-edge example. */
  lemma ExampleExclusivityLines()
    ensures ClauseLine([-1, -2]) == "-1 -2 0" && ClauseLine([-3, -4]) == "-3 -4 0"
  {
    assert IntToString(-1) == "-1" && IntToString(-2) == "-2";
    assert IntToString(-3) == "-3" && IntToString(-4) == "-4";
    PairLine(-1, -2);
    PairLine(-3, -4);
  }

  /** The adjacency clause lines of the single-edge example. */
  lemma ExampleAdjacencyLines()
    ensures ClauseLine([-1, -3]) == "-1 -3 0" && ClauseLine([-2, -4]) == "-2 -4 0"
  {
    assert IntToString(-1) == "-1" && IntToString(-3) == "-3";
    assert IntToString(-2) == "-2" && IntToString(-4) == "-4";
    PairLine(-1, -3);
    PairLine(-2, -4);
  }

  /** The text of the edge from 1 to 2 is `e 1 2`. */
  lemma ExampleEdgeLine()
    ensures EdgeLines([Edge(1, 2)]) == ["e 1 2"]
  {
    assert IntToString(1) == "1" && IntToString(2) == "2";
    var ts := ["e", IntToString(1), IntToString(2)];
    assert ts + [] == ["e", "1", "2"];
    assert ["e", "1", "2"][1..] == ["1", "2"] && ["1", "2"][1..] == ["2"];
    assert Join(["e", "1", "2"]) == "e" + " " + ("1" + " " + "2") == "e 1 2";
  }

  /** The vertices of that edge, sorted, are 1 then 2. */
  lemma ExampleVertices()
    ensures SortedOf(Endpoints([Edge(1, 2)])) == [1, 2]
  {
    var es := [Edge(1, 2)];
    assert es[..0] == [];
    assert Endpoints(es) == {1, 2};
    assert Elements([1, 2]) == {1, 2};
    AscendingUnique(SortedOf({1, 2}), [1, 2]);
  }

  /** The input `e 1 2` followed by a blank line is the graph with one edge. */
  lemma SingleEdgeInput()
    ensures ReadGraphSpec(["e 1 2", ""]) == Success(Graph([1, 2], [Edge(1, 2)]))
  {
    ExampleEdgeLine();
    ScanOfEdgeLines([Edge(1, 2)], "", []);
    assert ["e 1 2", ""] == EdgeLines([Edge(1, 2)]) + [""] + [];
    ExampleVertices();
  }

  /** No vertices and no edges: no clauses and no variables, whatever k is. */
  lemma EmptyGraph(k: int)
    ensures Encode([], [], k) == Success(Cnf([], 0))
  {
    var vs: seq<int>, es: seq<Edge> := [], [];
    assert FirstUnknown(vs, es) == None;
    assert CoverageBlock(vs, k) == [] && ExclusivityBlock(vs, k, 0) == [] && AdjacencyBlock(vs, k, es) == [];
    assert CoverageBlock(vs, k) + ExclusivityBlock(vs, k, 0) + AdjacencyBlock(vs, k, es) == [];
  }

  /** Its DIMACS text is the header `p cnf 0 0` alone. */
  lemma EmptyGraphText()
    ensures DimacsLines(Cnf([], 0)) == ["p cnf 0 0"]
  {
    assert IntToString(0) == "0";
    assert HeaderLine(0, 0) == "p cnf 0 0";
    assert ClauseLines([]) == [];
    assert DimacsLines(Cnf([], 0)) == [HeaderLine(0, 0)] + [];
  }
}
