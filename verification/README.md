# graph_to_sat in Dafny

A model of `graph_to_sat.py`, which turns the question "can this graph be
coloured with k colours?" into a SAT instance in DIMACS CNF form. The model
has the following parts:

- **`read_graph`** becomes `GraphReader.ReadGraph`. It reads a given
  sequence of lines instead of the console. Reading stops at the first blank
  line or at the end of the lines. An `e u v` line adds the edge (u, v). The
  result is the sorted set of edge ends and the edges in input order.
- **`generate_sat`** becomes `CnfEncoder.GenerateSat`. It works in the
  source's own steps:
  - it numbers every (vertex, colour) pair in a map;
  - it then runs the three clause passes: coverage, pairwise exclusivity and
    adjacency.

  Each step is proved equal to a specification function (`Encode` and its
  blocks).
- **`write_dimacs`** becomes `Dimacs.WriteDimacs`. It returns the header line
  and the clause lines instead of printing them.
- **The main block** becomes `GraphToSat.Run`. It reads k from its own line,
  then reads the graph, encodes it and writes the text.

The proved properties:

- the numbering formula i·k + c, and that the numbering is one-to-one and
  onto 1..|V|·k;
- the clause count |V| + |V|·k(k−1)/2 + |E|·k;
- the position and content of every clause;
- the range of every literal;
- how blank lines and non-`e` lines are handled;
- that the reader establishes the encoder's input conditions;
- that the DIMACS text reads back as the clauses;
- and that the formula is satisfiable exactly when the graph has a proper
  k-colouring.

A clause is a sequence of signed integer literals. The source builds each
clause directly as text. For exclusivity and adjacency it writes
`f"-{a} -{b} 0"`, which equals `str(-a) + " " + str(-b) + " 0"` because every
variable a is at least 1. So rendering the integer clause with
`Dimacs.ClauseLine` gives the same line.

Points of behaviour that come from the code:

- **k ≤ 0.** Python's `range(1, k + 1)` is then empty, so every vertex gets
  the empty coverage clause (the line `" 0"`) and the variable count is 0. The
  model keeps this: `Palette(k)` is 0 for k < 1.
- **Malformed `e` lines.** These are not skipped. `e 1` raises IndexError,
  and `e x 2` raises ValueError. The reader checks in Python's evaluation
  order, giving `MissingEndpoint` and `NotAnInteger`.
  - In the main block, the `except ValueError` meant for k also catches a bad
    endpoint and prints the invalid-input message.
  - An IndexError is not caught, and the program stops with it (`Crashed`).
- **Vertex list given directly.** `generate_sat` is modelled for any vertex
  list, including one with repeats. Assigning `var_map[(v, c)]` again
  overwrites the entry, so the last occurrence wins (`LastIndexOf`).
  - An edge end that is not a listed vertex raises KeyError at the first such
    lookup (`UnknownVertex`), and only when k ≥ 1.
  - The lookups go edge by edge, u before v (`FirstUnknown`).

## Model

In the table, #V is the number of listed vertices and #E the number of edges.

| member | source | states |
|---|---|---|
| `Text.BlankIffNoWords` | graph_to_sat.py:11-14 | a line is blank (`strip() == ""`) exactly when `split()` finds no word in it |
| `Text.Words` | graph_to_sat.py:13 | every piece `split()` returns is non-empty and holds no whitespace |
| `Text.IntToString` | graph_to_sat.py:38 | `str(x)` is one non-empty word without whitespace |
| `Text.ParseInt` | graph_to_sat.py:15 | a string `int()` accepts is one word; a string of decimal digits reads as its decimal value; a negative value comes only from a leading `-` |
| `Text.WordsOfJoin` | graph_to_sat.py:13 | `split()` of words joined by single spaces gives back those words |
| `Text.ParseIntOfIntToString` | graph_to_sat.py:15 | `int(str(x)) == x` for every integer x |
| `Graphs.EndpointsMembers` | graph_to_sat.py:16-18 | x is in the vertex set exactly when some edge starts or ends at x |
| `Graphs.AscendingUnique` | graph_to_sat.py:22 | two strictly ascending lists with the same elements are equal, so `sorted` of a set has one answer |
| `Graphs.SortVertices` | graph_to_sat.py:22 | the result is strictly ascending, holds exactly the set's elements, and is that unique listing |
| `GraphReader.ReadGraph` | graph_to_sat.py:1-22 | the loop's result is the edges declared before the first blank line in input order, or the first error, with the vertices strictly ascending and equal to the set of edge ends |
| `GraphReader.LineEffectMeaning` | graph_to_sat.py:11-15 | a line stops the reading exactly when it has no words, is ignored exactly when its first word is not `e`, adds the edge of its second and third words exactly when it has three words starting with `e` whose second and third are integers, and otherwise fails at the first bad endpoint, `parts[1]` before `parts[2]`: IndexError when it is missing, ValueError when it is not an integer (so `e x` raises ValueError) |
| `GraphReader.ScanFailureSource` | graph_to_sat.py:8-20 | a failed read carries the error of some line that raises, and no line before it stops the reading or raises |
| `GraphReader.ScanEdgesSource` | graph_to_sat.py:8-20 | after a successful read, every edge is the edge of some `e` line, and there are no more edges than lines |
| `GraphReader.ScanStopsAtBlank` | graph_to_sat.py:11-12 | nothing after a blank or whitespace-only line is read: the lines before it decide the result |
| `GraphReader.ScanIgnoresOtherLines` | graph_to_sat.py:13-14 | a line whose first word is not `e` can be removed from anywhere without changing the result |
| `GraphReader.EdgeLineAdds` | graph_to_sat.py:14-16 | the line `e <u> <v>`, with any further words, adds exactly the edge (u, v) |
| `GraphReader.ScanOfEdgeLines` | graph_to_sat.py:8-18 | reading the `e` lines of a list of edges and then a blank line gives back that list, order and repeats kept, whatever follows |
| `GraphReader.ReaderEstablishesEncoderInput` | graph_to_sat.py:16-22 | after a successful read the vertex list is strictly ascending and free of repeats, contains both ends of every edge, and contains nothing else |
| `CnfEncoder.LastIndexOf` | graph_to_sat.py:31-33 | the index found holds v and no later index does: the `var_map` entry that survives the overwrites |
| `CnfEncoder.Var` | graph_to_sat.py:30-34 | for a colour c in 1..k, variable x decodes back: (x − 1) div k is the index of v's surviving entry and (x − 1) mod k is c − 1 |
| `CnfEncoder.NumberVariables` | graph_to_sat.py:30-34 | the map is defined exactly on the listed vertices with colours 1..k; (v, c) maps to (last index of v)·k + c; the counter ends at #V·k + 1 |
| `CnfEncoder.FirstUnknown` | graph_to_sat.py:47-49 | there is no failing lookup exactly when every edge end is listed; a reported end is not listed |
| `CnfEncoder.Encode` | graph_to_sat.py:24-51 | the encoding fails exactly when k ≥ 1 and some edge end is not listed; the vertex it reports is not listed; a success counts #V·k variables, or 0 when k < 1 |
| `CnfEncoder.CoveragePass` | graph_to_sat.py:37-38 | the pass emits, for each vertex in list order, the clause of its variables for colours 1..k |
| `CnfEncoder.ExclusivityPass` | graph_to_sat.py:41-44 | the pass emits [−var(v,c1), −var(v,c2)] for each vertex, then c1 ascending, then c2 from c1+1 ascending |
| `CnfEncoder.AppendRow` | graph_to_sat.py:43-44 | the innermost loop appends [−var(v,c1), −var(v,c2)] for c2 = c1+1 … k in ascending order, after the clauses already there |
| `CnfEncoder.AdjacencyPass` | graph_to_sat.py:47-49 | the pass emits [−var(u,c), −var(v,c)] for each edge in order and each colour, or fails at the first end that is not listed (k ≥ 1) |
| `CnfEncoder.GenerateSat` | graph_to_sat.py:24-51 | the result is the three blocks in order with the variable count `var_count - 1`, or the KeyError of the first unlisted edge end |
| `EncoderFacts.VarOfDistinct` | graph_to_sat.py:30-34 | with distinct vertices, (vertices[i], c) gets variable i·k + c |
| `EncoderFacts.VarInRange` | graph_to_sat.py:30-34 | every variable of a listed vertex and colour 1..k lies in 1..#V·k |
| `EncoderFacts.VarInjective` | graph_to_sat.py:30-34 | different (vertex, colour) pairs get different variables, even with repeated vertices |
| `EncoderFacts.VarOnto` | graph_to_sat.py:30-34 | with distinct vertices and k ≥ 1, every number 1..#V·k is the variable of some pair |
| `EncoderFacts.ClauseCount` | graph_to_sat.py:36-51 | there are #V + #V·k(k−1)/2 + #E·k clauses over #V·k variables (0 colours when k < 1), and twice the exclusivity count is exactly #V·k(k−1), so the halving never rounds |
| `EncoderFacts.CoverageClauseAt` | graph_to_sat.py:37-38 | clause i is vertex i's coverage clause: k literals i·k+1, …, i·k+k in ascending colour order |
| `EncoderFacts.ExclusivityClauseAt` | graph_to_sat.py:41-44 | the clause for vertex i and colours c1 < c2 is [−(i·k+c1), −(i·k+c2)] at #V + i·k(k−1)/2 + (c1−1)(2k−c1)/2 + (c2−c1−1) |
| `EncoderFacts.AdjacencyClauseAt` | graph_to_sat.py:47-49 | for edge e, repeats included, and colour c, the clause [−var(u,c), −var(v,c)] sits at #V + #V·k(k−1)/2 + e·k + (c−1) |
| `EncoderFacts.LiteralBounds` | graph_to_sat.py:33-49 | every literal is non-zero and has absolute value at most the variable count: no lookup falls outside the map |
| `CnfSemantics.CoverageMeaning` | graph_to_sat.py:36-38 | the coverage block holds exactly when every vertex has a true colour variable |
| `CnfSemantics.ExclusivityMeaning` | graph_to_sat.py:40-44 | the exclusivity block holds exactly when no vertex has two true colour variables |
| `CnfSemantics.AdjacencyMeaning` | graph_to_sat.py:46-49 | the adjacency block holds exactly when no edge has the same colour true at both ends |
| `CnfSemantics.EncodingMeaning` | graph_to_sat.py:24-51 | an assignment satisfies the formula exactly when it gives every vertex one colour and the two ends of every edge different colours |
| `CnfSemantics.ColouringGivesModel` | graph_to_sat.py:24-51 | a proper colouring with colours 1..k yields a satisfying assignment |
| `CnfSemantics.ModelGivesColouring` | graph_to_sat.py:24-51 | a satisfying assignment yields a proper colouring with colours 1..k |
| `CnfSemantics.ModelIsColouring` | graph_to_sat.py:30-44 | in a satisfying assignment, (v, c) is true exactly when c is the colour read off for v |
| `CnfSemantics.ColourableIffSatisfiable` | graph_to_sat.py:24-25 | when every edge end is listed, the graph is k-colourable exactly when the formula is satisfiable |
| `Dimacs.WriteDimacs` | graph_to_sat.py:53-57 | the output is the header `p cnf <num_vars> <number of clauses>` and then one line per clause, in order |
| `Dimacs.DimacsLines` | graph_to_sat.py:53-57 | the text has one line more than there are clauses: the header first, then clause i on line i + 1 |
| `Dimacs.HeaderLine` | graph_to_sat.py:55 | the header line starts with `p cnf ` |
| `Dimacs.ParseHeaderOfHeader` | graph_to_sat.py:55 | the header reads back as the variable count and the clause count |
| `Dimacs.ClauseLine` | graph_to_sat.py:38-49 | every clause line ends with ` 0`, the DIMACS clause terminator |
| `Dimacs.WordsOfClauseLine` | graph_to_sat.py:38-49 | a clause line's words are the literals in stored order and then `0` |
| `Dimacs.DimacsRoundTrip` | graph_to_sat.py:53-57 | reading the written lines back gives the same clauses and variable count when no literal is 0 |
| `GraphToSat.ParseCount` | graph_to_sat.py:61 | the k line is read only when it is exactly one word, and then as that word's integer |
| `GraphToSat.ParseCountOfIntToString` | graph_to_sat.py:61 | the k line `str(k)` is read back as k |
| `GraphToSat.NonNumericCount` | graph_to_sat.py:61-66 | the k line `abc` is not an integer |
| `GraphToSat.Convert` | graph_to_sat.py:62-64 | a read error is passed on unchanged; otherwise encoding succeeds and the output is the DIMACS text of the encoding of the graph read |
| `GraphToSat.Run` | graph_to_sat.py:59-66 | a bad k line or a non-integer endpoint prints only the invalid-input message; an `e` line with too few words ends the program with IndexError; otherwise it prints the DIMACS text |
| `GraphToSat.OutputMeaning` | graph_to_sat.py:62-64 | for a graph that was read, the header counts #V·k variables and #V + #V·k(k−1)/2 + #E·k clauses, the text reads back as the formula, and the formula is satisfiable exactly when the graph is k-colourable |
| `GraphToSat.SingleEdgeInput` | graph_to_sat.py:1-22 | `e 1 2` followed by a blank line reads as vertices [1, 2] and edges [(1, 2)] |
| `GraphToSat.SingleEdgeTwoColours` | graph_to_sat.py:24-51 | that graph with k = 2 gives clauses 1 2, 3 4, −1 −2, −3 −4, −1 −3, −2 −4 over 4 variables |
| `GraphToSat.SingleEdgeTwoColoursText` | graph_to_sat.py:53-57 | their text is `p cnf 4 6` followed by the six clause lines |
| `GraphToSat.EmptyGraph` | graph_to_sat.py:24-51 | no vertices and no edges give no clauses and 0 variables, for any k |
| `GraphToSat.EmptyGraphText` | graph_to_sat.py:53-57 | that text is the header `p cnf 0 0` alone |

## Left out

- Console I/O:
  - the prompts on lines 6 and 61 are not part of the output;
  - `input()` is replaced by the given lines;
  - `print` is replaced by the returned lines.
- `EOFError` on line 19: running out of the given lines ends reading in the
  same way.
- `EOFError` on line 61: `GraphToSat.Run` always receives a k line. So the
  crash when the input ends before k is read is not modelled. `except
  ValueError` does not catch it.
- Traceback text: an uncaught IndexError is modelled as the outcome `Crashed`.
  The text Python prints for it is not modelled.
- `Text.ParseInt`: this does not model parts of `int()`.
  - It does not accept underscores between digits (`1_0`).
  - It does not accept non-ASCII decimal digits.
  - It does not model Python's limit of 4300 digits on integer text
    conversion.
  - On underscore or non-ASCII tokens the model reports `NotAnInteger` where
    Python accepts the token.
  - On a token of more than 4300 digits the model accepts the integer, as an
    endpoint of an `Add` edge or as k. Python raises ValueError there, and the
    program prints the invalid-input message.
- `Graphs.SortVertices` shows that the result is `sorted(vertices)`. It does
  not follow Python's sorting algorithm.
- The text of clause lines is built by `Dimacs.ClauseLine` after encoding,
  not inside the passes. Both give the same lines (see above).
- Memory, running time and the size of Python's integers are not modelled.
