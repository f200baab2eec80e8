/**
 DIMACS CNF text, `write_dimacs(clauses, num_vars)`: the header line
 `p cnf <num_vars> <number of clauses>`, then one line per clause, its
 literals separated by single spaces and closed by ` 0`. The console is
 replaced by the returned lines. A reader for the same format shows that
 the text loses nothing.
 */
module Dimacs {
  import opened Wrappers
  import opened Text
  import opened CnfEncoder

  /** `str(l)` for each literal. The source's `f"-{a}"` is `str(-a)` because a >= 1. */
  function Tokens(cl: Clause): (ts: seq<string>)
    ensures |ts| == |cl|
    ensures forall j | 0 <= j < |ts| :: IsToken(ts[j])
  {
    seq(|cl|, j requires 0 <= j < |cl| => IntToString(cl[j]))
  }

  /** A clause line: `" ".join(str(l) for l in clause) + " 0"`; for an empty clause, `" 0"`. */
  function ClauseLine(cl: Clause): (line: string)
    ensures |line| >= 2 && line[|line| - 2..] == " 0"
  {
    Join(Tokens(cl)) + " 0"
  }

  /** The header `p cnf <num_vars> <number of clauses>`. */
  function HeaderLine(numVars: int, numClauses: nat): (line: string)
    ensures |line| > 6 && line[..6] == "p cnf "
  {
    "p cnf " + IntToString(numVars) + " " + IntToString(numClauses)
  }

  /** One line per clause, in order. */
  function ClauseLines(cls: seq<Clause>): (lines: seq<string>)
    ensures |lines| == |cls|
  {
    seq(|cls|, i requires 0 <= i < |cls| => ClauseLine(cls[i]))
  }

  /** Everything `write_dimacs` prints, line by line. */
  function DimacsLines(cnf: Cnf): (lines: seq<string>)
    ensures |lines| == |cnf.clauses| + 1
    ensures lines[0] == HeaderLine(cnf.numVars, |cnf.clauses|)
    ensures forall i | 0 <= i < |cnf.clauses| :: lines[i + 1] == ClauseLine(cnf.clauses[i])
  {
    [HeaderLine(cnf.numVars, |cnf.clauses|)] + ClauseLines(cnf.clauses)
  }

  /** `write_dimacs(clauses, num_vars)`: the header, then the clauses in order. */
  method WriteDimacs(clauses: seq<Clause>, numVars: int) returns (lines: seq<string>)
    ensures lines == DimacsLines(Cnf(clauses, numVars))
  {
    lines := [HeaderLine(numVars, |clauses|)];
    for i := 0 to |clauses|
      invariant lines == [HeaderLine(numVars, |clauses|)] + ClauseLines(clauses[..i])
    {
      ClauseLinesSnoc(clauses[..i + 1]);
      assert clauses[..i + 1][..i] == clauses[..i];
      lines := lines + [ClauseLine(clauses[i])];
    }
    assert clauses[..|clauses|] == clauses;
  }

  /** One more clause adds its line at the end. */
  lemma ClauseLinesSnoc(cls: seq<Clause>)
    requires cls != []
    ensures ClauseLines(cls) == ClauseLines(cls[..|cls| - 1]) + [ClauseLine(cls[|cls| - 1])]
  {
  }

  // ---------------------------------------------------------------- reading it back

  /** Non-zero integers, one per word; zero would end a clause, so it is refused. */
  function ParseLiterals(ws: seq<string>): (r: Option<Clause>)
    ensures r.Some? ==> |r.value| == |ws| && forall j | 0 <= j < |ws| :: r.value[j] != 0
  {
    if ws == [] then Some([])
    else match ParseInt(ws[0])
      case None => None
      case Some(x) =>
        if x == 0 then None
        else match ParseLiterals(ws[1..])
          case None => None
          case Some(rest) => Some([x] + rest)
  }

  /** A clause line: its words are literals followed by a closing `0`. */
  function ParseClauseLine(line: string): Option<Clause> {
    var ws := Words(line);
    if ws == [] || ws[|ws| - 1] != "0" then None else ParseLiterals(ws[..|ws| - 1])
  }

  function ParseClauses(lines: seq<string>): (r: Option<seq<Clause>>)
    ensures r.Some? ==> |r.value| == |lines|
  {
    if lines == [] then Some([])
    else match ParseClauseLine(lines[0])
      case None => None
      case Some(cl) =>
        match ParseClauses(lines[1..])
        case None => None
        case Some(rest) => Some([cl] + rest)
  }

  /** The header `p cnf <variables> <clauses>`. */
  function ParseHeader(line: string): Option<(int, int)> {
    var ws := Words(line);
    if |ws| != 4 || ws[0] != "p" || ws[1] != "cnf" then None
    else match (ParseInt(ws[2]), ParseInt(ws[3]))
      case (Some(nv), Some(nc)) => Some((nv, nc))
      case _ => None
  }

  /** A DIMACS text whose header counts its clause lines. */
  function ParseDimacs(lines: seq<string>): (r: Option<Cnf>)
    ensures r.Some? ==> |r.value.clauses| == |lines| - 1
  {
    if lines == [] then None
    else match ParseHeader(lines[0])
      case None => None
      case Some((nv, nc)) =>
        if nc != |lines| - 1 then None
        else match ParseClauses(lines[1..])
          case None => None
          case Some(cls) => Some(Cnf(cls, nv))
  }

  /** No clause holds a zero literal. */
  predicate NoZeroLiteral(cls: seq<Clause>) {
    forall i, j | 0 <= i < |cls| && 0 <= j < |cls[i]| :: cls[i][j] != 0
  }

  lemma {:induction false} ParseLiteralsOfTokens(cl: Clause)
    requires forall j | 0 <= j < |cl| :: cl[j] != 0
    ensures ParseLiterals(Tokens(cl)) == Some(cl)
    decreases |cl|
  {
    if cl != [] {
      ParseIntOfIntToString(cl[0]);
      assert Tokens(cl)[1..] == Tokens(cl[1..]);
      ParseLiteralsOfTokens(cl[1..]);
      assert [cl[0]] + cl[1..] == cl;
    }
  }

  /** The words of a clause line are the literals and then `0`. */
  lemma WordsOfClauseLine(cl: Clause)
    ensures Words(ClauseLine(cl)) == Tokens(cl) + ["0"]
  {
    var ts := Tokens(cl);
    if ts == [] {
      assert ClauseLine(cl) == " 0";
      assert " 0"[1..] == "0" && "0"[..1] == "0" && "0"[1..] == [];
      assert TokenLength("0") == 1;
      assert Words("0") == ["0"];
      assert ts + ["0"] == ["0"];
    } else {
      JoinSnoc(ts, "0");
      assert Join(ts) + " " + "0" == Join(ts) + " 0";
      assert forall j | 0 <= j < |ts + ["0"]| :: IsToken((ts + ["0"])[j]);
      WordsOfJoin(ts + ["0"]);
    }
  }

  lemma ParseClauseLineOfClause(cl: Clause)
    requires forall j | 0 <= j < |cl| :: cl[j] != 0
    ensures ParseClauseLine(ClauseLine(cl)) == Some(cl)
  {
    WordsOfClauseLine(cl);
    var ws := Tokens(cl) + ["0"];
    assert ws[..|ws| - 1] == Tokens(cl);
    ParseLiteralsOfTokens(cl);
  }

  /** Dropping the first clause drops the first clause line. */
  lemma ClauseLinesTail(cls: seq<Clause>)
    requires cls != []
    ensures ClauseLines(cls)[1..] == ClauseLines(cls[1..])
  {
    var lines, tail := ClauseLines(cls), cls[1..];
    forall i | 0 <= i < |tail| ensures lines[1..][i] == ClauseLine(tail[i]) {
      assert tail[i] == cls[i + 1];
    }
  }

  lemma NoZeroLiteralTail(cls: seq<Clause>)
    requires cls != [] && NoZeroLiteral(cls)
    ensures NoZeroLiteral(cls[1..]) && forall j | 0 <= j < |cls[0]| :: cls[0][j] != 0
  {
    var tail := cls[1..];
    forall i, j | 0 <= i < |tail| && 0 <= j < |tail[i]| ensures tail[i][j] != 0 {
      assert tail[i] == cls[i + 1];
    }
  }

  lemma {:induction false} ParseClausesOfLines(cls: seq<Clause>)
    requires NoZeroLiteral(cls)
    ensures ParseClauses(ClauseLines(cls)) == Some(cls)
    decreases |cls|
  {
    if cls != [] {
      var lines := ClauseLines(cls);
      NoZeroLiteralTail(cls);
      ParseClauseLineOfClause(cls[0]);
      ClauseLinesTail(cls);
      ParseClausesOfLines(cls[1..]);
      assert lines[0] == ClauseLine(cls[0]);
      assert [cls[0]] + cls[1..] == cls;
    }
  }

  /** The header's four words, joined by single spaces. */
  lemma JoinHeader(a: string, b: string)
    ensures Join(["p", "cnf", a, b]) == "p cnf " + a + " " + b
  {
    var ts := ["p", "cnf", a, b];
    assert ts[1..] == ["cnf", a, b] && ts[1..][1..] == [a, b] && ts[1..][1..][1..] == [b];
    assert Join([a, b]) == a + " " + b;
    assert Join(ts) == "p" + " " + ("cnf" + " " + (a + " " + b));
  }

  lemma ParseHeaderOfHeader(numVars: int, numClauses: nat)
    ensures ParseHeader(HeaderLine(numVars, numClauses)) == Some((numVars, numClauses))
  {
    var a, b := IntToString(numVars), IntToString(numClauses);
    var ts := ["p", "cnf", a, b];
    JoinHeader(a, b);
    WordsOfJoin(ts);
    ParseIntOfIntToString(numVars);
    ParseIntOfIntToString(numClauses);
  }

  /** Reading back what `write_dimacs` prints gives the clauses and the variable count. */
  lemma DimacsRoundTrip(cnf: Cnf)
    requires NoZeroLiteral(cnf.clauses)
    ensures ParseDimacs(DimacsLines(cnf)) == Some(cnf)
  {
    var lines := DimacsLines(cnf);
    assert lines[0] == HeaderLine(cnf.numVars, |cnf.clauses|);
    ParseHeaderOfHeader(cnf.numVars, |cnf.clauses|);
    ParseClausesOfLines(cnf.clauses);
    assert lines[1..] == ClauseLines(cnf.clauses);
  }
}
