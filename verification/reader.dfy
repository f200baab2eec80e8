/**
 The graph reader: `read_graph` over a given sequence of input lines (the
 console and its prompt are replaced by the lines themselves). Reading stops
 at the first blank line or when the lines run out; a line whose first word
 is `e` adds the edge between the integers in its next two words.
 */
module GraphReader {
  import opened Wrappers
  import opened Text
  import opened Graphs

  /** Why reading fails: Python raises IndexError for an `e` line with too few
      words, and ValueError for an endpoint that is not an integer. */
  datatype ReadError =
    | MissingEndpoint(line: string)
    | NotAnInteger(token: string)

  /** What one line does to the reading. */
  datatype LineEffect = Stop | Ignore | Add(edge: Edge) | Raise(error: ReadError)

  /** The effect of one line, checked in the order the source evaluates it:
      blank first, then the `e` tag, then `int(parts[1])`, then `parts[2]`. */
  function LineEffectOf(line: string): LineEffect {
    if IsBlank(line) then Stop
    else
      var parts := Words(line);
      if |parts| > 0 && parts[0] == "e" then
        if |parts| < 2 then Raise(MissingEndpoint(line))
        else match ParseInt(parts[1])
          case None => Raise(NotAnInteger(parts[1]))
          case Some(u) =>
            if |parts| < 3 then Raise(MissingEndpoint(line))
            else match ParseInt(parts[2])
              case None => Raise(NotAnInteger(parts[2]))
              case Some(v) => Add(Edge(u, v))
      else Ignore
  }

  /** The edges the lines declare before the first blank line, or the first error. */
  function ScanEdges(lines: seq<string>): Result<seq<Edge>, ReadError>
    decreases |lines|
  {
    if lines == [] then Success([])
    else match LineEffectOf(lines[0])
      case Stop => Success([])
      case Ignore => ScanEdges(lines[1..])
      case Raise(err) => Failure(err)
      case Add(e) =>
        match ScanEdges(lines[1..])
        case Success(rest) => Success([e] + rest)
        case Failure(err) => Failure(err)
  }

  /** `read_graph()` as a value: the sorted vertex set and the edges, or the error. */
  ghost function ReadGraphSpec(lines: seq<string>): Result<Graph, ReadError> {
    match ScanEdges(lines)
    case Success(es) => Success(Graph(SortedOf(Endpoints(es)), es))
    case Failure(err) => Failure(err)
  }

  /** Edges already collected, followed by whatever the remaining lines give. */
  function Prepend(es: seq<Edge>, r: Result<seq<Edge>, ReadError>): Result<seq<Edge>, ReadError> {
    match r
    case Success(rest) => Success(es + rest)
    case Failure(err) => Failure(err)
  }

  /** `read_graph()`: reads lines until a blank one or the end of the input,
      collecting the edges in order and their ends in a set, then sorts the set. */
  method ReadGraph(lines: seq<string>) returns (r: Result<Graph, ReadError>)
    ensures r == ReadGraphSpec(lines)
    ensures r.Success? ==> StrictlyAscending(r.value.vertices)
    ensures r.Success? ==> Elements(r.value.vertices) == Endpoints(r.value.edges)
  {
    var vertices: set<int> := {};
    var edges: seq<Edge> := [];
    var i := 0;
    assert lines[0..] == lines;
    PrependNothing(ScanEdges(lines));
    while i < |lines|
      invariant 0 <= i <= |lines|
      invariant vertices == Endpoints(edges)
      invariant ScanEdges(lines) == Prepend(edges, ScanEdges(lines[i..]))
    {
      var line := lines[i];
      assert lines[i..][0] == line && lines[i..][1..] == lines[i + 1..];
      if IsBlank(line) {
        break;
      }
      var parts := Words(line);
      if |parts| > 0 && parts[0] == "e" {
        if |parts| < 2 {
          return Failure(MissingEndpoint(line));
        }
        var u := ParseInt(parts[1]);
        if u.None? {
          return Failure(NotAnInteger(parts[1]));
        }
        if |parts| < 3 {
          return Failure(MissingEndpoint(line));
        }
        var v := ParseInt(parts[2]);
        if v.None? {
          return Failure(NotAnInteger(parts[2]));
        }
        var e := Edge(u.value, v.value);
        PrependAssoc(edges, e, ScanEdges(lines[i + 1..]));
        edges := edges + [e];
        vertices := vertices + {e.u, e.v};
      }
      i := i + 1;
    }
    assert ScanEdges(lines[i..]) == Success([]);
    assert edges + [] == edges;
    var sorted := SortVertices(vertices);
    r := Success(Graph(sorted, edges));
  }

  lemma PrependNothing(r: Result<seq<Edge>, ReadError>)
    ensures Prepend([], r) == r
  {
    if r.Success? {
      assert [] + r.value == r.value;
    }
  }

  lemma PrependAssoc(es: seq<Edge>, e: Edge, r: Result<seq<Edge>, ReadError>)
    ensures Prepend(es, Prepend([e], r)) == Prepend(es + [e], r)
  {
    if r.Success? {
      assert es + ([e] + r.value) == (es + [e]) + r.value;
    }
  }

  // ---------------------------------------------------------------- properties

  /** What each effect says about the line: it stops exactly at a blank line, is ignored exactly
      when the first word is not `e`, adds the edge of its second and third words, and otherwise
      fails on the first endpoint that is missing or not an integer. */
  lemma LineEffectMeaning(line: string)
    ensures LineEffectOf(line) == Stop <==> Words(line) == []
    ensures LineEffectOf(line) == Ignore <==> Words(line) != [] && Words(line)[0] != "e"
    ensures LineEffectOf(line).Add? <==>
      && |Words(line)| >= 3 && Words(line)[0] == "e"
      && ParseInt(Words(line)[1]).Some? && ParseInt(Words(line)[2]).Some?
    ensures LineEffectOf(line).Add? ==>
      LineEffectOf(line).edge == Edge(ParseInt(Words(line)[1]).value, ParseInt(Words(line)[2]).value)
    ensures LineEffectOf(line).Raise? && LineEffectOf(line).error.MissingEndpoint? ==>
      LineEffectOf(line).error.line == line && Words(line)[0] == "e" && |Words(line)| < 3
    ensures LineEffectOf(line).Raise? && LineEffectOf(line).error.NotAnInteger? ==>
      var t := LineEffectOf(line).error.token;
      ParseInt(t).None? && Words(line)[0] == "e" && (t == Words(line)[1] || t == Words(line)[2])
    ensures LineEffectOf(line).Raise? && LineEffectOf(line).error.MissingEndpoint? ==>
      |Words(line)| == 1 || (|Words(line)| == 2 && ParseInt(Words(line)[1]).Some?)
    ensures LineEffectOf(line).Raise? && LineEffectOf(line).error.NotAnInteger? ==>
      LineEffectOf(line).error.token == (if ParseInt(Words(line)[1]).None? then Words(line)[1] else Words(line)[2])
  {
    BlankIffNoWords(line);
  }

  /** No line before index i stops the reading or raises. */
  predicate ReadsOnUpTo(lines: seq<string>, i: int)
    requires i <= |lines|
  {
    forall j | 0 <= j < i :: LineEffectOf(lines[j]).Ignore? || LineEffectOf(lines[j]).Add?
  }

  lemma ReadsOnShift(lines: seq<string>, i: int)
    requires 0 <= i < |lines| && (LineEffectOf(lines[0]).Ignore? || LineEffectOf(lines[0]).Add?)
    requires ReadsOnUpTo(lines[1..], i)
    ensures ReadsOnUpTo(lines, i + 1)
  {
    forall j | 0 <= j < i + 1 ensures LineEffectOf(lines[j]).Ignore? || LineEffectOf(lines[j]).Add? {
      if j > 0 { assert lines[j] == lines[1..][j - 1]; }
    }
  }

  /** A failure comes from the first raising line, and no line before it stops the reading. */
  lemma {:induction false} ScanFailureSource(lines: seq<string>)
    requires ScanEdges(lines).Failure?
    ensures exists i | 0 <= i < |lines| :: LineEffectOf(lines[i]) == Raise(ScanEdges(lines).error) && ReadsOnUpTo(lines, i)
    decreases |lines|
  {
    var fx := LineEffectOf(lines[0]);
    if fx.Raise? {
      assert LineEffectOf(lines[0]) == Raise(ScanEdges(lines).error) && ReadsOnUpTo(lines, 0);
    } else {
      var tail := lines[1..];
      assert ScanEdges(tail).Failure? && ScanEdges(tail).error == ScanEdges(lines).error;
      ScanFailureSource(tail);
      var i :| 0 <= i < |tail| && LineEffectOf(tail[i]) == Raise(ScanEdges(tail).error) && ReadsOnUpTo(tail, i);
      assert lines[i + 1] == tail[i];
      ReadsOnShift(lines, i);
    }
  }

  /** The effect of each line, in order. */
  function Effects(lines: seq<string>): (fx: seq<LineEffect>)
    ensures |fx| == |lines|
  {
    seq(|lines|, i requires 0 <= i < |lines| => LineEffectOf(lines[i]))
  }

  /** Each of es is the edge some effect adds. */
  predicate AddedBy(fx: seq<LineEffect>, es: seq<Edge>) {
    forall n | 0 <= n < |es| :: Add(es[n]) in fx
  }

  lemma AddedByShift(fx: seq<LineEffect>, es: seq<Edge>)
    requires fx != [] && AddedBy(fx[1..], es)
    ensures AddedBy(fx, es)
  {
    assert fx == [fx[0]] + fx[1..];
  }

  lemma AddedByCons(fx: seq<LineEffect>, e: Edge, es: seq<Edge>)
    requires fx != [] && fx[0] == Add(e) && AddedBy(fx, es)
    ensures AddedBy(fx, [e] + es)
  {
    forall n | 0 <= n < |[e] + es| ensures Add(([e] + es)[n]) in fx {
      if n > 0 {
        assert ([e] + es)[n] == es[n - 1];
      }
    }
  }

  /** Every edge read is the edge some line adds, and there are no more edges than lines. */
  lemma {:induction false} ScanEdgesSource(lines: seq<string>)
    requires ScanEdges(lines).Success?
    ensures |ScanEdges(lines).value| <= |lines|
    ensures AddedBy(Effects(lines), ScanEdges(lines).value)
    decreases |lines|
  {
    if lines != [] && (LineEffectOf(lines[0]).Ignore? || LineEffectOf(lines[0]).Add?) {
      var tail := lines[1..];
      var fx := LineEffectOf(lines[0]);
      assert ScanEdges(tail).Success?;
      var rest := ScanEdges(tail).value;
      ScanEdgesSource(tail);
      assert Effects(lines)[1..] == Effects(tail);
      AddedByShift(Effects(lines), rest);
      if fx.Add? {
        assert ScanEdges(lines).value == [fx.edge] + rest;
        AddedByCons(Effects(lines), fx.edge, rest);
      }
    }
  }

  /** Nothing after the first blank line is read: the lines up to a blank one decide the result. */
  lemma {:induction false} ScanStopsAtBlank(lines: seq<string>, i: nat)
    requires i < |lines| && IsBlank(lines[i])
    ensures ScanEdges(lines) == ScanEdges(lines[..i])
    decreases i
  {
    if i > 0 {
      assert lines[..i][0] == lines[0] && lines[..i][1..] == lines[1..][..i - 1];
      ScanStopsAtBlank(lines[1..], i - 1);
    }
  }

  /** A line with words, the first of them not `e`, can be dropped anywhere without changing the result. */
  lemma {:induction false} ScanIgnoresOtherLines(pre: seq<string>, line: string, post: seq<string>)
    requires Words(line) != [] && Words(line)[0] != "e"
    ensures ScanEdges(pre + [line] + post) == ScanEdges(pre + post)
    decreases |pre|
  {
    BlankIffNoWords(line);
    if pre == [] {
      assert pre + [line] + post == [line] + post && ([line] + post)[1..] == post;
      assert pre + post == post;
    } else {
      assert (pre + [line] + post)[0] == pre[0] && (pre + [line] + post)[1..] == pre[1..] + [line] + post;
      assert (pre + post)[0] == pre[0] && (pre + post)[1..] == pre[1..] + post;
      ScanIgnoresOtherLines(pre[1..], line, post);
    }
  }

  /** The line `e <u> <v>`, with any further words after the two ends. */
  function EdgeLine(e: Edge, extra: seq<string>): string {
    Join(["e", IntToString(e.u), IntToString(e.v)] + extra)
  }

  /** An `e` line adds the edge between its two integer words; words after them are ignored. */
  lemma EdgeLineAdds(e: Edge, extra: seq<string>)
    requires forall i | 0 <= i < |extra| :: IsToken(extra[i])
    ensures LineEffectOf(EdgeLine(e, extra)) == Add(e)
  {
    var ts := ["e", IntToString(e.u), IntToString(e.v)] + extra;
    assert forall i | 0 <= i < |ts| :: IsToken(ts[i]) by {
      forall i | 0 <= i < |ts| ensures IsToken(ts[i]) {
        if i >= 3 { assert ts[i] == extra[i - 3]; }
      }
    }
    WordsOfJoin(ts);
    BlankIffNoWords(EdgeLine(e, extra));
    ParseIntOfIntToString(e.u);
    ParseIntOfIntToString(e.v);
  }

  /** The plain `e u v` line of each edge, in order. */
  function EdgeLines(es: seq<Edge>): (lines: seq<string>)
    ensures |lines| == |es|
  {
    seq(|es|, i requires 0 <= i < |es| => EdgeLine(es[i], []))
  }

  /** Reading the lines of a list of edges, then a blank line, gives back that list: order and
      duplicates are kept, and whatever follows the blank line is not read. */
  lemma {:induction false} ScanOfEdgeLines(es: seq<Edge>, blank: string, rest: seq<string>)
    requires IsBlank(blank)
    ensures ScanEdges(EdgeLines(es) + [blank] + rest) == Success(es)
    decreases |es|
  {
    if es == [] {
      assert EdgeLines(es) + [blank] + rest == [blank] + rest;
      assert ([blank] + rest)[0] == blank;
    } else {
      EdgeLinesCons(es, blank, rest);
      ScanOfEdgeLines(es[1..], blank, rest);
      ScanAddsLine(es[0], EdgeLines(es[1..]) + [blank] + rest);
      assert [es[0]] + es[1..] == es;
    }
  }

  lemma EdgeLinesCons(es: seq<Edge>, blank: string, rest: seq<string>)
    requires es != []
    ensures EdgeLines(es) + [blank] + rest == [EdgeLine(es[0], [])] + (EdgeLines(es[1..]) + [blank] + rest)
  {
    assert EdgeLines(es) == [EdgeLine(es[0], [])] + EdgeLines(es[1..]);
  }

  /** An `e u v` line in front of other lines puts its edge in front of what they give. */
  lemma ScanAddsLine(e: Edge, tail: seq<string>)
    ensures ScanEdges([EdgeLine(e, [])] + tail) == Prepend([e], ScanEdges(tail))
  {
    EdgeLineAdds(e, []);
    assert ([EdgeLine(e, [])] + tail)[1..] == tail;
  }

  /** A successful read hands the encoder what it needs: the vertex list is strictly ascending, so
      free of duplicates, and holds both ends of every edge and nothing else. */
  lemma ReaderEstablishesEncoderInput(lines: seq<string>)
    requires ReadGraphSpec(lines).Success?
    ensures var g := ReadGraphSpec(lines).value;
      && StrictlyAscending(g.vertices)
      && Distinct(g.vertices)
      && WellFormed(g.vertices, g.edges)
      && (forall x | x in g.vertices :: exists i | 0 <= i < |g.edges| :: g.edges[i].u == x || g.edges[i].v == x)
  {
    var g := ReadGraphSpec(lines).value;
    StrictlyAscendingIsDistinct(g.vertices);
    forall i | 0 <= i < |g.edges| ensures EdgeIn(g.vertices, g.edges[i]) {
      EndpointsMembers(g.edges, g.edges[i].u);
      EndpointsMembers(g.edges, g.edges[i].v);
    }
    forall x | x in g.vertices ensures exists i | 0 <= i < |g.edges| :: g.edges[i].u == x || g.edges[i].v == x {
      EndpointsMembers(g.edges, x);
    }
  }
}
