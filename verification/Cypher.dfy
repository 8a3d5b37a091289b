// The Cypher exporter, and a reader of its scripts: crates/habitat-graph-export/src/cypher.rs.

module Cypher {
  import opened Ids
  import opened Lists
  import opened Schema
  import opened Escape
  import opened Decimal

  function ConfidenceName(c: Confidence): string {
    match c
    case Extracted => "EXTRACTED"
    case Inferred => "INFERRED"
    case Ambiguous => "AMBIGUOUS"
  }

  // The fixed text of the script.
  const HEADER_1 := "// habitat-graph cypher export \U{2014} "
  const HEADER_2 := " nodes, "
  const HEADER_3 := " edges"
  const NODE_1 := "MERGE (n"
  const NODE_2 := ":Symbol {id: "
  const NODE_3 := ", label: '"
  const NODE_4 := "', source_file: '"
  const NODE_5 := "', line: "
  const NODE_6 := "});"
  const EDGE_1 := "MATCH (a {id: "
  const EDGE_2 := "}),(b {id: "
  const EDGE_3 := "}) MERGE (a)-[:REL {relation: '"
  const EDGE_4 := "', confidence: '"
  const EDGE_5 := "'}]->(b);"

  function HeaderLine(nodes: nat, edges: nat): string {
    HEADER_1 + Numeral(nodes) + HEADER_2 + Numeral(edges) + HEADER_3 + ['\n']
  }

  function NodeLine(n: Node): string {
    NODE_1 + Numeral(n.id) + NODE_2 + Numeral(n.id) + NODE_3 + CypherEscaped(n.name)
    + NODE_4 + CypherEscaped(n.sourceFile) + NODE_5 + Numeral(n.sourceLocation.startLine) + NODE_6 + ['\n']
  }

  function EdgeLine(e: Edge): string {
    EDGE_1 + Numeral(e.source) + EDGE_2 + Numeral(e.target) + EDGE_3 + CypherEscaped(e.relation)
    + EDGE_4 + CypherEscaped(ConfidenceName(e.confidence)) + EDGE_5 + ['\n']
  }

  function Rendered(g: Graph): string {
    HeaderLine(|g.nodes|, |g.edges|) + FlatMap(NodeLine, g.nodes) + FlatMap(EdgeLine, g.edges)
  }

  method WriteNode(n: Node) returns (line: string)
    ensures line == NodeLine(n)
  {
    var name := CypherEscape(n.name);
    var file := CypherEscape(n.sourceFile);
    line := NODE_1 + Numeral(n.id) + NODE_2 + Numeral(n.id) + NODE_3 + name
            + NODE_4 + file + NODE_5 + Numeral(n.sourceLocation.startLine) + NODE_6 + ['\n'];
  }

  method WriteEdge(e: Edge) returns (line: string)
    ensures line == EdgeLine(e)
  {
    var relation := CypherEscape(e.relation);
    var confidence := CypherEscape(ConfidenceName(e.confidence));
    line := EDGE_1 + Numeral(e.source) + EDGE_2 + Numeral(e.target) + EDGE_3 + relation
            + EDGE_4 + confidence + EDGE_5 + ['\n'];
  }

  method WriteNodes(header: string, nodes: seq<Node>) returns (out: string)
    ensures out == header + FlatMap(NodeLine, nodes)
  {
    out := header;
    for i := 0 to |nodes|
      invariant out == header + FlatMap(NodeLine, nodes[..i])
    {
      var line := WriteNode(nodes[i]);
      FlatMapStep(NodeLine, nodes, i);
      AppendAssoc(header, FlatMap(NodeLine, nodes[..i]), line);
      out := out + line;
    }
    assert nodes[..|nodes|] == nodes;
  }

  method WriteEdges(before: string, edges: seq<Edge>) returns (out: string)
    ensures out == before + FlatMap(EdgeLine, edges)
  {
    out := before;
    for i := 0 to |edges|
      invariant out == before + FlatMap(EdgeLine, edges[..i])
    {
      var line := WriteEdge(edges[i]);
      FlatMapStep(EdgeLine, edges, i);
      AppendAssoc(before, FlatMap(EdgeLine, edges[..i]), line);
      out := out + line;
    }
    assert edges[..|edges|] == edges;
  }

  method RenderCypher(g: Graph) returns (out: string)
    ensures out == Rendered(g)
  {
    out := HeaderLine(|g.nodes|, |g.edges|);
    out := WriteNodes(out, g.nodes);
    out := WriteEdges(out, g.edges);
  }

  lemma FlatMapStep<A>(f: A -> string, xs: seq<A>, i: nat)
    requires i < |xs|
    ensures FlatMap(f, xs[..i + 1]) == FlatMap(f, xs[..i]) + f(xs[i])
  {
    assert Init(xs[..i + 1]) == xs[..i];
  }

  // ---------------------------------------------------------------- reading a script
  //
  // The reader spells the fixed text of a script itself and shares nothing with the printer.

  /** A parser's result: what was read and what is left to read. */
  datatype Read<T> = Bad | Good(value: T, rest: string) {
    predicate IsFailure() { Bad? }
    function PropagateFailure<U>(): Read<U>
      requires Bad?
    {
      Bad
    }
    function Extract(): (T, string)
      requires Good?
    {
      (value, rest)
    }
  }

  function Skip(text: string, s: string): Read<()> {
    if text <= s then Good((), s[|text|..]) else Bad
  }

  function ReadNumber(s: string): Read<nat> {
    if s == [] || !IsDigit(s[0]) then Bad
    else
      var (n, rest) := ReadDigits(s, 0);
      Good(n, rest)
  }

  function ReadText(s: string): Read<string> {
    match ReadLiteral(s)
    case Unterminated => Bad
    case Literal(text, rest) => Good(text, rest)
  }

  function ReadConfidence(s: string): Read<Confidence> {
    var (name, rest) :- ReadText(s);
    if name == "EXTRACTED" then Good(Extracted, rest)
    else if name == "INFERRED" then Good(Inferred, rest)
    else if name == "AMBIGUOUS" then Good(Ambiguous, rest)
    else Bad
  }

  datatype Statement =
    | NodeStatement(id: nat, name: string, file: string, line: nat)
    | EdgeStatement(source: nat, target: nat, relation: string, confidence: Confidence)

  predicate IsWordChar(c: char) {
    'a' <= c <= 'z' || 'A' <= c <= 'Z' || '0' <= c <= '9' || c == '_'
  }

  function WordLength(s: string): (n: nat)
    ensures n <= |s|
  {
    if s == [] || !IsWordChar(s[0]) then 0 else 1 + WordLength(s[1..])
  }

  /** The name of a variable. */
  function ReadWord(s: string): Read<string> {
    var n := WordLength(s);
    if n == 0 then Bad else Good(s[..n], s[n..])
  }

  /** `MERGE (n7:Symbol {id: 7, label: '...', source_file: '...', line: 3});` */
  function ReadNode(s: string): Read<Statement> {
    var (_, s) :- Skip("MERGE (n", s);
    var (id, s) :- ReadNumber(s);
    var (_, s) :- Skip(":Symbol {id: ", s);
    var (again, s) :- ReadNumber(s);
    var (_, s) :- Skip(", label: '", s);
    var (name, s) :- ReadText(s);
    var (_, s) :- Skip(", source_file: '", s);
    var (file, s) :- ReadText(s);
    var (_, s) :- Skip(", line: ", s);
    var (line, s) :- ReadNumber(s);
    var (_, s) :- Skip("});", s);
    var (_, s) :- Skip(['\n'], s);
    if id == again then Good(NodeStatement(id, name, file, line), s) else Bad
  }

  /** Two variables and the ids they were matched with. */
  datatype Match = Match(x: string, xId: nat, y: string, yId: nat)

  predicate Bound(m: Match, name: string) {
    m.x != m.y && (name == m.x || name == m.y)
  }

  function IdOfVariable(m: Match, name: string): nat {
    if name == m.x then m.xId else m.yId
  }

  /** `MATCH (x {id: 1}),(y {id: 2})`, for any two variables `x` and `y`. */
  function ReadMatch(s: string): Read<Match> {
    var (_, s) :- Skip("MATCH (", s);
    var (x, s) :- ReadWord(s);
    var (_, s) :- Skip(" {id: ", s);
    var (xId, s) :- ReadNumber(s);
    var (_, s) :- Skip("}),(", s);
    var (y, s) :- ReadWord(s);
    var (_, s) :- Skip(" {id: ", s);
    var (yId, s) :- ReadNumber(s);
    var (_, s) :- Skip("})", s);
    Good(Match(x, xId, y, yId), s)
  }

  /** ` MERGE (x)-[:REL {relation: '...', confidence: '...'}]->(y);`, whose variables stand for
      the ids they were matched with. */
  function ReadMerge(m: Match, s: string): Read<Statement> {
    var (_, s) :- Skip(" MERGE (", s);
    var (from, s) :- ReadWord(s);
    var (_, s) :- Skip(")-[:REL {relation: '", s);
    var (relation, s) :- ReadText(s);
    var (_, s) :- Skip(", confidence: '", s);
    var (confidence, s) :- ReadConfidence(s);
    var (_, s) :- Skip("}]->(", s);
    var (to, s) :- ReadWord(s);
    var (_, s) :- Skip(");", s);
    var (_, s) :- Skip(['\n'], s);
    if Bound(m, from) && Bound(m, to)
    then Good(EdgeStatement(IdOfVariable(m, from), IdOfVariable(m, to), relation, confidence), s)
    else Bad
  }

  function ReadEdge(s: string): Read<Statement> {
    var (m, s) :- ReadMatch(s);
    ReadMerge(m, s)
  }

  function ReadStatement(s: string): Read<Statement> {
    if "MERGE" <= s then ReadNode(s) else ReadEdge(s)
  }

  /** Node and edge statements in any order, up to the end of the script. */
  function ReadStatements(s: string): Option<seq<Statement>>
    decreases |s|
  {
    if s == [] then Some([])
    else
      var r := ReadStatement(s);
      if r.Bad? || |r.rest| >= |s| then None
      else
        match ReadStatements(r.rest)
        case None => None
        case Some(more) => Some([r.value] + more)
  }

  datatype Script = Script(nodes: nat, edges: nat, statements: seq<Statement>)

  function ReadHeader(s: string): Read<(nat, nat)> {
    var (_, s) :- Skip("// habitat-graph cypher export \U{2014} ", s);
    var (nodes, s) :- ReadNumber(s);
    var (_, s) :- Skip(" nodes, ", s);
    var (edges, s) :- ReadNumber(s);
    var (_, s) :- Skip(" edges", s);
    var (_, s) :- Skip(['\n'], s);
    Good((nodes, edges), s)
  }

  function ReadScript(s: string): Option<Script> {
    var header := ReadHeader(s);
    if header.Bad? then None
    else
      match ReadStatements(header.rest)
      case None => None
      case Some(statements) => Some(Script(header.value.0, header.value.1, statements))
  }

  // ---------------------------------------------------------------- what a script says

  function NodeSaid(n: Node): Statement {
    NodeStatement(n.id, CypherClean(n.name), CypherClean(n.sourceFile), n.sourceLocation.startLine)
  }

  function EdgeSaid(e: Edge): Statement {
    EdgeStatement(e.source, e.target, CypherClean(e.relation), e.confidence)
  }

  lemma SkipBack(text: string, rest: string)
    ensures Skip(text, text + rest) == Good((), rest)
  {
  }

  lemma NumberBack(n: nat, rest: string)
    requires rest != [] && !IsDigit(rest[0])
    ensures ReadNumber(Numeral(n) + rest) == Good(n, rest)
  {
    NumeralReadBack(n, rest);
    assert (Numeral(n) + rest)[0] == Numeral(n)[0];
  }

  /** A quoted text and the fixed text after it, whose first character closes the quote. */
  lemma TextBack(s: string, after: string, rest: string)
    requires after != [] && after[0] == '\''
    ensures ReadText(CypherEscaped(s) + (after + rest)) == Good(CypherClean(s), after[1..] + rest)
  {
    CypherReadBack(s, after[1..] + rest);
    assert CypherEscaped(s) + (after + rest) == CypherEscaped(s) + ['\''] + (after[1..] + rest);
  }

  lemma ConfidencePlain(c: Confidence)
    ensures forall x :: x in ConfidenceName(c) ==> x as int >= 0x20
  {
    match c
    case Extracted =>
      assert forall x :: x in "EXTRACTED" ==> 'A' <= x <= 'Z';
    case Inferred =>
      assert forall x :: x in "INFERRED" ==> 'A' <= x <= 'Z';
    case Ambiguous =>
      assert forall x :: x in "AMBIGUOUS" ==> 'A' <= x <= 'Z';
  }

  lemma ConfidenceNamesDiffer()
    ensures "EXTRACTED" != "INFERRED" && "EXTRACTED" != "AMBIGUOUS" && "INFERRED" != "AMBIGUOUS"
  {
    assert |"EXTRACTED"| == 9 && |"INFERRED"| == 8 && |"AMBIGUOUS"| == 9;
    assert "EXTRACTED"[0] == 'E' && "AMBIGUOUS"[0] == 'A';
  }

  lemma ConfidenceBack(c: Confidence, after: string, rest: string)
    requires after != [] && after[0] == '\''
    ensures ReadConfidence(CypherEscaped(ConfidenceName(c)) + (after + rest)) == Good(c, after[1..] + rest)
  {
    TextBack(ConfidenceName(c), after, rest);
    ConfidencePlain(c);
    CleanWithoutControls(ConfidenceName(c));
    ConfidenceNamesDiffer();
  }

  lemma NodeBack(n: Node, rest: string)
    ensures ReadStatement(NodeLine(n) + rest) == Good(NodeSaid(n), rest)
    ensures NodeLine(n) != []
  {
    var id, name, file := Numeral(n.id), CypherEscaped(n.name), CypherEscaped(n.sourceFile);
    var line := Numeral(n.sourceLocation.startLine);
    var t12 := ['\n'] + rest;
    var t11 := NODE_6 + t12;
    var t9 := NODE_5 + (line + t11);
    var t7 := NODE_4 + (file + t9);
    var t5 := NODE_3 + (name + t7);
    var t3 := NODE_2 + (id + t5);
    NodeLineNested(n, rest);
    ANode(id + t3);
    SkipBack(NODE_1, id + t3);
    NumberBack(n.id, t3);
    SkipBack(NODE_2, id + t5);
    NumberBack(n.id, t5);
    SkipBack(NODE_3, name + t7);
    TextBack(n.name, NODE_4, file + t9);
    assert NODE_4[1..] == ", source_file: '" && NODE_5[1..] == ", line: ";
    SkipBack(", source_file: '", file + t9);
    TextBack(n.sourceFile, NODE_5, line + t11);
    SkipBack(", line: ", line + t11);
    NumberBack(n.sourceLocation.startLine, t11);
    SkipBack(NODE_6, t12);
    SkipBack(['\n'], rest);
  }

  lemma NodeLineNested(n: Node, rest: string)
    ensures NodeLine(n) + rest ==
            NODE_1 + (Numeral(n.id) + (NODE_2 + (Numeral(n.id) + (NODE_3 + (CypherEscaped(n.name)
            + (NODE_4 + (CypherEscaped(n.sourceFile) + (NODE_5 + (Numeral(n.sourceLocation.startLine)
            + (NODE_6 + (['\n'] + rest)))))))))))
  {
    var id, name, file := Numeral(n.id), CypherEscaped(n.name), CypherEscaped(n.sourceFile);
    var line := Numeral(n.sourceLocation.startLine);
    Nest12(NODE_1, id, NODE_2, id, NODE_3, name, NODE_4, file, NODE_5, line, NODE_6, ['\n'], rest);
  }

  lemma Nest4(a: string, b: string, c: string, d: string, rest: string)
    ensures a + b + c + d + rest == a + (b + (c + (d + rest)))
  {
  }

  lemma Nest12(a: string, b: string, c: string, d: string, e: string, f: string, g: string, h: string,
               i: string, j: string, k: string, l: string, rest: string)
    ensures a + b + c + d + e + f + g + h + i + j + k + l + rest ==
            a + (b + (c + (d + (e + (f + (g + (h + (i + (j + (k + (l + rest)))))))))))
  {
    var h8 := a + b + c + d + e + f + g + h;
    Nest4(h8 + i, j, k, l, rest);
    AppendAssoc(h8, i, j + (k + (l + rest)));
    var t9 := i + (j + (k + (l + rest)));
    Nest4(a + b + c + d + e, f, g, h, t9);
    Nest4(a + b, c, d, e, f + (g + (h + t9)));
    AppendAssoc(a, b, c + (d + (e + (f + (g + (h + t9))))));
  }

  lemma EdgeBack(e: Edge, rest: string)
    ensures ReadStatement(EdgeLine(e) + rest) == Good(EdgeSaid(e), rest)
    ensures EdgeLine(e) != []
  {
    var relation, confidence := CypherEscaped(e.relation), CypherEscaped(ConfidenceName(e.confidence));
    var t5 := EDGE_3 + (relation + (EDGE_4 + (confidence + (EDGE_5 + (['\n'] + rest)))));
    EdgeLineNested(e, rest);
    NotANode(Numeral(e.source) + (EDGE_2 + (Numeral(e.target) + t5)));
    MergeBack(e, rest);
    MatchBack(e.source, e.target, t5);
  }

  lemma MatchBack(source: nat, target: nat, rest: string)
    requires "})" <= rest
    ensures ReadMatch(EDGE_1 + (Numeral(source) + (EDGE_2 + (Numeral(target) + rest)))) ==
            Good(Match("a", source, "b", target), rest[2..])
  {
    var t3 := EDGE_2 + (Numeral(target) + rest);
    MatchFirst(Numeral(source) + t3);
    NumberBack(source, t3);
    MatchSecond(Numeral(target) + rest);
    NumberBack(target, rest);
  }

  lemma MergeBack(e: Edge, rest: string)
    ensures var t5 := EDGE_3 + (CypherEscaped(e.relation) + (EDGE_4 + (CypherEscaped(ConfidenceName(e.confidence)) + (EDGE_5 + (['\n'] + rest)))));
            "})" <= t5 && ReadMerge(Match("a", e.source, "b", e.target), t5[2..]) == Good(EdgeSaid(e), rest)
  {
    var relation, confidence := CypherEscaped(e.relation), CypherEscaped(ConfidenceName(e.confidence));
    var t10 := ['\n'] + rest;
    var t9 := EDGE_5 + t10;
    var t7 := EDGE_4 + (confidence + t9);
    MergeFrom(relation + t7);
    TextBack(e.relation, EDGE_4, confidence + t9);
    assert EDGE_4[1..] == ", confidence: '";
    SkipBack(", confidence: '", confidence + t9);
    ConfidenceBack(e.confidence, EDGE_5, t10);
    MergeTo(t10);
    SkipBack(['\n'], rest);
    assert "a" != "b";
  }

  lemma ANode(rest: string)
    ensures "MERGE" <= NODE_1 + rest
  {
    assert NODE_1[..5] == "MERGE";
    StartsWith(NODE_1, "MERGE", rest);
  }

  lemma NotANode(rest: string)
    ensures !("MERGE" <= EDGE_1 + rest)
  {
    assert (EDGE_1 + rest)[1] == 'A' && "MERGE"[1] == 'E';
  }

  lemma WordBack(w: string, rest: string)
    requires |w| == 1 && IsWordChar(w[0]) && rest != [] && !IsWordChar(rest[0])
    ensures ReadWord(w + rest) == Good(w, rest)
  {
    assert (w + rest)[1..] == rest;
    assert WordLength(w + rest) == 1;
    assert (w + rest)[..1] == w;
  }

  /** Fixed text around the name of a variable, read piece by piece. */
  lemma AroundWord(text: string, before: string, w: string, after: string, rest: string)
    requires text == before + w + after
    requires |w| == 1 && IsWordChar(w[0]) && after != [] && !IsWordChar(after[0])
    ensures Skip(before, text + rest) == Good((), w + (after + rest))
    ensures ReadWord(w + (after + rest)) == Good(w, after + rest)
    ensures Skip(after, after + rest) == Good((), rest)
  {
    AppendAssoc(before + w, after, rest);
    AppendAssoc(before, w, after + rest);
    SkipBack(before, w + (after + rest));
    WordBack(w, after + rest);
    SkipBack(after, rest);
  }

  lemma MatchFirst(rest: string)
    ensures Skip("MATCH (", EDGE_1 + rest) == Good((), "a" + (" {id: " + rest))
    ensures ReadWord("a" + (" {id: " + rest)) == Good("a", " {id: " + rest)
    ensures Skip(" {id: ", " {id: " + rest) == Good((), rest)
  {
    assert EDGE_1 == "MATCH (" + "a" + " {id: ";
    AroundWord(EDGE_1, "MATCH (", "a", " {id: ", rest);
  }

  lemma MatchSecond(rest: string)
    ensures Skip("}),(", EDGE_2 + rest) == Good((), "b" + (" {id: " + rest))
    ensures ReadWord("b" + (" {id: " + rest)) == Good("b", " {id: " + rest)
    ensures Skip(" {id: ", " {id: " + rest) == Good((), rest)
  {
    assert EDGE_2 == "}),(" + "b" + " {id: ";
    AroundWord(EDGE_2, "}),(", "b", " {id: ", rest);
  }

  lemma MergeFrom(rest: string)
    ensures "})" <= EDGE_3 + rest
    ensures Skip(" MERGE (", (EDGE_3 + rest)[2..]) == Good((), "a" + (")-[:REL {relation: '" + rest))
    ensures ReadWord("a" + (")-[:REL {relation: '" + rest)) == Good("a", ")-[:REL {relation: '" + rest)
    ensures Skip(")-[:REL {relation: '", ")-[:REL {relation: '" + rest) == Good((), rest)
  {
    var after := ")-[:REL {relation: '";
    MergeText();
    StartsWith("})" + (" MERGE (" + "a" + after), "})", rest);
    AroundWord(" MERGE (" + "a" + after, " MERGE (", "a", after, rest);
  }

  lemma MergeText()
    ensures EDGE_3 == "})" + (" MERGE (" + "a" + ")-[:REL {relation: '")
  {
    assert EDGE_3 == "}) MERGE (a" + ")-[:REL {relation: '";
    assert "}) MERGE (a" == "})" + " MERGE (a";
    assert " MERGE (a" == " MERGE (" + "a";
    AppendAssoc("})", " MERGE (a", ")-[:REL {relation: '");
  }

  lemma StartsWith(text: string, start: string, rest: string)
    requires |start| <= |text| && text[..|start|] == start
    ensures start <= text + rest && (text + rest)[|start|..] == text[|start|..] + rest
  {
  }

  lemma MergeTo(rest: string)
    ensures Skip("}]->(", EDGE_5[1..] + rest) == Good((), "b" + (");" + rest))
    ensures ReadWord("b" + (");" + rest)) == Good("b", ");" + rest)
    ensures Skip(");", ");" + rest) == Good((), rest)
  {
    assert EDGE_5[1..] == "}]->(" + "b" + ");";
    AroundWord(EDGE_5[1..], "}]->(", "b", ");", rest);
  }

  lemma EdgeLineNested(e: Edge, rest: string)
    ensures EdgeLine(e) + rest ==
            EDGE_1 + (Numeral(e.source) + (EDGE_2 + (Numeral(e.target) + (EDGE_3 + (CypherEscaped(e.relation)
            + (EDGE_4 + (CypherEscaped(ConfidenceName(e.confidence)) + (EDGE_5 + (['\n'] + rest)))))))))
  {
    Nest10(EDGE_1, Numeral(e.source), EDGE_2, Numeral(e.target), EDGE_3, CypherEscaped(e.relation),
           EDGE_4, CypherEscaped(ConfidenceName(e.confidence)), EDGE_5, ['\n'], rest);
  }

  lemma Nest10(a: string, b: string, c: string, d: string, e: string, f: string, g: string, h: string,
               i: string, j: string, rest: string)
    ensures a + b + c + d + e + f + g + h + i + j + rest ==
            a + (b + (c + (d + (e + (f + (g + (h + (i + (j + rest)))))))))
  {
    var h6 := a + b + c + d + e + f;
    Nest4(h6 + g, h, i, j, rest);
    AppendAssoc(h6, g, h + (i + (j + rest)));
    var t7 := g + (h + (i + (j + rest)));
    Nest4(a + b + c, d, e, f, t7);
    Nest4(a, b, c, d, e + (f + t7));
  }

  // ---------------------------------------------------------------- whole scripts

  /** `text` is one statement, read back as `said`, whatever follows. */
  ghost predicate SaysOnly(text: string, said: Statement) {
    text != [] && forall rest :: ReadStatement(text + rest) == Good(said, rest)
  }

  lemma OneMoreStatement(text: string, said: Statement, rest: string, more: seq<Statement>)
    requires SaysOnly(text, said) && ReadStatements(rest) == Some(more)
    ensures ReadStatements(text + rest) == Some([said] + more)
  {
  }

  lemma MapSnoc<A>(said: A -> Statement, xs: seq<A>, more: seq<Statement>)
    requires xs != []
    ensures Map(said, Init(xs)) + ([said(Last(xs))] + more) == Map(said, xs) + more
  {
  }

  lemma {:induction false} StatementsBack<A(!new)>(write: A -> string, said: A -> Statement, xs: seq<A>,
                                                   rest: string, more: seq<Statement>)
    requires forall x :: SaysOnly(write(x), said(x))
    requires ReadStatements(rest) == Some(more)
    ensures ReadStatements(FlatMap(write, xs) + rest) == Some(Map(said, xs) + more)
  {
    if xs == [] {
      assert FlatMap(write, xs) + rest == rest;
      assert Map(said, xs) + more == more;
    } else {
      var init, x := Init(xs), Last(xs);
      assert SaysOnly(write(x), said(x));
      OneMoreStatement(write(x), said(x), rest, more);
      StatementsBack(write, said, init, write(x) + rest, [said(x)] + more);
      AppendAssoc(FlatMap(write, init), write(x), rest);
      MapSnoc(said, xs, more);
    }
  }

  lemma NodesReadBack()
    ensures forall n :: SaysOnly(NodeLine(n), NodeSaid(n))
  {
    forall n
      ensures SaysOnly(NodeLine(n), NodeSaid(n))
    {
      forall rest
        ensures ReadStatement(NodeLine(n) + rest) == Good(NodeSaid(n), rest)
      {
        NodeBack(n, rest);
      }
      NodeBack(n, []);
    }
  }

  lemma EdgesReadBack()
    ensures forall e :: SaysOnly(EdgeLine(e), EdgeSaid(e))
  {
    forall e
      ensures SaysOnly(EdgeLine(e), EdgeSaid(e))
    {
      forall rest
        ensures ReadStatement(EdgeLine(e) + rest) == Good(EdgeSaid(e), rest)
      {
        EdgeBack(e, rest);
      }
      EdgeBack(e, []);
    }
  }

  lemma HeaderBack(nodes: nat, edges: nat, rest: string)
    ensures ReadHeader(HeaderLine(nodes, edges) + rest) == Good((nodes, edges), rest)
  {
    var t5 := HEADER_3 + (['\n'] + rest);
    var t3 := HEADER_2 + (Numeral(edges) + t5);
    assert HeaderLine(nodes, edges) + rest == HEADER_1 + (Numeral(nodes) + t3) by {
      Nest4(HEADER_1 + Numeral(nodes) + HEADER_2, Numeral(edges), HEADER_3, ['\n'], rest);
      Nest4(HEADER_1, Numeral(nodes), HEADER_2, Numeral(edges), t5);
      AppendAssoc(HEADER_1 + Numeral(nodes) + HEADER_2, Numeral(edges), t5);
    }
    SkipBack(HEADER_1, Numeral(nodes) + t3);
    NumberBack(nodes, t3);
    SkipBack(HEADER_2, Numeral(edges) + t5);
    NumberBack(edges, t5);
    SkipBack(HEADER_3, ['\n'] + rest);
    SkipBack(['\n'], rest);
  }

  /** A rendered script reads back to the counts and, in order, to one statement for each node
      and each edge, with every string as it was minus the dropped control characters. */
  lemma ScriptReadBack(g: Graph)
    ensures ReadScript(Rendered(g)) ==
            Some(Script(|g.nodes|, |g.edges|, Map(NodeSaid, g.nodes) + Map(EdgeSaid, g.edges)))
  {
    NodesReadBack();
    EdgesReadBack();
    StatementsBack(EdgeLine, EdgeSaid, g.edges, [], []);
    assert FlatMap(EdgeLine, g.edges) + [] == FlatMap(EdgeLine, g.edges);
    assert Map(EdgeSaid, g.edges) + [] == Map(EdgeSaid, g.edges);
    StatementsBack(NodeLine, NodeSaid, g.nodes, FlatMap(EdgeLine, g.edges), Map(EdgeSaid, g.edges));
    AppendAssoc(HeaderLine(|g.nodes|, |g.edges|), FlatMap(NodeLine, g.nodes), FlatMap(EdgeLine, g.edges));
    HeaderBack(|g.nodes|, |g.edges|, FlatMap(NodeLine, g.nodes) + FlatMap(EdgeLine, g.edges));
  }

  // ---------------------------------------------------------------- lines

  predicate IsLineFeed(c: char) { c == '\n' }

  function LineFeeds(s: string): nat {
    |Filter(IsLineFeed, s)|
  }

  lemma LineFeedsAppend(a: string, b: string)
    ensures LineFeeds(a + b) == LineFeeds(a) + LineFeeds(b)
  {
    FilterAppend(IsLineFeed, a, b);
  }

  lemma {:induction false} NoLineFeeds(s: string)
    requires '\n' !in s
    ensures LineFeeds(s) == 0
  {
    if s != [] {
      assert s == Init(s) + [Last(s)];
      NoLineFeeds(Init(s));
    }
  }

  lemma OneLine(body: string)
    requires '\n' !in body
    ensures LineFeeds(body + ['\n']) == 1
  {
    NoLineFeeds(body);
    LineFeedsAppend(body, ['\n']);
    Snoc([], '\n');
    assert [] + ['\n'] == ['\n'];
    assert Filter(IsLineFeed, []) == [];
    assert Filter(IsLineFeed, ['\n']) == ['\n'];
  }

  lemma {:induction false} OneLineEach<A(!new)>(f: A -> string, xs: seq<A>)
    requires forall x :: LineFeeds(f(x)) == 1
    ensures LineFeeds(FlatMap(f, xs)) == |xs|
  {
    if xs == [] {
      assert FlatMap(f, xs) == [];
    } else {
      OneLineEach(f, Init(xs));
      LineFeedsAppend(FlatMap(f, Init(xs)), f(Last(xs)));
    }
  }

  predicate OnOneLine(s: string) { '\n' !in s }

  lemma OnOneLine4(a: string, b: string, c: string, d: string)
    requires OnOneLine(a) && OnOneLine(b) && OnOneLine(c) && OnOneLine(d)
    ensures OnOneLine(a + b + c + d)
  {
  }

  lemma EscapedOnOneLine(s: string)
    ensures OnOneLine(CypherEscaped(s))
  {
    CypherEscapedHasNoControl(s);
  }

  lemma NumeralOnOneLine(n: nat)
    ensures OnOneLine(Numeral(n))
  {
  }

  lemma NodeIsOneLine(n: Node)
    ensures LineFeeds(NodeLine(n)) == 1
  {
    var id, name, file := Numeral(n.id), CypherEscaped(n.name), CypherEscaped(n.sourceFile);
    var line := Numeral(n.sourceLocation.startLine);
    EscapedOnOneLine(n.name);
    EscapedOnOneLine(n.sourceFile);
    NumeralOnOneLine(n.id);
    NumeralOnOneLine(n.sourceLocation.startLine);
    OnOneLine4(NODE_1, id, NODE_2, id);
    var first := NODE_1 + id + NODE_2 + id;
    OnOneLine4(first, NODE_3, name, NODE_4);
    var second := first + NODE_3 + name + NODE_4;
    OnOneLine4(second, file, NODE_5, line);
    OnOneLine4(second + file + NODE_5 + line, NODE_6, [], []);
    assert second + file + NODE_5 + line + NODE_6 + [] + [] == second + file + NODE_5 + line + NODE_6;
    OneLine(second + file + NODE_5 + line + NODE_6);
  }

  lemma EdgeIsOneLine(e: Edge)
    ensures LineFeeds(EdgeLine(e)) == 1
  {
    var source, target, relation := Numeral(e.source), Numeral(e.target), CypherEscaped(e.relation);
    var confidence := CypherEscaped(ConfidenceName(e.confidence));
    EscapedOnOneLine(e.relation);
    EscapedOnOneLine(ConfidenceName(e.confidence));
    NumeralOnOneLine(e.source);
    NumeralOnOneLine(e.target);
    OnOneLine4(EDGE_1, source, EDGE_2, target);
    var first := EDGE_1 + source + EDGE_2 + target;
    OnOneLine4(first, EDGE_3, relation, EDGE_4);
    var second := first + EDGE_3 + relation + EDGE_4;
    OnOneLine4(second, confidence, EDGE_5, []);
    var body := second + confidence + EDGE_5;
    assert body + [] == body;
    OneLine(body);
  }

  lemma LineOfNodes(nodes: seq<Node>)
    ensures LineFeeds(FlatMap(NodeLine, nodes)) == |nodes|
  {
    forall n
      ensures LineFeeds(NodeLine(n)) == 1
    {
      NodeIsOneLine(n);
    }
    OneLineEach(NodeLine, nodes);
  }

  lemma LineOfEdges(edges: seq<Edge>)
    ensures LineFeeds(FlatMap(EdgeLine, edges)) == |edges|
  {
    forall e
      ensures LineFeeds(EdgeLine(e)) == 1
    {
      EdgeIsOneLine(e);
    }
    OneLineEach(EdgeLine, edges);
  }

  lemma HeaderIsOneLine(nodes: nat, edges: nat)
    ensures LineFeeds(HeaderLine(nodes, edges)) == 1
  {
    NumeralOnOneLine(nodes);
    NumeralOnOneLine(edges);
    OnOneLine4(HEADER_1, Numeral(nodes), HEADER_2, Numeral(edges));
    var first := HEADER_1 + Numeral(nodes) + HEADER_2 + Numeral(edges);
    OnOneLine4(first, HEADER_3, [], []);
    assert first + HEADER_3 + [] + [] == first + HEADER_3;
    OneLine(first + HEADER_3);
  }

  /** One line for the header, each node and each edge: no text breaks a line. */
  lemma ScriptLines(g: Graph)
    ensures LineFeeds(Rendered(g)) == 1 + |g.nodes| + |g.edges|
  {
    LineFeedsAppend(HeaderLine(|g.nodes|, |g.edges|) + FlatMap(NodeLine, g.nodes), FlatMap(EdgeLine, g.edges));
    LineFeedsAppend(HeaderLine(|g.nodes|, |g.edges|), FlatMap(NodeLine, g.nodes));
    HeaderIsOneLine(|g.nodes|, |g.edges|);
    LineOfNodes(g.nodes);
    LineOfEdges(g.edges);
  }
}
