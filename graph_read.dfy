/**
 * Reading a `.graph` file (diagramming/Graph.java, `readFromGraphFile`).
 * The file is a list of blocks: a line `node` opens a node block, a line
 * `edge` opens an edge block, and `key:value` lines fill the open block in.
 * A block is only added to the graph when the next `node`, `edge` or blank
 * line comes. Every node must come before every edge: a `node` line after an
 * edge block ends the reading early.
 */
module DiagramReading {
  import opened Wrappers
  import opened Text
  import opened Diagrams

  /** Which kind of block is open (`inNode`/`inEdge`; never both). */
  datatype Block = Outside | InNode | InEdge

  /** The block being read: the fields of the node or the ends of the edge seen so far. */
  datatype Pending = Pending(block: Block, id: Option<int>, group: int, text: Option<string>,
                             xPos: Option<real>, yPos: Option<real>, data: map<string, string>,
                             source: Option<int>, dest: Option<int>)

  /**
   * The reader between two lines: the open block, whether a line was
   * malformed, the nodes read (by handle, numbered in reading order) and the
   * edges, and `allNodes`, the handle of the latest node read with each id.
   */
  datatype Reader = Reader(pending: Pending, errors: bool, nodes: map<nat, Node>,
                           edges: set<(nat, nat)>, byId: map<int, nat>, count: nat)

  /** After one line: read on, or stop and return the graph as it is. */
  datatype Next = Continue(reader: Reader) | Stop(reader: Reader)

  /** How a reading that raised no exception ended. */
  datatype Outcome = Finished(errors: bool) | Aborted

  /** The message of the exception raised when a node block has no id. */
  const NullPointer: string := "NullPointerException"

  const Initial: Reader :=
    Reader(Pending(Outside, None, 1, None, None, None, map[], None, None), false, map[], {}, map[], 0)

  /** The lines that close the open block. */
  predicate IsSeparator(line: string) {
    line == "node" || line == "edge" || line == ""
  }

  /** The node a node block describes (its id must be known). */
  function PendingNode(p: Pending): Node
    requires p.id.Some?
  {
    Node(p.id.value, p.group, p.text, p.data, p.xPos, p.yPos)
  }

  /** Both ends of the pending edge name nodes already read. */
  predicate EdgeKnown(r: Reader) {
    r.pending.source.Some? && r.pending.source.value in r.byId &&
    r.pending.dest.Some? && r.pending.dest.value in r.byId
  }

  /**
   * Closing the open block: a node block becomes a new node (it fails when
   * the block never gave an id); an edge block becomes an edge between the
   * latest nodes with its two ids, or sets the error flag when either is
   * unknown. The block stays open.
   */
  function Commit(r: Reader): Result<Reader> {
    match r.pending.block
    case Outside => Success(r)
    case InNode =>
      if r.pending.id.None? then Failure(NullPointer)
      else Success(r.(nodes := r.nodes[r.count := PendingNode(r.pending)],
                      byId := r.byId[r.pending.id.value := r.count],
                      count := r.count + 1))
    case InEdge =>
      if EdgeKnown(r) then Success(r.(edges := r.edges + {(r.byId[r.pending.source.value], r.byId[r.pending.dest.value])}))
      else Success(r.(errors := true))
  }

  /** A `node` line: a fresh node block, group 1 and nothing else known. */
  function StartNode(p: Pending): Pending {
    p.(block := InNode, id := None, group := 1, text := None, xPos := None, yPos := None, data := map[])
  }

  /** An `edge` line: a fresh edge block with neither end known. */
  function StartEdge(p: Pending): Pending {
    p.(block := InEdge, source := None, dest := None)
  }

  /**
   * A `key:value` line in a node block: `id`, `label`, `group`, `x` and `y`
   * set those fields, any other key is kept as data. A number that does not
   * parse raises the parser's exception.
   */
  function NodeField(p: Pending, key: string, value: string, parseDouble: string -> Result<real>): Result<Pending> {
    if key == "id" then
      match ParseInt(value)
      case Failure(e) => Failure(e)
      case Success(n) => Success(p.(id := Some(n)))
    else if key == "label" then Success(p.(text := Some(value)))
    else if key == "group" then
      match ParseInt(value)
      case Failure(e) => Failure(e)
      case Success(n) => Success(p.(group := n))
    else if key == "x" then
      match parseDouble(value)
      case Failure(e) => Failure(e)
      case Success(x) => Success(p.(xPos := Some(x)))
    else if key == "y" then
      match parseDouble(value)
      case Failure(e) => Failure(e)
      case Success(y) => Success(p.(yPos := Some(y)))
    else Success(p.(data := p.data[key := value]))
  }

  /** A `key:value` line in an edge block: `source` and `dest` set the ends, any other key is ignored. */
  function EdgeField(p: Pending, key: string, value: string): Result<Pending> {
    if key == "source" then
      match ParseInt(value)
      case Failure(e) => Failure(e)
      case Success(n) => Success(p.(source := Some(n)))
    else if key == "dest" then
      match ParseInt(value)
      case Failure(e) => Failure(e)
      case Success(n) => Success(p.(dest := Some(n)))
    else Success(p)
  }

  /** The effect of a line that is not a separator: the new block, and whether the line was malformed. */
  datatype Parsed = Parsed(pending: Pending, malformed: bool)

  /**
   * A line that is not a separator. A line that does not split into exactly
   * two parts around `:`, or any line outside a block, is malformed and
   * changes nothing; otherwise both parts are trimmed and fill in the block.
   */
  function DataLine(p: Pending, line: string, parseDouble: string -> Result<real>): Result<Parsed> {
    var parts := Split(line, ':');
    if p.block == Outside || |parts| != 2 then Success(Parsed(p, true))
    else
      var field := if p.block == InNode then NodeField(p, Trim(parts[0]), Trim(parts[1]), parseDouble)
                   else EdgeField(p, Trim(parts[0]), Trim(parts[1]));
      match field
      case Failure(e) => Failure(e)
      case Success(q) => Success(Parsed(q, false))
  }

  /** A `node`, `edge` or blank line: the open block is added, then the next one opened. */
  function SeparatorStep(r: Reader, line: string): Result<Next> {
    match Commit(r)
    case Failure(e) => Failure(e)
    case Success(c) =>
      if line == "node" then
        if c.pending.block == InEdge then Success(Stop(c))
        else Success(Continue(c.(pending := StartNode(c.pending))))
      else if line == "edge" then Success(Continue(c.(pending := StartEdge(c.pending))))
      else Success(Continue(c))
  }

  /** Any other line fills in the open block. */
  function DataStep(r: Reader, line: string, parseDouble: string -> Result<real>): Result<Next> {
    match DataLine(r.pending, line, parseDouble)
    case Failure(e) => Failure(e)
    case Success(q) => Success(Continue(r.(pending := q.pending, errors := r.errors || q.malformed)))
  }

  /** One line of the file, trimmed first. */
  function Step(r: Reader, raw: string, parseDouble: string -> Result<real>): Result<Next> {
    var line := Trim(raw);
    if IsSeparator(line) then SeparatorStep(r, line) else DataStep(r, line, parseDouble)
  }

  /** The lines read one after the other from a reader, up to an exception or a stop. */
  function Resume(start: Reader, lines: seq<string>, parseDouble: string -> Result<real>): Result<Next> {
    if lines == [] then Success(Continue(start))
    else
      match Resume(start, lines[..|lines| - 1], parseDouble)
      case Failure(e) => Failure(e)
      case Success(n) =>
        if n.Stop? then Success(n) else Step(n.reader, lines[|lines| - 1], parseDouble)
  }

  /** The whole file. The block open at its end is never added. */
  function Read(lines: seq<string>, parseDouble: string -> Result<real>): Result<Next> {
    Resume(Initial, lines, parseDouble)
  }

  /**
   * The reader's bookkeeping: handles are 0 up to the count, each id maps to
   * a node with that id and no later node has the same id, and every edge
   * joins two nodes read.
   */
  ghost predicate ReaderOk(r: Reader) {
    (forall h: nat :: h in r.nodes <==> h < r.count) &&
    (forall i :: i in r.byId ==> r.byId[i] in r.nodes && r.nodes[r.byId[i]].id == i) &&
    (forall h :: h in r.nodes ==> r.nodes[h].id in r.byId && h <= r.byId[r.nodes[h].id]) &&
    (forall x: nat, y: nat :: (x, y) in r.edges ==> x in r.nodes && y in r.nodes)
  }

  lemma AddNodeOk(r: Reader)
    requires ReaderOk(r) && r.pending.block == InNode && r.pending.id.Some?
    ensures ReaderOk(Commit(r).value)
  {
    var c := Commit(r).value;
    var id := r.pending.id.value;
    assert c.nodes == r.nodes[r.count := PendingNode(r.pending)] && c.byId == r.byId[id := r.count];
    assert r.count !in r.nodes;
    forall h: nat
      ensures h in c.nodes <==> h < c.count
    {
    }
    forall i | i in c.byId
      ensures c.byId[i] in c.nodes && c.nodes[c.byId[i]].id == i
    {
      if i != id {
        assert r.byId[i] in r.nodes && r.byId[i] != r.count;
      }
    }
    forall h | h in c.nodes
      ensures c.nodes[h].id in c.byId && h <= c.byId[c.nodes[h].id]
    {
      if h != r.count {
        assert h in r.nodes && c.nodes[h] == r.nodes[h];
        assert h < r.count;
      }
    }
  }

  lemma CommitOk(r: Reader)
    requires ReaderOk(r) && Commit(r).Success?
    ensures ReaderOk(Commit(r).value)
  {
    if r.pending.block == InNode {
      AddNodeOk(r);
    }
  }

  /** Every line keeps the bookkeeping. */
  lemma StepOk(r: Reader, raw: string, parseDouble: string -> Result<real>)
    requires ReaderOk(r) && Step(r, raw, parseDouble).Success?
    ensures ReaderOk(Step(r, raw, parseDouble).value.reader)
  {
    if IsSeparator(Trim(raw)) {
      CommitOk(r);
    }
  }

  lemma {:induction false} ResumeOk(start: Reader, lines: seq<string>, parseDouble: string -> Result<real>)
    requires ReaderOk(start) && Resume(start, lines, parseDouble).Success?
    ensures ReaderOk(Resume(start, lines, parseDouble).value.reader)
  {
    if lines != [] {
      var front := lines[..|lines| - 1];
      ResumeOk(start, front, parseDouble);
      var n := Resume(start, front, parseDouble).value;
      if n.Continue? {
        StepOk(n.reader, lines[|lines| - 1], parseDouble);
      }
    }
  }

  /** A graph read from any file is sound: its edges join its nodes, and each id points at the latest node with it. */
  lemma ReadOk(lines: seq<string>, parseDouble: string -> Result<real>)
    requires Read(lines, parseDouble).Success?
    ensures ReaderOk(Read(lines, parseDouble).value.reader)
  {
    ResumeOk(Initial, lines, parseDouble);
  }

  /** The reading raised an exception or stopped. */
  predicate Ended(n: Result<Next>) {
    n.Failure? || n.value.Stop?
  }

  /** Once the reading stops or fails, later lines change nothing. */
  lemma {:induction false} EndIsFinal(start: Reader, lines: seq<string>, more: seq<string>, parseDouble: string -> Result<real>)
    requires Ended(Resume(start, lines, parseDouble))
    ensures Resume(start, lines + more, parseDouble) == Resume(start, lines, parseDouble)
    decreases |more|
  {
    if more != [] {
      var front := more[..|more| - 1];
      EndIsFinal(start, lines, front, parseDouble);
      assert (lines + more)[..|lines + more| - 1] == lines + front;
      var whole := lines + more;
      assert whole != [] && whole[..|whole| - 1] == lines + front;
      var before := Resume(start, whole[..|whole| - 1], parseDouble);
      assert before == Resume(start, lines, parseDouble);
      if before.Failure? {
        assert Resume(start, whole, parseDouble) == Failure(before.error);
      }
    } else {
      assert lines + more == lines;
    }
  }

  /** A separator after a node block with an id adds that node under the next handle. */
  lemma SeparatorAddsNode(r: Reader, raw: string, parseDouble: string -> Result<real>)
    requires IsSeparator(Trim(raw)) && r.pending.block == InNode && r.pending.id.Some?
    ensures var s := Step(r, raw, parseDouble);
      s.Success? && s.value.Continue? &&
      s.value.reader.nodes == r.nodes[r.count := PendingNode(r.pending)] &&
      s.value.reader.byId == r.byId[r.pending.id.value := r.count] &&
      s.value.reader.count == r.count + 1 &&
      s.value.reader.edges == r.edges && s.value.reader.errors == r.errors &&
      (Trim(raw) == "" ==> s.value.reader.pending == r.pending)
  {
  }

  /** A separator after a node block that never gave an id raises an exception. */
  lemma IdlessNodeFails(r: Reader, raw: string, parseDouble: string -> Result<real>)
    requires IsSeparator(Trim(raw)) && r.pending.block == InNode && r.pending.id.None?
    ensures Step(r, raw, parseDouble) == Failure(NullPointer)
  {
  }

  /**
   * A separator after an edge block adds the edge between the latest nodes
   * with its ids when both are known, and otherwise only sets the error flag;
   * a `node` line then stops the reading with that graph.
   */
  lemma SeparatorAddsEdge(r: Reader, raw: string, parseDouble: string -> Result<real>)
    requires IsSeparator(Trim(raw)) && r.pending.block == InEdge
    ensures var s := Step(r, raw, parseDouble);
      s.Success? && (s.value.Stop? <==> Trim(raw) == "node") &&
      s.value.reader.nodes == r.nodes && s.value.reader.count == r.count &&
      (EdgeKnown(r) ==> s.value.reader.edges == r.edges + {(r.byId[r.pending.source.value], r.byId[r.pending.dest.value])} &&
                        s.value.reader.errors == r.errors) &&
      (!EdgeKnown(r) ==> s.value.reader.edges == r.edges && s.value.reader.errors)
  {
  }

  /** A `node` line outside an edge block opens a node block with group 1 and nothing else known. */
  lemma NodeLineDefaults(r: Reader, raw: string, parseDouble: string -> Result<real>)
    requires Trim(raw) == "node" && r.pending.block != InEdge && Commit(r).Success?
    ensures var s := Step(r, raw, parseDouble);
      s.Success? && s.value.Continue? &&
      s.value.reader.pending == Commit(r).value.pending.(block := InNode, id := None, group := 1, text := None,
                                                         xPos := None, yPos := None, data := map[])
  {
  }

  /** A line that is not a separator never changes the nodes, the edges or the ids. */
  lemma DataLineKeepsGraph(r: Reader, raw: string, parseDouble: string -> Result<real>)
    requires !IsSeparator(Trim(raw)) && Step(r, raw, parseDouble).Success?
    ensures var n := Step(r, raw, parseDouble).value;
      n.Continue? && n.reader.nodes == r.nodes && n.reader.edges == r.edges &&
      n.reader.byId == r.byId && n.reader.count == r.count
  {
  }

  /** A malformed line, or any line outside a block, sets the error flag and changes nothing else. */
  lemma MalformedLine(r: Reader, raw: string, parseDouble: string -> Result<real>)
    requires !IsSeparator(Trim(raw)) && (r.pending.block == Outside || |Split(Trim(raw), ':')| != 2)
    ensures Step(r, raw, parseDouble) == Success(Continue(r.(errors := true)))
  {
  }

  /** The key of a data line that splits into two parts, trimmed. */
  function KeyOf(line: string): string
    requires |Split(line, ':')| == 2
  {
    Trim(Split(line, ':')[0])
  }

  /** The value of a data line that splits into two parts, trimmed. */
  function ValueOf(line: string): string
    requires |Split(line, ':')| == 2
  {
    Trim(Split(line, ':')[1])
  }

  /** In a node block, a key the reader does not know is kept as data, with its value. */
  lemma UnknownNodeKey(r: Reader, raw: string, parseDouble: string -> Result<real>)
    requires r.pending.block == InNode && !IsSeparator(Trim(raw)) && |Split(Trim(raw), ':')| == 2
    requires KeyOf(Trim(raw)) != "id" && KeyOf(Trim(raw)) != "label" && KeyOf(Trim(raw)) != "group"
    requires KeyOf(Trim(raw)) != "x" && KeyOf(Trim(raw)) != "y"
    ensures Step(r, raw, parseDouble) ==
            Success(Continue(r.(pending := r.pending.(data := r.pending.data[KeyOf(Trim(raw)) := ValueOf(Trim(raw))]))))
  {
  }

  /** In a node block, an `id` line sets the id when its value parses, and raises the parser's exception when not. */
  lemma NodeIdLine(r: Reader, raw: string, parseDouble: string -> Result<real>)
    requires r.pending.block == InNode && !IsSeparator(Trim(raw)) && |Split(Trim(raw), ':')| == 2
    requires KeyOf(Trim(raw)) == "id"
    ensures var v := ParseInt(ValueOf(Trim(raw)));
      (v.Failure? ==> Step(r, raw, parseDouble) == Failure(v.error)) &&
      (v.Success? ==> Step(r, raw, parseDouble) == Success(Continue(r.(pending := r.pending.(id := Some(v.value))))))
  {
  }

  /** In an edge block, a key other than `source` and `dest` is ignored. */
  lemma UnknownEdgeKey(r: Reader, raw: string, parseDouble: string -> Result<real>)
    requires r.pending.block == InEdge && !IsSeparator(Trim(raw)) && |Split(Trim(raw), ':')| == 2
    requires KeyOf(Trim(raw)) != "source" && KeyOf(Trim(raw)) != "dest"
    ensures Step(r, raw, parseDouble) == Success(Continue(r))
  {
  }

  /**
   * A node block followed by two blank lines is added twice, as two equal
   * nodes under two handles, and its id then names the second.
   */
  lemma BlankLinesRepeatNode(r: Reader, parseDouble: string -> Result<real>)
    requires r.pending.block == InNode && r.pending.id.Some?
    ensures var n := Resume(r, ["", ""], parseDouble);
      n.Success? && n.value.Continue? &&
      r.count in n.value.reader.nodes && r.count + 1 in n.value.reader.nodes &&
      n.value.reader.nodes[r.count] == n.value.reader.nodes[r.count + 1] == PendingNode(r.pending) &&
      r.pending.id.value in n.value.reader.byId && n.value.reader.byId[r.pending.id.value] == r.count + 1
  {
    assert Trim("") == "";
    assert ["", ""][..1] == [""];
    assert [""][..0] == [];
    SeparatorAddsNode(r, "", parseDouble);
    var r1 := Step(r, "", parseDouble).value.reader;
    assert Resume(r, [""], parseDouble) == Success(Continue(r1));
    SeparatorAddsNode(r1, "", parseDouble);
  }

  /**
   * Lines that are not separators add nothing: the block still open when the
   * file ends, and everything written into it, never reaches the graph.
   */
  lemma {:induction false} LastBlockDropped(start: Reader, lines: seq<string>, parseDouble: string -> Result<real>)
    requires forall i :: 0 <= i < |lines| ==> !IsSeparator(Trim(lines[i]))
    requires Resume(start, lines, parseDouble).Success?
    ensures var n := Resume(start, lines, parseDouble).value;
      n.Continue? && n.reader.nodes == start.nodes && n.reader.edges == start.edges &&
      n.reader.byId == start.byId && n.reader.count == start.count
  {
    if lines != [] {
      var front := lines[..|lines| - 1];
      LastBlockDropped(start, front, parseDouble);
      var n := Resume(start, front, parseDouble).value;
      DataLineKeepsGraph(n.reader, lines[|lines| - 1], parseDouble);
    }
  }

  /**
   * The commit of `readFromGraphFile`: the open block goes into the graph.
   * `failed` is set when the node block has no id.
   */
  method CommitBlock(g: Graph, pending: Pending, errors: bool, byId: map<int, nat>, count: nat)
    returns (errors': bool, byId': map<int, nat>, count': nat, failed: bool)
    requires g.Valid() && ReaderOk(Reader(pending, errors, g.nodes, g.edges, byId, count))
    modifies g
    ensures g.Valid()
    ensures failed <==> Commit(Reader(pending, errors, old(g.nodes), old(g.edges), byId, count)).Failure?
    ensures !failed ==> Commit(Reader(pending, errors, old(g.nodes), old(g.edges), byId, count)) ==
                        Success(Reader(pending, errors', g.nodes, g.edges, byId', count'))
  {
    errors', byId', count', failed := errors, byId, count, false;
    if pending.block == InNode {
      if pending.id.None? {
        failed := true;
        return;
      }
      g.AddNode(count, PendingNode(pending));
      byId' := byId[pending.id.value := count];
      count' := count + 1;
    } else if pending.block == InEdge {
      if pending.source.Some? && pending.source.value in byId && pending.dest.Some? && pending.dest.value in byId {
        g.AddEdge(byId[pending.source.value], byId[pending.dest.value]);
      } else {
        errors' := true;
      }
    }
  }

  /** How one line left the reading: go on, stop, or an exception with its message. */
  datatype Status = Go | Halt | Raised(message: string)

  /** The result of one line, in the terms of `Step`. */
  function AsNext(status: Status, r: Reader): Result<Next> {
    match status
    case Go => Success(Continue(r))
    case Halt => Success(Stop(r))
    case Raised(e) => Failure(e)
  }

  /** A `node`, `edge` or blank line in `readFromGraphFile`, as `SeparatorStep` describes. */
  method ReadSeparator(g: Graph, pending: Pending, errors: bool, byId: map<int, nat>, count: nat, line: string)
    returns (pending': Pending, errors': bool, byId': map<int, nat>, count': nat, status: Status)
    requires IsSeparator(line)
    requires g.Valid() && ReaderOk(Reader(pending, errors, g.nodes, g.edges, byId, count))
    modifies g
    ensures g.Valid()
    ensures SeparatorStep(Reader(pending, errors, old(g.nodes), old(g.edges), byId, count), line) ==
            AsNext(status, Reader(pending', errors', g.nodes, g.edges, byId', count'))
  {
    pending', status := pending, Go;
    var failed;
    errors', byId', count', failed := CommitBlock(g, pending, errors, byId, count);
    if failed {
      status := Raised(NullPointer);
    } else if line == "node" {
      if pending.block == InEdge {
        status := Halt;
      } else {
        pending' := StartNode(pending);
      }
    } else if line == "edge" {
      pending' := StartEdge(pending);
    }
  }

  /** The body of the reading loop of `readFromGraphFile`: one line, as `Step` describes. */
  method ReadLine(g: Graph, pending: Pending, errors: bool, byId: map<int, nat>, count: nat,
                  raw: string, parseDouble: string -> Result<real>)
    returns (pending': Pending, errors': bool, byId': map<int, nat>, count': nat, status: Status)
    requires g.Valid() && ReaderOk(Reader(pending, errors, g.nodes, g.edges, byId, count))
    modifies g
    ensures g.Valid()
    ensures Step(Reader(pending, errors, old(g.nodes), old(g.edges), byId, count), raw, parseDouble) ==
            AsNext(status, Reader(pending', errors', g.nodes, g.edges, byId', count'))
  {
    var line := Trim(raw);
    if IsSeparator(line) {
      pending', errors', byId', count', status := ReadSeparator(g, pending, errors, byId, count, line);
    } else {
      pending', errors', byId', count', status := pending, errors, byId, count, Go;
      var parsed := DataLine(pending, line, parseDouble);
      if parsed.Failure? {
        status := Raised(parsed.error);
      } else {
        pending' := parsed.value.pending;
        errors' := errors || parsed.value.malformed;
      }
    }
  }

  /**
   * `readFromGraphFile`: the lines of the file, one after the other, into a
   * new graph. The result is the graph and how the reading ended, exactly as
   * `Read` describes; an exception leaves no graph.
   */
  method ReadGraph(lines: seq<string>, parseDouble: string -> Result<real>) returns (g: Graph, outcome: Result<Outcome>)
    ensures fresh(g) && g.Valid()
    ensures Read(lines, parseDouble).Failure? ==> outcome == Failure(Read(lines, parseDouble).error)
    ensures Read(lines, parseDouble).Success? ==>
      var n := Read(lines, parseDouble).value;
      outcome == Success(if n.Stop? then Aborted else Finished(n.reader.errors)) &&
      g.nodes == n.reader.nodes && g.edges == n.reader.edges
  {
    g := new Graph();
    var pending := Initial.pending;
    var errors := false;
    var byId: map<int, nat> := map[];
    var count: nat := 0;
    var i := 0;
    while i < |lines|
      invariant 0 <= i <= |lines| && g.Valid()
      invariant Read(lines[..i], parseDouble) == Success(Continue(Reader(pending, errors, g.nodes, g.edges, byId, count)))
      invariant ReaderOk(Reader(pending, errors, g.nodes, g.edges, byId, count))
    {
      ghost var r := Reader(pending, errors, g.nodes, g.edges, byId, count);
      assert lines[..i + 1][..i] == lines[..i];
      assert Read(lines[..i + 1], parseDouble) == Step(r, lines[i], parseDouble);
      var status;
      pending, errors, byId, count, status := ReadLine(g, pending, errors, byId, count, lines[i], parseDouble);
      if status.Raised? {
        outcome := Failure(status.message);
        StopOrFail(lines, i, parseDouble);
        return;
      }
      StepOk(r, lines[i], parseDouble);
      if status.Halt? {
        outcome := Success(Aborted);
        StopOrFail(lines, i, parseDouble);
        return;
      }
      i := i + 1;
    }
    assert lines[..i] == lines;
    outcome := Success(Finished(errors));
  }

  /** A line that fails or stops the reading decides the result of the whole file. */
  lemma StopOrFail(lines: seq<string>, i: nat, parseDouble: string -> Result<real>)
    requires i < |lines| && Ended(Read(lines[..i + 1], parseDouble))
    ensures Read(lines, parseDouble) == Read(lines[..i + 1], parseDouble)
  {
    EndIsFinal(Initial, lines[..i + 1], lines[i + 1..], parseDouble);
    assert lines[..i + 1] + lines[i + 1..] == lines;
  }
}
