/**
 * The node boundaries of the code-generating listener. Entering a node
 * starts a blank node; exiting it either rejects it for want of a title,
 * inserts it into the program under its name (the first node of a name
 * wins), or skips it as a duplicate, and stamps and keeps its debug
 * information whenever it has a name.
 *
 * The traversal of a node's body, which fills in the current node and its
 * debug information, is not part of this model.
 */
module Listeners {
  import opened Wrappers
  import opened Output
  import opened DebugInfos

  /** The parts of a node's parse context a diagnostic is built from: its range and the rendered source line. */
  datatype NodeContext = NodeContext(range: Range, context: string)

  /** The error reported for a node without a title. */
  function MissingTitleDiagnostic(fileName: string, ctx: NodeContext): Diagnostic
  {
    Diagnostic("Missing title header for node", Some(fileName), Some(ctx.range), Some(ctx.context), Error)
  }

  /** A node with every field at its default. */
  predicate IsBlank(n: Node)
  {
    && n.name == ""
    && n.instructions == []
    && n.labels == map[]
    && n.tags == []
    && n.sourceTextStringId == ""
    && n.headers == []
  }

  /** The node `enter_node` starts from: every field at its default. */
  function BlankNode(): (n: Node)
    ensures IsBlank(n)
  {
    Node("", [], map[], [], "", [])
  }

  /** Every node of the program is stored under its own name. */
  ghost predicate WellKeyed(p: Program)
  {
    forall k :: k in p.nodes ==> p.nodes[k].name == k
  }

  /** A snapshot of the listener's state. */
  datatype ListenerState = ListenerState(
    currentNode: Option<Node>,
    currentDebugInfo: DebugInfo,
    debugInfos: seq<DebugInfo>,
    rawTextNode: bool,
    diagnostics: seq<Diagnostic>,
    program: Program)

  /** The state after entering a node. */
  function Entered(s: ListenerState): (r: ListenerState)
    ensures r.currentNode.Some? && IsBlank(r.currentNode.value)
    ensures r.currentDebugInfo == EmptyDebugInfo() && !r.rawTextNode
    ensures r.debugInfos == s.debugInfos && r.diagnostics == s.diagnostics && r.program == s.program
  {
    s.(currentNode := Some(BlankNode()),
       currentDebugInfo := EmptyDebugInfo(),
       rawTextNode := false)
  }

  /** The debug information of the current node, stamped with its node and file names. */
  function Stamped(info: DebugInfo, nodeName: string, fileName: string): DebugInfo
  {
    info.(nodeName := nodeName, fileName := fileName)
  }

  /** The state after exiting the current node of a file named `fileName`. */
  function Exited(s: ListenerState, fileName: string, ctx: NodeContext): (r: ListenerState)
    requires s.currentNode.Some?
    // the current node is cleared in every case
    ensures r.currentNode == None && !r.rawTextNode
    // a node without a name: one diagnostic, nothing else recorded
    ensures s.currentNode.value.name == "" ==>
      && r.diagnostics == s.diagnostics + [MissingTitleDiagnostic(fileName, ctx)]
      && r.program == s.program
      && r.debugInfos == s.debugInfos
      && r.currentDebugInfo == s.currentDebugInfo
    // a named node: no diagnostic, exactly one stamped debug info appended
    ensures s.currentNode.value.name != "" ==>
      && r.diagnostics == s.diagnostics
      && r.currentDebugInfo == Stamped(s.currentDebugInfo, s.currentNode.value.name, fileName)
      && r.debugInfos == s.debugInfos + [r.currentDebugInfo]
    // a new name is inserted, every other entry is kept
    ensures s.currentNode.value.name != "" && s.currentNode.value.name !in s.program.nodes ==>
      && r.program.nodes.Keys == s.program.nodes.Keys + {s.currentNode.value.name}
      && r.program.nodes[s.currentNode.value.name] == s.currentNode.value
      && (forall k :: k in s.program.nodes ==> r.program.nodes[k] == s.program.nodes[k])
    // a name already present: the first node wins
    ensures s.currentNode.value.name in s.program.nodes ==> r.program == s.program
    ensures WellKeyed(s.program) ==> WellKeyed(r.program)
  {
    var node := s.currentNode.value;
    if node.name == "" then
      s.(diagnostics := s.diagnostics + [MissingTitleDiagnostic(fileName, ctx)],
         currentNode := None,
         rawTextNode := false)
    else
      var program := if node.name in s.program.nodes then s.program
                     else s.program.(nodes := s.program.nodes[node.name := node]);
      var info := Stamped(s.currentDebugInfo, node.name, fileName);
      s.(program := program,
         currentDebugInfo := info,
         debugInfos := s.debugInfos + [info],
         currentNode := None,
         rawTextNode := false)
  }

  /** The listener over one parsed file. */
  class CompilerListener {
    /** The node to which instructions are being added. */
    var currentNode: Option<Node>
    /** The debug information of `currentNode`. */
    var currentDebugInfo: DebugInfo
    var debugInfos: seq<DebugInfo>
    /** Whether the current node is compiled as raw text rather than as dialogue. */
    var rawTextNode: bool
    var diagnostics: seq<Diagnostic>
    /** The name of the parsed file being compiled. */
    const fileName: string
    /** The program being generated. */
    var program: Program

    ghost predicate Valid()
      reads this
    {
      WellKeyed(program)
    }

    function State(): ListenerState
      reads this
    {
      ListenerState(currentNode, currentDebugInfo, debugInfos, rawTextNode, diagnostics, program)
    }

    constructor (fileName: string)
      ensures Valid() && this.fileName == fileName
      ensures State() == ListenerState(None, EmptyDebugInfo(), [], false, [], Program(map[]))
    {
      this.fileName := fileName;
      currentNode := None;
      currentDebugInfo := EmptyDebugInfo();
      debugInfos := [];
      rawTextNode := false;
      diagnostics := [];
      program := Program(map[]);
    }

    /** Starts a new, blank node and resets the per-node state. */
    method EnterNode()
      requires Valid()
      modifies this
      ensures Valid()
      ensures State() == Entered(old(State()))
    {
      currentNode := Some(BlankNode());
      currentDebugInfo := EmptyDebugInfo();
      rawTextNode := false;
    }

    /** Finishes the current node; the Rust code unwraps it, so one must be present. */
    method ExitNode(ctx: NodeContext)
      requires Valid() && currentNode.Some?
      modifies this
      ensures Valid()
      ensures State() == Exited(old(State()), fileName, ctx)
    {
      var name := currentNode.value.name;
      if name == "" {
        diagnostics := diagnostics + [MissingTitleDiagnostic(fileName, ctx)];
      } else {
        if name !in program.nodes {
          program := program.(nodes := program.nodes[name := currentNode.value]);
        }
        currentDebugInfo := Stamped(currentDebugInfo, name, fileName);
        debugInfos := debugInfos + [currentDebugInfo];
      }
      currentNode := None;
      rawTextNode := false;
    }
  }

  // ---------------------------------------------------------------------
  // Walking the nodes of a file
  // ---------------------------------------------------------------------

  /**
   * One node as the walk over a file meets it: the node and debug information
   * its body produced, and its parse context.
   */
  datatype NodeVisit = NodeVisit(built: Node, debugInfo: DebugInfo, ctx: NodeContext)

  /** Enter a node, let its body produce `v.built` and `v.debugInfo`, exit it. */
  function Visit(s: ListenerState, fileName: string, v: NodeVisit): ListenerState
  {
    Exited(Entered(s).(currentNode := Some(v.built), currentDebugInfo := v.debugInfo), fileName, v.ctx)
  }

  /** The nodes of a file, visited in order. */
  function VisitAll(s: ListenerState, fileName: string, visits: seq<NodeVisit>): ListenerState
    decreases |visits|
  {
    if visits == [] then s
    else Visit(VisitAll(s, fileName, visits[..|visits| - 1]), fileName, visits[|visits| - 1])
  }

  /** The non-empty node names among `visits`. */
  function Names(visits: seq<NodeVisit>): set<string>
  {
    set i | 0 <= i < |visits| && visits[i].built.name != "" :: visits[i].built.name
  }

  /** How many of `visits` have a name. */
  function NamedCount(visits: seq<NodeVisit>): nat
    decreases |visits|
  {
    if visits == [] then 0
    else NamedCount(visits[..|visits| - 1]) + (if visits[|visits| - 1].built.name != "" then 1 else 0)
  }

  /** The names of `visits` are those of all but the last, plus the last one's if it has one. */
  lemma NamesSnoc(visits: seq<NodeVisit>)
    requires visits != []
    ensures var last := visits[|visits| - 1].built.name;
      Names(visits) == Names(visits[..|visits| - 1]) + (if last != "" then {last} else {})
  {
    var n := |visits| - 1;
    forall k | k in Names(visits) ensures k in Names(visits[..n]) || k == visits[n].built.name {
      var i :| 0 <= i < |visits| && visits[i].built.name != "" && visits[i].built.name == k;
      if i < n { assert visits[..n][i] == visits[i]; }
    }
    forall k | k in Names(visits[..n]) ensures k in Names(visits) {
      var i :| 0 <= i < n && visits[..n][i].built.name != "" && visits[..n][i].built.name == k;
      assert visits[i].built.name == k;
    }
  }

  /**
   * After walking a file's nodes, the program's names are the earlier ones
   * plus every non-empty node name, earlier entries are untouched, one debug
   * info is kept per named node and one diagnostic is added per unnamed node.
   */
  lemma {:induction false} VisitAllKeys(s: ListenerState, fileName: string, visits: seq<NodeVisit>)
    ensures var r := VisitAll(s, fileName, visits);
      && r.program.nodes.Keys == s.program.nodes.Keys + Names(visits)
      && (forall k :: k in s.program.nodes ==> r.program.nodes[k] == s.program.nodes[k])
      && |r.debugInfos| == |s.debugInfos| + NamedCount(visits)
      && |r.diagnostics| == |s.diagnostics| + (|visits| - NamedCount(visits))
    decreases |visits|
  {
    if visits != [] {
      var n := |visits| - 1;
      VisitAllKeys(s, fileName, visits[..n]);
      NamesSnoc(visits);
      assert NamedCount(visits[..n]) <= n by { NamedCountBound(visits[..n]); }
    }
  }

  /**
   * A walk over a file's nodes keeps the program well keyed: looking up a
   * name, before or after the walk, yields the node of that name.
   */
  lemma {:induction false} VisitAllWellKeyed(s: ListenerState, fileName: string, visits: seq<NodeVisit>)
    requires WellKeyed(s.program)
    ensures WellKeyed(VisitAll(s, fileName, visits).program)
    decreases |visits|
  {
    if visits != [] {
      VisitAllWellKeyed(s, fileName, visits[..|visits| - 1]);
    }
  }

  lemma {:induction false} NamedCountBound(visits: seq<NodeVisit>)
    ensures NamedCount(visits) <= |visits|
    decreases |visits|
  {
    if visits != [] {
      NamedCountBound(visits[..|visits| - 1]);
    }
  }

  /**
   * The first node of a name wins: a named node whose name was not yet in the
   * program and that no earlier node of the walk carries ends up in the program.
   */
  lemma {:induction false} FirstNodeWins(s: ListenerState, fileName: string, visits: seq<NodeVisit>, i: nat)
    requires i < |visits| && visits[i].built.name != ""
    requires visits[i].built.name !in s.program.nodes
    requires forall j :: 0 <= j < i ==> visits[j].built.name != visits[i].built.name
    ensures visits[i].built.name in VisitAll(s, fileName, visits).program.nodes
    ensures VisitAll(s, fileName, visits).program.nodes[visits[i].built.name] == visits[i].built
    decreases |visits|
  {
    var n := |visits| - 1;
    var name := visits[i].built.name;
    var before := VisitAll(s, fileName, visits[..n]);
    var last := visits[n];
    var entered := Entered(before).(currentNode := Some(last.built), currentDebugInfo := last.debugInfo);
    assert entered.program == before.program;
    assert VisitAll(s, fileName, visits) == Exited(entered, fileName, last.ctx);
    if i < n {
      assert visits[..n][i] == visits[i];
      FirstNodeWins(s, fileName, visits[..n], i);
      assert name in entered.program.nodes && entered.program.nodes[name] == visits[i].built;
    } else {
      VisitAllKeys(s, fileName, visits[..n]);
      assert name !in Names(visits[..n]);
      assert name !in entered.program.nodes;
    }
  }

  /**
   * A successful lookup in the debug information kept for a named node
   * reports that node's name and the file's name.
   */
  lemma ExitedLineInfoNamesNode(s: ListenerState, fileName: string, ctx: NodeContext, instructionNumber: nat)
    requires s.currentNode.Some? && s.currentNode.value.name != ""
    requires instructionNumber in s.currentDebugInfo.linePositions
    ensures var kept := Exited(s, fileName, ctx).debugInfos;
      TryGetLineInfo(kept[|kept| - 1], instructionNumber)
        == Some(LineInfo(fileName, s.currentNode.value.name, s.currentDebugInfo.linePositions[instructionNumber]))
  {
  }
}
