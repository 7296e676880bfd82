/**
 * Per-node debug information: which source position produced each emitted
 * instruction, and the two accessors over it.
 */
module DebugInfos {
  import opened Wrappers
  import opened Output

  /** The debug information of one node in one file. */
  datatype DebugInfo = DebugInfo(
    fileName: string,
    nodeName: string,
    linePositions: map<nat, Position>)

  /** The position of one instruction, with the file and node it came from. */
  datatype LineInfo = LineInfo(fileName: string, nodeName: string, position: Position)

  /** The default debug information the listener starts each node from: no names, no recorded positions. */
  function EmptyDebugInfo(): DebugInfo
  {
    DebugInfo("", "", map[])
  }

  /**
   * The fallible lookup: a value exactly when a position was recorded for
   * `instructionNumber`, carrying the debug info's own file and node names.
   */
  function TryGetLineInfo(info: DebugInfo, instructionNumber: nat): (r: Option<LineInfo>)
    ensures r.Some? <==> instructionNumber in info.linePositions
    ensures r.Some? ==>
      && r.value.fileName == info.fileName
      && r.value.nodeName == info.nodeName
      && r.value.position == info.linePositions[instructionNumber]
  {
    if instructionNumber in info.linePositions then
      Some(LineInfo(info.fileName, info.nodeName, info.linePositions[instructionNumber]))
    else
      None
  }

  /**
   * The strict lookup. The Rust code panics on any instruction number without a
   * recorded position, so the caller must supply one that was recorded.
   */
  function GetLineInfo(info: DebugInfo, instructionNumber: nat): (r: LineInfo)
    requires instructionNumber in info.linePositions
    ensures TryGetLineInfo(info, instructionNumber) == Some(r)
    ensures r.position == info.linePositions[instructionNumber]
    ensures r.fileName == info.fileName && r.nodeName == info.nodeName
  {
    TryGetLineInfo(info, instructionNumber).value
  }
}
