/**
 * The compilation pipeline: a job is compiled by folding an ordered list of
 * passes over an intermediate state that holds the result so far and the
 * parsed files. Two passes exist: register the strings of every file (parsing
 * each one on the way), then collect each parsed file's declarations.
 *
 * The parser and the tree visitors are collaborators whose code is not part
 * of this model; they are given as functions in `Collaborators`, and the
 * model proves how their outputs are accumulated.
 */
module Compiler {
  import opened Wrappers
  import opened Output
  import opened DebugInfos

  // ---------------------------------------------------------------------
  // Jobs, results and the intermediate state
  // ---------------------------------------------------------------------

  /** A source file of a job. */
  datatype File = File(fileName: string, source: string)

  datatype CompilationType = FullCompilation | StringsOnly | TypeCheck

  /** What to compile. Read-only for the whole pipeline run. */
  datatype CompilationJob = CompilationJob(
    files: seq<File>,
    compilationType: CompilationType,
    variableDeclarations: seq<Declaration>)

  /** A parsed syntax tree and a token stream; their structure belongs to the parser. */
  type SyntaxTree
  type TokenStream

  /** A parsed file: its name, its tree and its tokens. */
  datatype FileParseResult = FileParseResult(name: string, tree: SyntaxTree, tokens: TokenStream)

  type StringTable = map<string, StringInfo>

  /** The output of compilation, built up pass by pass. */
  datatype CompilationResult = CompilationResult(
    program: Option<Program>,
    stringTable: StringTable,
    declarations: Option<seq<Declaration>>,
    fileTags: map<string, seq<string>>,
    diagnostics: seq<Diagnostic>,
    debugInfos: Option<seq<DebugInfo>>)

  /** The state threaded from pass to pass. */
  datatype CompilationIntermediate = CompilationIntermediate(
    result: CompilationResult,
    parsedFiles: seq<FileParseResult>)

  /** `CompilationIntermediate::default()`. */
  function InitialIntermediate(): (r: CompilationIntermediate)
    ensures r.result.program == None && r.result.declarations == None && r.result.debugInfos == None
    ensures r.result.stringTable == map[] && r.result.fileTags == map[] && r.result.diagnostics == []
    ensures r.parsedFiles == []
  {
    CompilationIntermediate(CompilationResult(None, map[], None, map[], [], None), [])
  }

  // ---------------------------------------------------------------------
  // Collaborators
  // ---------------------------------------------------------------------

  /** What the parser returns for one file, with the syntax diagnostics it reports. */
  datatype ParseOutput = ParseOutput(parsed: FileParseResult, diagnostics: seq<Diagnostic>)

  /** What the string-table generator leaves behind for one file. */
  datatype StringsOutput = StringsOutput(diagnostics: seq<Diagnostic>, table: StringTable)

  /** What the declaration visitor leaves behind for one file. */
  datatype DeclarationsOutput = DeclarationsOutput(
    diagnostics: seq<Diagnostic>,
    newDeclarations: seq<Declaration>,
    fileTags: seq<string>)

  /**
   * The parser and the visitors:
   *  - `parseSyntaxTree` parses one file;
   *  - `tagLastLines` marks the last line before each group of options;
   *  - `generateStrings(fileName, tree, table)` is the string-table visitor
   *    started from a copy of the table so far; `table` of its output is the
   *    visitor's whole table afterwards;
   *  - `visitDeclarations(fileName, known, constructible, tree, tokens)` is the
   *    declaration visitor seeded with the known declarations and the
   *    explicitly constructible types.
   */
  datatype Collaborators = Collaborators(
    parseSyntaxTree: File -> ParseOutput,
    tagLastLines: SyntaxTree -> SyntaxTree,
    generateStrings: (string, SyntaxTree, StringTable) -> StringsOutput,
    visitDeclarations: (string, seq<Declaration>, seq<BuiltinType>, SyntaxTree, TokenStream) -> DeclarationsOutput)

  /** The builtin types a declaration may name in an `as Type` coercion. */
  function ExplicitlyConstructibleTypes(): (r: seq<BuiltinType>)
    ensures forall t :: t in r <==> !t.Undefined?
    ensures |r| == 4
    ensures forall i, j :: 0 <= i < j < |r| ==> r[i] != r[j]
  {
    [Any, Number, String, Boolean]
  }

  // ---------------------------------------------------------------------
  // The register-strings pass
  // ---------------------------------------------------------------------

  /** The parse result that the pass keeps for `file`: its tree carries the last-line tags. */
  function ParsedFile(c: Collaborators, file: File): FileParseResult
  {
    var parsed := c.parseSyntaxTree(file).parsed;
    parsed.(tree := c.tagLastLines(parsed.tree))
  }

  /** The parse results kept for `files`, in order. */
  function ParsedFiles(c: Collaborators, files: seq<File>): (r: seq<FileParseResult>)
    decreases |files|
  {
    if files == [] then []
    else ParsedFiles(c, files[..|files| - 1]) + [ParsedFile(c, files[|files| - 1])]
  }

  /** The loop state of the pass: the intermediate state and the string-table manager. */
  datatype RegisterAcc = RegisterAcc(state: CompilationIntermediate, manager: StringTable)

  /** One iteration of the loop over the job's files. */
  function RegisterFile(c: Collaborators, file: File, acc: RegisterAcc): RegisterAcc
  {
    var parse := c.parseSyntaxTree(file);
    var parsed := ParsedFile(c, file);
    var strings := c.generateStrings(file.fileName, parsed.tree, acc.manager);
    var result := acc.state.result;
    RegisterAcc(
      CompilationIntermediate(
        result.(diagnostics := result.diagnostics + parse.diagnostics + strings.diagnostics),
        acc.state.parsedFiles + [parsed]),
      acc.manager + strings.table)
  }

  /** The loop over `files`, in order. */
  function RegisterFiles(c: Collaborators, files: seq<File>, acc: RegisterAcc): RegisterAcc
    decreases |files|
  {
    if files == [] then acc
    else RegisterFile(c, files[|files| - 1], RegisterFiles(c, files[..|files| - 1], acc))
  }

  /** The state after the register-strings pass. */
  function AfterRegisterStrings(job: CompilationJob, c: Collaborators, st: CompilationIntermediate): CompilationIntermediate
  {
    var acc := RegisterFiles(c, job.files, RegisterAcc(st, st.result.stringTable));
    acc.state.(result := acc.state.result.(stringTable := acc.manager))
  }

  /**
   * The register-strings pass: parse each file, tag its last lines, run the
   * string-table generator over it and merge the generated entries.
   */
  method RegisterStrings(job: CompilationJob, c: Collaborators, st: CompilationIntermediate)
    returns (next: CompilationIntermediate)
    ensures next == AfterRegisterStrings(job, c, st)
    ensures next.parsedFiles == st.parsedFiles + ParsedFiles(c, job.files)
    ensures next.result.diagnostics == st.result.diagnostics + RegisterDiagnostics(c, job.files, RegisterAcc(st, st.result.stringTable))
  {
    var state := st;
    var manager := st.result.stringTable;
    for i := 0 to |job.files|
      invariant RegisterAcc(state, manager) == RegisterFiles(c, job.files[..i], RegisterAcc(st, st.result.stringTable))
    {
      var file := job.files[i];
      var parse := c.parseSyntaxTree(file);
      state := state.(result := state.result.(diagnostics := state.result.diagnostics + parse.diagnostics));
      var tree := c.tagLastLines(parse.parsed.tree);
      var strings := c.generateStrings(file.fileName, tree, manager);
      state := state.(result := state.result.(diagnostics := state.result.diagnostics + strings.diagnostics));
      manager := manager + strings.table;
      state := state.(parsedFiles := state.parsedFiles + [parse.parsed.(tree := tree)]);
      assert job.files[..i + 1][..i] == job.files[..i];
    }
    assert job.files[..|job.files|] == job.files;
    next := state.(result := state.result.(stringTable := manager));
    RegisterFilesParsed(c, job.files, RegisterAcc(st, st.result.stringTable));
    RegisterFilesDiagnostics(c, job.files, RegisterAcc(st, st.result.stringTable));
  }

  /** The pass keeps one parse result per file, in job order, after the ones already held. */
  lemma {:induction false} RegisterFilesParsed(c: Collaborators, files: seq<File>, acc: RegisterAcc)
    ensures RegisterFiles(c, files, acc).state.parsedFiles == acc.state.parsedFiles + ParsedFiles(c, files)
    decreases |files|
  {
    if files != [] {
      var n := |files| - 1;
      RegisterFilesParsed(c, files[..n], acc);
      assert acc.state.parsedFiles + ParsedFiles(c, files[..n]) + [ParsedFile(c, files[n])]
          == acc.state.parsedFiles + (ParsedFiles(c, files[..n]) + [ParsedFile(c, files[n])]);
    }
  }

  /** The i-th kept parse result is that of the i-th file. */
  lemma {:induction false} ParsedFilesAt(c: Collaborators, files: seq<File>)
    ensures |ParsedFiles(c, files)| == |files|
    ensures forall i :: 0 <= i < |files| ==> ParsedFiles(c, files)[i] == ParsedFile(c, files[i])
    decreases |files|
  {
    if files != [] {
      var n := |files| - 1;
      ParsedFilesAt(c, files[..n]);
    }
  }

  /**
   * Within the pass, diagnostics only grow (earlier ones are kept in place),
   * the string-table manager only gains keys, and nothing else of the result changes.
   */
  lemma {:induction false} RegisterFilesMonotone(c: Collaborators, files: seq<File>, acc: RegisterAcc)
    ensures var r := RegisterFiles(c, files, acc);
      && acc.state.result.diagnostics <= r.state.result.diagnostics
      && acc.manager.Keys <= r.manager.Keys
      && r.state.result.(diagnostics := acc.state.result.diagnostics) == acc.state.result
    decreases |files|
  {
    if files != [] {
      var n := |files| - 1;
      RegisterFilesMonotone(c, files[..n], acc);
    }
  }

  /**
   * The entries the string-table generator returns for the `i`-th file: it is
   * run on that file's tagged tree, starting from the table merged so far.
   */
  function Generated(c: Collaborators, files: seq<File>, acc: RegisterAcc, i: nat): StringTable
    requires i < |files|
  {
    c.generateStrings(files[i].fileName, ParsedFile(c, files[i]).tree, RegisterFiles(c, files[..i], acc).manager).table
  }

  /** What the generator returns for a file does not depend on the files after it. */
  lemma GeneratedPrefix(c: Collaborators, files: seq<File>, acc: RegisterAcc, n: nat, i: nat)
    requires i < n <= |files|
    ensures Generated(c, files[..n], acc, i) == Generated(c, files, acc, i)
  {
    assert files[..n][..i] == files[..i];
  }

  /** Every entry the generator returns for some file has a key in the merged table. */
  lemma {:induction false} TableReach(c: Collaborators, files: seq<File>, acc: RegisterAcc)
    ensures forall i, key :: 0 <= i < |files| && key in Generated(c, files, acc, i) ==> key in RegisterFiles(c, files, acc).manager
    decreases |files|
  {
    if files != [] {
      var n := |files| - 1;
      TableReach(c, files[..n], acc);
      forall i, key | 0 <= i < |files| && key in Generated(c, files, acc, i)
        ensures key in RegisterFiles(c, files, acc).manager
      {
        if i < n {
          GeneratedPrefix(c, files, acc, n, i);
        }
      }
    }
  }

  /**
   * Later files win: the merged value under a key is that of the last file
   * whose generator returned the key.
   */
  lemma {:induction false} TableLaterWins(c: Collaborators, files: seq<File>, acc: RegisterAcc)
    ensures forall i, key :: 0 <= i < |files| && key in Generated(c, files, acc, i)
              && (forall j :: i < j < |files| ==> key !in Generated(c, files, acc, j))
              ==> key in RegisterFiles(c, files, acc).manager
                  && RegisterFiles(c, files, acc).manager[key] == Generated(c, files, acc, i)[key]
    decreases |files|
  {
    if files != [] {
      var n := |files| - 1;
      TableLaterWins(c, files[..n], acc);
      forall i, key | 0 <= i < |files| && key in Generated(c, files, acc, i)
              && (forall j :: i < j < |files| ==> key !in Generated(c, files, acc, j))
        ensures key in RegisterFiles(c, files, acc).manager
        ensures RegisterFiles(c, files, acc).manager[key] == Generated(c, files, acc, i)[key]
      {
        if i < n {
          assert key !in Generated(c, files, acc, n);
          GeneratedPrefix(c, files, acc, n, i);
          forall j | i < j < n ensures key !in Generated(c, files[..n], acc, j) {
            GeneratedPrefix(c, files, acc, n, j);
          }
        }
      }
    }
  }

  /** A starting entry whose key no generator returned is kept as it was. */
  lemma {:induction false} TableKeepsStart(c: Collaborators, files: seq<File>, acc: RegisterAcc)
    ensures forall key :: key in acc.manager && (forall j :: 0 <= j < |files| ==> key !in Generated(c, files, acc, j))
              ==> key in RegisterFiles(c, files, acc).manager && RegisterFiles(c, files, acc).manager[key] == acc.manager[key]
    decreases |files|
  {
    if files != [] {
      var n := |files| - 1;
      TableKeepsStart(c, files[..n], acc);
      forall key | key in acc.manager && (forall j :: 0 <= j < |files| ==> key !in Generated(c, files, acc, j))
        ensures key in RegisterFiles(c, files, acc).manager && RegisterFiles(c, files, acc).manager[key] == acc.manager[key]
      {
        assert key !in Generated(c, files, acc, n);
        forall j | 0 <= j < n ensures key !in Generated(c, files[..n], acc, j) {
          GeneratedPrefix(c, files, acc, n, j);
        }
      }
    }
  }

  /** Every key of the merged table was there at the start or was returned by a generator. */
  lemma {:induction false} TableNoStray(c: Collaborators, files: seq<File>, acc: RegisterAcc)
    ensures forall key :: key in RegisterFiles(c, files, acc).manager ==>
              key in acc.manager || exists j :: 0 <= j < |files| && key in Generated(c, files, acc, j)
    decreases |files|
  {
    if files != [] {
      var n := |files| - 1;
      TableNoStray(c, files[..n], acc);
      forall key | key in RegisterFiles(c, files, acc).manager
        ensures key in acc.manager || exists j :: 0 <= j < |files| && key in Generated(c, files, acc, j)
      {
        if key !in Generated(c, files, acc, n) && key !in acc.manager {
          var j :| 0 <= j < n && key in Generated(c, files[..n], acc, j);
          GeneratedPrefix(c, files, acc, n, j);
        }
      }
    }
  }

  /**
   * The pass's string table holds every entry the generator returned, a later
   * file's entry winning over an earlier one and over the table it started from.
   */
  lemma RegisterStringsTable(job: CompilationJob, c: Collaborators, st: CompilationIntermediate)
    ensures var table := AfterRegisterStrings(job, c, st).result.stringTable;
      var acc := RegisterAcc(st, st.result.stringTable);
      && (forall i, key :: 0 <= i < |job.files| && key in Generated(c, job.files, acc, i) ==> key in table)
      && (forall i, key :: 0 <= i < |job.files| && key in Generated(c, job.files, acc, i)
            && (forall j :: i < j < |job.files| ==> key !in Generated(c, job.files, acc, j))
            ==> table[key] == Generated(c, job.files, acc, i)[key])
      && (forall key :: key in st.result.stringTable && (forall j :: 0 <= j < |job.files| ==> key !in Generated(c, job.files, acc, j))
            ==> key in table && table[key] == st.result.stringTable[key])
      && (forall key :: key in table ==> key in st.result.stringTable || exists j :: 0 <= j < |job.files| && key in Generated(c, job.files, acc, j))
  {
    var acc := RegisterAcc(st, st.result.stringTable);
    TableReach(c, job.files, acc);
    TableLaterWins(c, job.files, acc);
    TableKeepsStart(c, job.files, acc);
    TableNoStray(c, job.files, acc);
  }

  /**
   * The diagnostics the pass reports for `files`, file after file: the
   * parser's syntax errors for the file, then the string-table generator's.
   */
  function RegisterDiagnostics(c: Collaborators, files: seq<File>, acc: RegisterAcc): seq<Diagnostic>
    decreases |files|
  {
    if files == [] then []
    else
      var n := |files| - 1;
      var f := files[n];
      RegisterDiagnostics(c, files[..n], acc)
        + c.parseSyntaxTree(f).diagnostics
        + c.generateStrings(f.fileName, ParsedFile(c, f).tree, RegisterFiles(c, files[..n], acc).manager).diagnostics
  }

  /** The pass appends exactly the parser's and the generator's diagnostics, in file order. */
  lemma {:induction false} RegisterFilesDiagnostics(c: Collaborators, files: seq<File>, acc: RegisterAcc)
    ensures RegisterFiles(c, files, acc).state.result.diagnostics == acc.state.result.diagnostics + RegisterDiagnostics(c, files, acc)
    decreases |files|
  {
    if files != [] {
      var n := |files| - 1;
      var f := files[n];
      var parse := c.parseSyntaxTree(f).diagnostics;
      var strings := c.generateStrings(f.fileName, ParsedFile(c, f).tree, RegisterFiles(c, files[..n], acc).manager).diagnostics;
      RegisterFilesDiagnostics(c, files[..n], acc);
      assert acc.state.result.diagnostics + RegisterDiagnostics(c, files[..n], acc) + parse + strings
          == acc.state.result.diagnostics + (RegisterDiagnostics(c, files[..n], acc) + parse + strings);
    }
  }

  /** Every syntax error the parser reports for a file of the list is among the pass's diagnostics. */
  lemma {:induction false} RegisterDiagnosticsHasParse(c: Collaborators, files: seq<File>, acc: RegisterAcc, i: nat)
    requires i < |files|
    ensures forall d :: d in c.parseSyntaxTree(files[i]).diagnostics ==> d in RegisterDiagnostics(c, files, acc)
    decreases |files|
  {
    var n := |files| - 1;
    if i < n {
      RegisterDiagnosticsHasParse(c, files[..n], acc, i);
      assert files[..n][i] == files[i];
    }
  }

  /**
   * The register-strings pass keeps the earlier diagnostics as a prefix, keeps
   * every earlier string-table key, and leaves the program, declarations, file
   * tags and debug information as they were.
   */
  lemma RegisterStringsPreserves(job: CompilationJob, c: Collaborators, st: CompilationIntermediate)
    ensures var next := AfterRegisterStrings(job, c, st);
      && st.result.diagnostics <= next.result.diagnostics
      && next.result.diagnostics == st.result.diagnostics + RegisterDiagnostics(c, job.files, RegisterAcc(st, st.result.stringTable))
      && st.result.stringTable.Keys <= next.result.stringTable.Keys
      && next.result.program == st.result.program
      && next.result.declarations == st.result.declarations
      && next.result.fileTags == st.result.fileTags
      && next.result.debugInfos == st.result.debugInfos
      && (job.files == [] ==> next == st)
  {
    RegisterFilesMonotone(c, job.files, RegisterAcc(st, st.result.stringTable));
    RegisterFilesDiagnostics(c, job.files, RegisterAcc(st, st.result.stringTable));
  }

  // ---------------------------------------------------------------------
  // The declarations pass
  // ---------------------------------------------------------------------

  /** The declaration visitor's output for one parsed file, seeded with `known`. */
  function DeclarationsOf(c: Collaborators, known: seq<Declaration>, file: FileParseResult): DeclarationsOutput
  {
    c.visitDeclarations(file.name, known, ExplicitlyConstructibleTypes(), file.tree, file.tokens)
  }

  /** One iteration of the loop over the parsed files. */
  function DeclareFile(c: Collaborators, known: seq<Declaration>, file: FileParseResult, r: CompilationResult): CompilationResult
  {
    var out := DeclarationsOf(c, known, file);
    r.(diagnostics := r.diagnostics + out.diagnostics,
       declarations := Some(match r.declarations
                            case Some(ds) => ds + out.newDeclarations
                            case None => out.newDeclarations),
       fileTags := r.fileTags[file.name := out.fileTags])
  }

  /** The loop over `files`, in order. */
  function DeclareFiles(c: Collaborators, known: seq<Declaration>, files: seq<FileParseResult>, r: CompilationResult): CompilationResult
    decreases |files|
  {
    if files == [] then r
    else DeclareFile(c, known, files[|files| - 1], DeclareFiles(c, known, files[..|files| - 1], r))
  }

  /** The state after the declarations pass: every file's visitor is seeded with the job's declarations. */
  function AfterGetDeclarations(job: CompilationJob, c: Collaborators, st: CompilationIntermediate): CompilationIntermediate
  {
    st.(result := DeclareFiles(c, job.variableDeclarations, st.parsedFiles, st.result))
  }

  /** The declarations the visitors find in `files`, file after file. */
  function NewDeclarations(c: Collaborators, known: seq<Declaration>, files: seq<FileParseResult>): seq<Declaration>
    decreases |files|
  {
    if files == [] then []
    else NewDeclarations(c, known, files[..|files| - 1]) + DeclarationsOf(c, known, files[|files| - 1]).newDeclarations
  }

  /** The diagnostics the visitors report for `files`, file after file. */
  function DeclarationDiagnostics(c: Collaborators, known: seq<Declaration>, files: seq<FileParseResult>): seq<Diagnostic>
    decreases |files|
  {
    if files == [] then []
    else DeclarationDiagnostics(c, known, files[..|files| - 1]) + DeclarationsOf(c, known, files[|files| - 1]).diagnostics
  }

  /** The declarations held before a pass, an absent list read as empty. */
  function Prior(declarations: Option<seq<Declaration>>): seq<Declaration>
  {
    match declarations
    case Some(ds) => ds
    case None => []
  }

  /**
   * The declarations pass: run the declaration visitor over every parsed file
   * and record its diagnostics, declarations and file tags.
   */
  method GetDeclarations(job: CompilationJob, c: Collaborators, st: CompilationIntermediate)
    returns (next: CompilationIntermediate)
    ensures next == AfterGetDeclarations(job, c, st)
    ensures next.result.diagnostics == st.result.diagnostics + DeclarationDiagnostics(c, job.variableDeclarations, st.parsedFiles)
    ensures next.result.declarations ==
              if st.parsedFiles == [] then st.result.declarations
              else Some(Prior(st.result.declarations) + NewDeclarations(c, job.variableDeclarations, st.parsedFiles))
  {
    var state := st;
    for i := 0 to |st.parsedFiles|
      invariant state.parsedFiles == st.parsedFiles
      invariant state.result == DeclareFiles(c, job.variableDeclarations, st.parsedFiles[..i], st.result)
    {
      var file := state.parsedFiles[i];
      var visitor := c.visitDeclarations(file.name, job.variableDeclarations, ExplicitlyConstructibleTypes(), file.tree, file.tokens);
      state := state.(result := state.result.(diagnostics := state.result.diagnostics + visitor.diagnostics));
      if state.result.declarations.Some? {
        state := state.(result := state.result.(declarations := Some(state.result.declarations.value + visitor.newDeclarations)));
      } else {
        state := state.(result := state.result.(declarations := Some(visitor.newDeclarations)));
      }
      state := state.(result := state.result.(fileTags := state.result.fileTags[file.name := visitor.fileTags]));
      assert st.parsedFiles[..i + 1][..i] == st.parsedFiles[..i];
    }
    assert st.parsedFiles[..|st.parsedFiles|] == st.parsedFiles;
    next := state;
    DeclareFilesDiagnostics(c, job.variableDeclarations, st.parsedFiles, st.result);
    DeclareFilesDeclarations(c, job.variableDeclarations, st.parsedFiles, st.result);
  }

  /** The declarations pass appends each file's diagnostics, in file order, after the earlier ones. */
  lemma {:induction false} DeclareFilesDiagnostics(c: Collaborators, known: seq<Declaration>, files: seq<FileParseResult>, r: CompilationResult)
    ensures DeclareFiles(c, known, files, r).diagnostics == r.diagnostics + DeclarationDiagnostics(c, known, files)
    decreases |files|
  {
    if files != [] {
      var n := |files| - 1;
      DeclareFilesDiagnostics(c, known, files[..n], r);
      assert r.diagnostics + DeclarationDiagnostics(c, known, files[..n]) + DeclarationsOf(c, known, files[n]).diagnostics
          == r.diagnostics + (DeclarationDiagnostics(c, known, files[..n]) + DeclarationsOf(c, known, files[n]).diagnostics);
    }
  }

  /**
   * The declaration list stays as it was when there are no files; otherwise it
   * becomes present and holds the earlier declarations followed by each file's
   * new declarations, in file order.
   */
  lemma {:induction false} DeclareFilesDeclarations(c: Collaborators, known: seq<Declaration>, files: seq<FileParseResult>, r: CompilationResult)
    ensures DeclareFiles(c, known, files, r).declarations ==
              if files == [] then r.declarations
              else Some(Prior(r.declarations) + NewDeclarations(c, known, files))
    decreases |files|
  {
    if files != [] {
      var n := |files| - 1;
      var out := DeclarationsOf(c, known, files[n]);
      DeclareFilesDeclarations(c, known, files[..n], r);
      if n == 0 {
        assert files[..n] == [];
        assert [] + out.newDeclarations == out.newDeclarations;
        assert Prior(r.declarations) + ([] + out.newDeclarations) == Prior(r.declarations) + out.newDeclarations;
      } else {
        var earlier := Prior(r.declarations);
        var found := NewDeclarations(c, known, files[..n]);
        assert earlier + found + out.newDeclarations == earlier + (found + out.newDeclarations);
      }
    }
  }

  /** The names of the parsed files. */
  function FileNames(files: seq<FileParseResult>): set<string>
  {
    set i | 0 <= i < |files| :: files[i].name
  }

  /** The names of `files` are those of all but the last, plus the last one's. */
  lemma FileNamesSnoc(files: seq<FileParseResult>)
    requires files != []
    ensures FileNames(files) == FileNames(files[..|files| - 1]) + {files[|files| - 1].name}
  {
    var n := |files| - 1;
    forall k | k in FileNames(files) ensures k in FileNames(files[..n]) + {files[n].name} {
      var i :| 0 <= i < |files| && files[i].name == k;
      if i < n { assert files[..n][i] == files[i]; }
    }
    forall k | k in FileNames(files[..n]) ensures k in FileNames(files) {
      var i :| 0 <= i < n && files[..n][i].name == k;
      assert files[i].name == k;
    }
  }

  /**
   * After the pass, `fileTags` has a key for every parsed file's name, and
   * every key that is not such a name keeps its value.
   */
  lemma {:induction false} DeclareFilesFileTagKeys(c: Collaborators, known: seq<Declaration>, files: seq<FileParseResult>, r: CompilationResult)
    ensures var tags := DeclareFiles(c, known, files, r).fileTags;
      && tags.Keys == r.fileTags.Keys + FileNames(files)
      && (forall k :: k in r.fileTags && k !in FileNames(files) ==> tags[k] == r.fileTags[k])
    decreases |files|
  {
    if files != [] {
      DeclareFilesFileTagKeys(c, known, files[..|files| - 1], r);
      FileNamesSnoc(files);
    }
  }

  /**
   * The tags recorded under a parsed file's name are those the visitor found
   * in the LAST parsed file of that name: a later file overwrites an earlier one.
   */
  lemma {:induction false} DeclareFilesFileTags(c: Collaborators, known: seq<Declaration>, files: seq<FileParseResult>, r: CompilationResult, i: nat)
    requires i < |files|
    requires forall j :: i < j < |files| ==> files[j].name != files[i].name
    ensures files[i].name in DeclareFiles(c, known, files, r).fileTags
    ensures DeclareFiles(c, known, files, r).fileTags[files[i].name] == DeclarationsOf(c, known, files[i]).fileTags
    decreases |files|
  {
    var n := |files| - 1;
    if i < n {
      assert files[..n][i] == files[i];
      DeclareFilesFileTags(c, known, files[..n], r, i);
    }
  }

  /** The declarations pass changes neither the program, nor the string table, nor the debug information. */
  lemma {:induction false} DeclareFilesKeepsOthers(c: Collaborators, known: seq<Declaration>, files: seq<FileParseResult>, r: CompilationResult)
    ensures var next := DeclareFiles(c, known, files, r);
      && next.program == r.program
      && next.stringTable == r.stringTable
      && next.debugInfos == r.debugInfos
    decreases |files|
  {
    if files != [] {
      DeclareFilesKeepsOthers(c, known, files[..|files| - 1], r);
    }
  }

  /**
   * Each file's share of the declarations is what its visitor finds when it
   * is seeded with the job's own declarations, whatever came before it: the
   * declarations of earlier files in the same run are not passed on. The
   * share of the `k`-th parsed file follows the prior list and the shares of
   * the files before it.
   */
  lemma DeclarationsNotFedForward(job: CompilationJob, c: Collaborators, st: CompilationIntermediate, k: nat)
    requires k < |st.parsedFiles|
    ensures AfterGetDeclarations(job, c, st).result.declarations.Some?
    ensures var f := st.parsedFiles[k];
            var out := c.visitDeclarations(f.name, job.variableDeclarations, ExplicitlyConstructibleTypes(), f.tree, f.tokens);
            Prior(st.result.declarations) + NewDeclarations(c, job.variableDeclarations, st.parsedFiles[..k]) + out.newDeclarations
              <= AfterGetDeclarations(job, c, st).result.declarations.value
  {
    var files := st.parsedFiles;
    var known := job.variableDeclarations;
    DeclareFilesDeclarations(c, known, files, st.result);
    NewDeclarationsGrow(c, known, files, k + 1);
    assert files[..k + 1][..k] == files[..k];
  }

  /** The declarations found in a prefix of the files are a prefix of those found in all of them. */
  lemma {:induction false} NewDeclarationsGrow(c: Collaborators, known: seq<Declaration>, files: seq<FileParseResult>, m: nat)
    requires m <= |files|
    ensures NewDeclarations(c, known, files[..m]) <= NewDeclarations(c, known, files)
    decreases |files|
  {
    if m < |files| {
      var n := |files| - 1;
      assert files[..n][..m] == files[..m];
      NewDeclarationsGrow(c, known, files[..n], m);
    } else {
      assert files[..m] == files;
    }
  }

  // ---------------------------------------------------------------------
  // The pipeline
  // ---------------------------------------------------------------------

  /** The passes the pipeline knows. */
  datatype CompilerStep = RegisterStringsStep | GetDeclarationsStep

  /** The passes `compile` runs, in order. */
  function CompilerSteps(): seq<CompilerStep>
  {
    [RegisterStringsStep, GetDeclarationsStep]
  }

  function ApplyStep(step: CompilerStep, job: CompilationJob, c: Collaborators, st: CompilationIntermediate): CompilationIntermediate
  {
    match step
    case RegisterStringsStep => AfterRegisterStrings(job, c, st)
    case GetDeclarationsStep => AfterGetDeclarations(job, c, st)
  }

  /** Folds `steps` over `st`, each step seeing the previous one's state and the same job. */
  function FoldSteps(steps: seq<CompilerStep>, job: CompilationJob, c: Collaborators, st: CompilationIntermediate): CompilationIntermediate
    decreases |steps|
  {
    if steps == [] then st
    else FoldSteps(steps[1..], job, c, ApplyStep(steps[0], job, c, st))
  }

  /**
   * Compiles a job: the passes folded over the default intermediate state,
   * which applies exactly the register-strings pass and then the declarations
   * pass, both to the same job.
   */
  function Compile(job: CompilationJob, c: Collaborators): (r: CompilationResult)
    ensures r == AfterGetDeclarations(job, c, AfterRegisterStrings(job, c, InitialIntermediate())).result
  {
    var steps := CompilerSteps();
    assert steps[1..][1..] == [];
    FoldSteps(steps, job, c, InitialIntermediate()).result
  }

  /** No pass sets the program, so compilation leaves it absent. */
  lemma CompileLeavesProgramAbsent(job: CompilationJob, c: Collaborators)
    ensures Compile(job, c).program == None
  {
    var registered := AfterRegisterStrings(job, c, InitialIntermediate());
    RegisterStringsPreserves(job, c, InitialIntermediate());
    DeclareFilesKeepsOthers(c, job.variableDeclarations, registered.parsedFiles, registered.result);
  }

  /** Compiling a job without files yields the empty result: no diagnostics, no strings, no declarations. */
  lemma CompileEmptyJob(job: CompilationJob, c: Collaborators)
    requires job.files == []
    ensures Compile(job, c) == InitialIntermediate().result
    ensures Compile(job, c).diagnostics == [] && Compile(job, c).stringTable == map[]
    ensures Compile(job, c).declarations == None && Compile(job, c).fileTags == map[]
  {
    RegisterStringsPreserves(job, c, InitialIntermediate());
  }

  /**
   * The compiled declarations: absent for a job without files, otherwise the
   * declarations found in each file, in job order, each file's visitor seeded
   * with the job's own declarations.
   */
  lemma CompileDeclarations(job: CompilationJob, c: Collaborators)
    ensures Compile(job, c).declarations ==
              if job.files == [] then None
              else Some(NewDeclarations(c, job.variableDeclarations, ParsedFiles(c, job.files)))
  {
    var registered := AfterRegisterStrings(job, c, InitialIntermediate());
    var parsed := ParsedFiles(c, job.files);
    RegisterStringsPreserves(job, c, InitialIntermediate());
    RegisterFilesParsed(c, job.files, RegisterAcc(InitialIntermediate(), map[]));
    assert [] + parsed == parsed;
    assert registered.parsedFiles == parsed;
    assert registered.result.declarations == None;
    ParsedFilesAt(c, job.files);
    assert parsed == [] <==> job.files == [];
    DeclareFilesDeclarations(c, job.variableDeclarations, parsed, registered.result);
    assert [] + NewDeclarations(c, job.variableDeclarations, parsed) == NewDeclarations(c, job.variableDeclarations, parsed);
  }

  /**
   * The compiled diagnostics: for each file in job order, the parser's syntax
   * errors and then the string-table generator's diagnostics; after them the
   * declaration visitors' diagnostics in file order.
   */
  lemma CompileDiagnostics(job: CompilationJob, c: Collaborators)
    ensures Compile(job, c).diagnostics ==
              RegisterDiagnostics(c, job.files, RegisterAcc(InitialIntermediate(), map[]))
              + DeclarationDiagnostics(c, job.variableDeclarations, ParsedFiles(c, job.files))
  {
    var acc := RegisterAcc(InitialIntermediate(), map[]);
    var registered := AfterRegisterStrings(job, c, InitialIntermediate());
    RegisterFilesParsed(c, job.files, acc);
    assert [] + ParsedFiles(c, job.files) == ParsedFiles(c, job.files);
    RegisterFilesDiagnostics(c, job.files, acc);
    assert [] + RegisterDiagnostics(c, job.files, acc) == RegisterDiagnostics(c, job.files, acc);
    DeclareFilesDiagnostics(c, job.variableDeclarations, registered.parsedFiles, registered.result);
  }

  /** Every syntax error the parser reports for a file of the job is among the compiled diagnostics. */
  lemma CompileReportsSyntaxErrors(job: CompilationJob, c: Collaborators, i: nat)
    requires i < |job.files|
    ensures forall d :: d in c.parseSyntaxTree(job.files[i]).diagnostics ==> d in Compile(job, c).diagnostics
  {
    CompileDiagnostics(job, c);
    RegisterDiagnosticsHasParse(c, job.files, RegisterAcc(InitialIntermediate(), map[]), i);
  }

  /**
   * The compiled string table holds exactly the keys the generator returned
   * for the job's files, each with the value from the last file that returned it.
   */
  lemma CompileStringTable(job: CompilationJob, c: Collaborators)
    ensures var table := Compile(job, c).stringTable;
      var acc := RegisterAcc(InitialIntermediate(), map[]);
      && (forall key :: key in table <==> exists i :: 0 <= i < |job.files| && key in Generated(c, job.files, acc, i))
      && (forall i, key :: 0 <= i < |job.files| && key in Generated(c, job.files, acc, i)
            && (forall j :: i < j < |job.files| ==> key !in Generated(c, job.files, acc, j))
            ==> table[key] == Generated(c, job.files, acc, i)[key])
  {
    var registered := AfterRegisterStrings(job, c, InitialIntermediate());
    RegisterStringsTable(job, c, InitialIntermediate());
    DeclareFilesKeepsOthers(c, job.variableDeclarations, registered.parsedFiles, registered.result);
  }

  /** The compiled file tags are keyed by exactly the names of the parsed files. */
  lemma CompileFileTags(job: CompilationJob, c: Collaborators)
    ensures Compile(job, c).fileTags.Keys == FileNames(ParsedFiles(c, job.files))
  {
    var registered := AfterRegisterStrings(job, c, InitialIntermediate());
    RegisterStringsPreserves(job, c, InitialIntermediate());
    RegisterFilesParsed(c, job.files, RegisterAcc(InitialIntermediate(), map[]));
    assert [] + ParsedFiles(c, job.files) == ParsedFiles(c, job.files);
    DeclareFilesFileTagKeys(c, job.variableDeclarations, registered.parsedFiles, registered.result);
  }
}
