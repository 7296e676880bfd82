# Dialogue-script compiler bookkeeping, in Dafny

This project models the bookkeeping core of a compiler for a line-oriented
dialogue-script language (Yarn). The compiler turns parsed script files into a
string table, a list of variable declarations, per-file tags, a program of
named nodes and a list of diagnostics. The model covers three parts.

- **The pass pipeline** (`compiler.dfy`, module `Compiler`). `Compile` folds an
  ordered list of passes over a `CompilationIntermediate`, which holds the
  `CompilationResult` so far and the parsed files. There are two passes.
  `RegisterStrings` parses every file of the job and tags the last line before
  each option group. It then runs the string-table generator on the file and
  merges the generated entries. `GetDeclarations` runs the declaration visitor
  over every parsed file. It collects that visitor's diagnostics, declarations
  and file tags. Both passes are loops over the files. Each is a method with a
  loop, proved equal to a specification function (`AfterRegisterStrings`,
  `AfterGetDeclarations`). Lemmas prove the accumulation and ordering facts
  about those functions.
- **The node listener** (`compiler_listener.dfy`, module `Listeners`). This is
  a class `CompilerListener` whose `EnterNode` and `ExitNode` methods update
  its fields in place. Each method is proved against a pure step function on a
  snapshot of the state (`Entered`, `Exited`). The properties are proved about
  those functions and about a walk over all the nodes of a file
  (`VisitAll`).
- **The debug-info accessors** (`debug_info.dfy`, module `DebugInfos`). These
  are the fallible lookup `TryGetLineInfo` and the strict `GetLineInfo`.

`output.dfy` holds the shared value types: positions, diagnostics,
string-table entries, declarations, nodes and programs. `wrappers.dfy` holds
`Option`.

The parser, the last-line tagger, the string-table generator and the
declaration visitor are collaborators whose code is not part of this model.
They are given as functions in the `Collaborators` datatype. The syntax tree
and the token stream are abstract types. The model proves how the outputs of
these collaborators are accumulated, not what the collaborators compute.

Behaviours of the code worth knowing:

- Compiling a job with no files leaves `declarations` absent (`None`), not an
  empty list (`CompileEmptyJob`).
- The strict debug-info lookup fails on any instruction index that has no
  recorded position, not only on an index past the last instruction.
  `GetLineInfo` requires the index to be recorded.
- Each file's declaration visitor is seeded with the job's own declarations.
  It does not see the declarations found in earlier files of the same run
  (`DeclarationsNotFedForward`).

## Model

| member | source | states |
|---|---|---|
| `DebugInfos.TryGetLineInfo` | crates/compiler/src/output/debug_info.rs:46-55 | Returns a value if and only if a position is recorded for the index. The value carries the debug info's own file name and node name and the recorded position. |
| `DebugInfos.GetLineInfo` | crates/compiler/src/output/debug_info.rs:33-44 | Requires a recorded index. Its result is exactly what the fallible lookup returns for that index. |
| `Compiler.ExplicitlyConstructibleTypes` | crates/compiler/src/compiler.rs:80-88 | The explicitly constructible types are exactly the builtins other than Undefined: four distinct types. |
| `Compiler.RegisterStrings` | crates/compiler/src/compiler.rs:90-115 | The loop computes the state given by the pass's specification. The parse results it keeps are the old ones followed by one tagged parse result per job file, in job order. The diagnostics are the old ones followed by, for each file in job order, its syntax errors and then its string-table diagnostics. |
| `Compiler.RegisterFilesParsed` | crates/compiler/src/compiler.rs:97-111 | Over any list of files, the pass appends exactly the files' parse results, in order, after those already held. |
| `Compiler.ParsedFilesAt` | crates/compiler/src/compiler.rs:97-111 | There is one kept parse result per file. The i-th is the tagged parse of the i-th file. |
| `Compiler.RegisterFilesMonotone` | crates/compiler/src/compiler.rs:96-112 | Within the loop, earlier diagnostics stay as a prefix and the string-table manager never loses a key. No other field of the result changes. |
| `Compiler.RegisterStringsPreserves` | crates/compiler/src/compiler.rs:90-115 | The pass appends exactly each file's syntax errors and string-table diagnostics, in job order, after the old diagnostics. It keeps every old string-table key and leaves the program, declarations, file tags and debug info unchanged. With no files it changes nothing. |
| `Compiler.RegisterFilesDiagnostics` | crates/compiler/src/compiler.rs:97-111 | Over any list of files, the loop appends exactly each file's parser diagnostics and then its string-table generator diagnostics, file after file, after those already held. |
| `Compiler.RegisterDiagnosticsHasParse` | crates/compiler/src/compiler.rs:97-98 | Every syntax error the parser reports for any file of the list is among the diagnostics the pass reports. |
| `Compiler.TableReach` | crates/compiler/src/compiler.rs:106-110 | Every key the string-table generator returns for any file is a key of the merged table. |
| `Compiler.TableLaterWins` | crates/compiler/src/compiler.rs:106-110 | The merged value under a key is the one from the last file whose generator returned that key. |
| `Compiler.TableKeepsStart` | crates/compiler/src/compiler.rs:96-110 | A starting entry whose key no generator returned is kept unchanged. |
| `Compiler.TableNoStray` | crates/compiler/src/compiler.rs:96-110 | Every key of the merged table was in the starting table or was returned by some file's generator. |
| `Compiler.RegisterStringsTable` | crates/compiler/src/compiler.rs:96-113 | The pass's string table holds every generated entry, with later files winning over earlier ones and over the starting table. Starting entries no generator touched stay, and no other key appears. |
| `Compiler.GetDeclarations` | crates/compiler/src/compiler.rs:49-78 | The loop computes the pass's specification. Diagnostics are the old ones followed by each file's visitor diagnostics. Declarations stay absent with no parsed files. Otherwise they are the prior list followed by each file's new declarations. |
| `Compiler.DeclareFilesDiagnostics` | crates/compiler/src/compiler.rs:63-66 | Each file's visitor diagnostics are appended in file order after the existing diagnostics. |
| `Compiler.DeclareFilesDeclarations` | crates/compiler/src/compiler.rs:67-71 | With no files the declaration list is unchanged. Otherwise it becomes present and holds the prior list (absent counts as empty) followed by the files' new declarations in order. |
| `Compiler.DeclareFilesFileTagKeys` | crates/compiler/src/compiler.rs:72-75 | The file-tag keys become the old keys plus every parsed file's name. Keys that are not file names keep their values. |
| `Compiler.DeclareFilesFileTags` | crates/compiler/src/compiler.rs:72-75 | The tags under a file name are those of the last parsed file with that name. A later file overwrites an earlier one. |
| `Compiler.DeclareFilesKeepsOthers` | crates/compiler/src/compiler.rs:49-78 | The declarations pass does not change the program, the string table or the debug info. |
| `Compiler.DeclarationsNotFedForward` | crates/compiler/src/compiler.rs:54-60 | For every parsed file, the declarations list holds, right after the prior list and the earlier files' shares, exactly what that file's visitor returns when seeded with the job's own declarations, whatever files come before it. |
| `Compiler.InitialIntermediate` | crates/compiler/src/compiler.rs:117-121 | The default state: no program, declarations or debug info; an empty string table, file tags, diagnostics list and parsed-file list. |
| `Compiler.Compile` | crates/compiler/src/compiler.rs:17-26 | Folding the pass list over the default state runs exactly the register-strings pass and then the declarations pass. Both passes get the same job. |
| `Compiler.CompileLeavesProgramAbsent` | crates/compiler/src/compiler.rs:117-121 | No pass sets the program, so the compiled program stays absent. |
| `Compiler.CompileEmptyJob` | crates/compiler/src/compiler.rs:128-136 | A job without files compiles to the default result: no diagnostics, an empty string table, absent declarations and no file tags. |
| `Compiler.CompileDeclarations` | crates/compiler/src/compiler.rs:49-78 | The compiled declarations are absent for a job without files. Otherwise they are the declarations found in each file, in job order, with each visitor seeded with the job's declarations. |
| `Compiler.CompileDiagnostics` | crates/compiler/src/compiler.rs:17-26 | The compiled diagnostics are, for each file in job order, its syntax errors and then its string-table diagnostics, followed by the declaration visitors' diagnostics in file order. |
| `Compiler.CompileReportsSyntaxErrors` | crates/compiler/src/compiler.rs:213-262 | Every syntax error the parser reports for a file of the job is among the compiled diagnostics. |
| `Compiler.CompileStringTable` | crates/compiler/src/compiler.rs:106-113 | The compiled string table has exactly the keys the generator returned for the job's files. Each key holds the value from the last file that returned it. |
| `Compiler.CompileFileTags` | crates/compiler/src/compiler.rs:72-75 | The compiled file tags are keyed by exactly the names of the parsed files. |
| `Listeners.Entered` | crates/compiler/src/listeners/compiler_listener.rs:38-51 | After entering a node, the current node is present and every field is empty. The debug info is the default and the raw-text flag is false. Diagnostics, kept debug infos and the program are unchanged. |
| `Listeners.Exited` | crates/compiler/src/listeners/compiler_listener.rs:53-78 | An unnamed node adds one "Missing title header for node" diagnostic and nothing else. A named node adds exactly one stamped debug info. A new name is inserted with all other entries kept. A known name leaves the program unchanged. The current node is cleared, the raw-text flag reset, and nodes stay keyed by their own names. |
| `Listeners.CompilerListener.EnterNode` | crates/compiler/src/listeners/compiler_listener.rs:38-51 | The new state of the listener is `Entered` of its old state. The program stays well keyed. |
| `Listeners.CompilerListener.ExitNode` | crates/compiler/src/listeners/compiler_listener.rs:53-78 | Requires a current node. The new state of the listener is `Exited` of its old state. The program stays well keyed. |
| `Listeners.VisitAllKeys` | crates/compiler/src/listeners/compiler_listener.rs:53-78 | After a walk over a file's nodes, the program's names are the old names plus every non-empty node name, and old entries are untouched. One debug info is kept per named node and one diagnostic is added per unnamed node. |
| `Listeners.VisitAllWellKeyed` | crates/compiler/src/listeners/compiler_listener.rs:64-71 | A walk over a file's nodes keeps every stored node under its own name, so a lookup by name yields the node of that name. |
| `Listeners.FirstNodeWins` | crates/compiler/src/listeners/compiler_listener.rs:64-71 | The first node of the walk with a name not yet in the program is the one stored under that name. |
| `Listeners.ExitedLineInfoNamesNode` | crates/compiler/src/listeners/compiler_listener.rs:72-74 | A lookup in the debug info kept for a named node reports that node's name and the file's name. |

## Left out

- Parsing, the last-line tagger, the string-table generator and the declaration visitor are collaborator functions. Their code is not part of this model, so what they compute is not modelled.
- The string-table manager's `extend` is modelled as a map union in which later entries win, as a hash map's `extend` does. Its own code is not part of this model.
- The tagged tree is modelled as the tree kept in the parsed files. The tagger annotates the tree shared with the parse result.
- `Diagnostic::from_message` is taken to give Error severity. Rendering of the parse context into a range and a caret line is replaced by a `NodeContext` parameter that already holds them.
- The traversal of a node's body (instruction emission, labels, headers, raw-text detection) is not part of this model. `Visit` takes the node and debug info that traversal produced as inputs.
- `EmptyDebugInfo`: `debug_info.rs` defines no `Default` for `DebugInfo`, and the listener writes its private name fields directly. The default is taken to have empty names and no recorded positions.
- The listener's constructor is defined outside `compiler_listener.rs`. The model's constructor starts from an empty program and empty lists.
- The job's `library` field is left out because neither pass reads it. `compilation_type` is carried but not read, as in the Rust code.
- Instruction encoding, the `Program` fields other than its nodes, and hash-map iteration order are left out. Maps are Dafny `map`s.
- Instruction indices are `nat`, so the 64-bit width of `usize` is not modelled.
