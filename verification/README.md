# generate_compile_commands — a Dafny model

`build_tools/lint/generate_compile_commands.py` turns the output of
`bazel aquery` into a `compile_commands.json` for clang-tidy and language
servers. This project models its core. Each compile action's argument list
becomes a `CompileCommand`. Every argument in the disallowed set
(`-fno-canonical-system-headers`) is dropped. The last kept argument ending in
`.cc` becomes the command's `file`. The commands are then extracted for all
actions in order, and each one becomes the three-field record
(`directory`, `file`, `arguments`) that is written out.

Everything is in `generate_compile_commands.dfy`, module
`GenerateCompileCommands`:

- `Kept` and `LastSource` are the specification of one command. They are defined
  on prefixes (peeling the last argument), the same way the loop reads them.
  `FromArgs` pairs them into a `CompileCommand`.
- `FromArgsList` is the loop of `from_args_list`. Its `ccFile` and `filteredArgs`
  locals are proved equal to `LastSource` and `Kept` of the prefix read so far.
- `ExtractCompileCommands` is the loop of `extract_compile_commands`. It calls
  `FromArgsList` once per action.
- `ToDumpableJson` builds the `DumpableCommand` datatype that stands for the JSON
  dictionary.

The source annotates `CompileCommand.file` as `str`, but the code stores `None`
there when no `.cc` argument is found. The model follows the code: `file` is an
`Option<string>`.

## Model

| member | source | states |
|---|---|---|
| GenerateCompileCommands.Kept | build_tools/lint/generate_compile_commands.py:63-70 | the filtered arguments are never longer than the input and contain no disallowed argument |
| GenerateCompileCommands.LastSource | build_tools/lint/generate_compile_commands.py:60-68 | a recognised file is never a disallowed argument and always ends in ".cc" |
| GenerateCompileCommands.FromArgs | build_tools/lint/generate_compile_commands.py:60-72 | the command's arguments are never longer than the input; a present file ends in ".cc", is not disallowed, and is one of the command's arguments |
| GenerateCompileCommands.FromArgsList | build_tools/lint/generate_compile_commands.py:48-72 | the one-pass loop returns exactly the last kept ".cc" argument (or None) and the input with disallowed arguments removed |
| GenerateCompileCommands.ExtractCompileCommands | build_tools/lint/generate_compile_commands.py:82-100 | one command per action, same order, command i built from action i's arguments; no actions give no commands |
| GenerateCompileCommands.ToDumpableJson | build_tools/lint/generate_compile_commands.py:74-79 | the record carries the given directory and the command's file and arguments unchanged, and has no other field |
| GenerateCompileCommands.KeptAppend | build_tools/lint/generate_compile_commands.py:63-70 | filtering distributes over concatenation, so the relative order of kept arguments is preserved |
| GenerateCompileCommands.KeptDropsOnlyDisallowed | build_tools/lint/generate_compile_commands.py:63-70 | an argument is removed exactly when it is in the disallowed set; the arguments before and after it are filtered in place around it |
| GenerateCompileCommands.KeptCounts | build_tools/lint/generate_compile_commands.py:63-70 | every allowed value occurs in the result as often as in the input (duplicates kept); disallowed values occur zero times |
| GenerateCompileCommands.KeptMembership | build_tools/lint/generate_compile_commands.py:63-70 | a value is in the result exactly when it is in the input and not disallowed |
| GenerateCompileCommands.KeptLength | build_tools/lint/generate_compile_commands.py:63-70 | the result has the input's length exactly when the input holds no disallowed argument |
| GenerateCompileCommands.KeptOfCleanIsIdentity | build_tools/lint/generate_compile_commands.py:63-70 | an input without disallowed arguments is returned unchanged |
| GenerateCompileCommands.KeptIdempotent | build_tools/lint/generate_compile_commands.py:63-70 | filtering the filtered arguments again changes nothing |
| GenerateCompileCommands.LastSourceIsLastMatch | build_tools/lint/generate_compile_commands.py:60-68 | the file is None exactly when no kept argument ends in ".cc"; otherwise it is such an argument and no later one is |
| GenerateCompileCommands.FileIsKeptArgument | build_tools/lint/generate_compile_commands.py:63-70 | a present file is an element of the filtered arguments, because a disallowed argument is skipped before the suffix test |
| GenerateCompileCommands.LastSourceOfKept | build_tools/lint/generate_compile_commands.py:63-70 | the file found in the filtered arguments is the file found in the input |
| GenerateCompileCommands.FromArgsIdempotent | build_tools/lint/generate_compile_commands.py:48-72 | rebuilding a command from its own arguments gives the same command |
| GenerateCompileCommands.SingleActionExample | build_tools/lint/generate_compile_commands.py:48-72 | `clang -c foo.cc -fno-canonical-system-headers -O2` gives file `foo.cc` and arguments `clang -c foo.cc -O2` |

## Left out

- `main` (build_tools/lint/generate_compile_commands.py:103-125): logging setup, the check for and creation of the `external` symlink, reading standard input, and writing `compile_commands.json`. These are filesystem and logging calls with no logic to model.
- `_XLA_SRC_ROOT`: it is computed from the script's own location on disk. The model takes the directory as a plain string parameter of `ToDumpableJson`.
- JSON parsing and serialisation, and the `KeyError` raised when the `"actions"` or `"arguments"` key is missing. The model takes the parsed input directly as the sequence of each action's argument list (`seq<seq<string>>`).
- The `JSONDict` representation itself: the written record is the `DumpableCommand` datatype rather than a dictionary.
