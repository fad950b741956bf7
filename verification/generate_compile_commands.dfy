/*
 * A model of the argument-reshaping core of build_tools/lint/generate_compile_commands.py:
 * turning the argument list of each `bazel aquery` compile action into a
 * (file, arguments) command, and the three-field record that is written out
 * for each command.
 */
module GenerateCompileCommands {

  datatype Option<+T> = None | Some(value: T)

  /** Arguments that break clang-tidy; they are dropped from every command. */
  const DisallowedArgs: set<string> := {"-fno-canonical-system-headers"}

  /** The suffix that marks the translation unit a command compiles. */
  const SourceSuffix: string := ".cc"

  /** Python's `str.endswith`. */
  predicate EndsWith(s: string, suffix: string) {
    |suffix| <= |s| && s[|s| - |suffix|..] == suffix
  }

  /** An argument that survives the filter and names a compiled `.cc` file. */
  predicate IsKeptSource(arg: string) {
    arg !in DisallowedArgs && EndsWith(arg, SourceSuffix)
  }

  /** A compile command: the file it compiles, if one was recognised, and its filtered arguments. */
  datatype CompileCommand = CompileCommand(file: Option<string>, arguments: seq<string>)

  /** The record emitted for one command in `compile_commands.json`. */
  datatype DumpableCommand = DumpableCommand(directory: string, file: Option<string>, arguments: seq<string>)

  // ---------------------------------------------------------------------------
  // Specification of one command, defined on prefixes as the loop reads them
  // ---------------------------------------------------------------------------

  /** The arguments with every disallowed one removed, in their original order. */
  function Kept(args: seq<string>): (r: seq<string>)
    ensures |r| <= |args|
    ensures forall i :: 0 <= i < |r| ==> r[i] !in DisallowedArgs
  {
    if args == [] then []
    else
      var last := args[|args| - 1];
      Kept(args[..|args| - 1]) + (if last in DisallowedArgs then [] else [last])
  }

  /** The last argument that is kept and ends in ".cc", or None when there is none. */
  function LastSource(args: seq<string>): (r: Option<string>)
    ensures r.Some? ==> IsKeptSource(r.value)
  {
    if args == [] then None
    else
      var last := args[|args| - 1];
      if IsKeptSource(last) then Some(last) else LastSource(args[..|args| - 1])
  }

  /**
   * The command built from one action's argument list. A recognised file is a
   * kept ".cc" argument, so it always appears among the command's arguments.
   */
  function FromArgs(args: seq<string>): (r: CompileCommand)
    ensures |r.arguments| <= |args|
    ensures r.file.Some? ==>
      EndsWith(r.file.value, SourceSuffix) && r.file.value !in DisallowedArgs && r.file.value in r.arguments
  {
    FileIsKeptArgument(args);
    CompileCommand(LastSource(args), Kept(args))
  }

  // ---------------------------------------------------------------------------
  // The two loops of the source
  // ---------------------------------------------------------------------------

  /** One pass over the argument list, dropping disallowed arguments and remembering the last ".cc" one. */
  method FromArgsList(argsList: seq<string>) returns (cmd: CompileCommand)
    ensures cmd == FromArgs(argsList)
  {
    var ccFile: Option<string> := None;
    var filteredArgs: seq<string> := [];
    for i := 0 to |argsList|
      invariant ccFile == LastSource(argsList[..i])
      invariant filteredArgs == Kept(argsList[..i])
    {
      var arg := argsList[i];
      assert argsList[..i + 1][..i] == argsList[..i];
      if arg in DisallowedArgs {
        continue;
      }
      if EndsWith(arg, SourceSuffix) {
        ccFile := Some(arg);
      }
      filteredArgs := filteredArgs + [arg];
    }
    assert argsList[..|argsList|] == argsList;
    cmd := CompileCommand(ccFile, filteredArgs);
  }

  /** One command per action, in the order of the actions. */
  method ExtractCompileCommands(actions: seq<seq<string>>) returns (commands: seq<CompileCommand>)
    ensures |commands| == |actions|
    ensures forall i :: 0 <= i < |actions| ==> commands[i] == FromArgs(actions[i])
    ensures actions == [] ==> commands == []
  {
    commands := [];
    for i := 0 to |actions|
      invariant |commands| == i
      invariant forall k :: 0 <= k < i ==> commands[k] == FromArgs(actions[k])
    {
      var command := FromArgsList(actions[i]);
      commands := commands + [command];
    }
  }

  // ---------------------------------------------------------------------------
  // The record written out for a command
  // ---------------------------------------------------------------------------

  /** The three-field record for a command run from `directory`. */
  function ToDumpableJson(cmd: CompileCommand, directory: string): (r: DumpableCommand)
    ensures r.directory == directory
    ensures r.file == cmd.file && r.arguments == cmd.arguments
  {
    DumpableCommand(directory, cmd.file, cmd.arguments)
  }

  // ---------------------------------------------------------------------------
  // Properties of the filter
  // ---------------------------------------------------------------------------

  lemma {:induction false} KeptAppend(a: seq<string>, b: seq<string>)
    ensures Kept(a + b) == Kept(a) + Kept(b)
  {
    if b == [] {
      assert a + b == a;
    } else {
      var init := b[..|b| - 1];
      assert (a + b)[..|a + b| - 1] == a + init;
      assert (a + b)[|a + b| - 1] == b[|b| - 1];
      KeptAppend(a, init);
    }
  }

  /** Each argument is dropped exactly when it is disallowed; everything around it keeps its place. */
  lemma KeptDropsOnlyDisallowed(before: seq<string>, arg: string, after: seq<string>)
    ensures Kept(before + [arg] + after)
         == Kept(before) + (if arg in DisallowedArgs then [] else [arg]) + Kept(after)
  {
    KeptAppend(before + [arg], after);
    KeptAppend(before, [arg]);
    assert [arg][..0] == [];
  }

  /** Duplicates are preserved: every kept value occurs as often as in the input. */
  lemma {:induction false} KeptCounts(args: seq<string>, x: string)
    ensures multiset(Kept(args))[x] == if x in DisallowedArgs then 0 else multiset(args)[x]
  {
    if args != [] {
      var init := args[..|args| - 1];
      KeptCounts(init, x);
      assert args == init + [args[|args| - 1]];
    }
  }

  lemma {:induction false} KeptMembership(args: seq<string>, x: string)
    ensures x in Kept(args) <==> x in args && x !in DisallowedArgs
  {
    KeptCounts(args, x);
    assert x in Kept(args) <==> multiset(Kept(args))[x] > 0;
    assert x in args <==> multiset(args)[x] > 0;
  }

  /** Nothing is dropped exactly when the input holds no disallowed argument. */
  lemma {:induction false} KeptLength(args: seq<string>)
    ensures |Kept(args)| == |args| <==> forall i :: 0 <= i < |args| ==> args[i] !in DisallowedArgs
  {
    if args != [] {
      var init := args[..|args| - 1];
      KeptLength(init);
      assert forall i :: 0 <= i < |init| ==> init[i] == args[i];
    }
  }

  lemma {:induction false} KeptOfCleanIsIdentity(args: seq<string>)
    requires forall i :: 0 <= i < |args| ==> args[i] !in DisallowedArgs
    ensures Kept(args) == args
  {
    if args != [] {
      var init := args[..|args| - 1];
      KeptOfCleanIsIdentity(init);
      assert args == init + [args[|args| - 1]];
    }
  }

  /** Filtering a second time changes nothing. */
  lemma KeptIdempotent(args: seq<string>)
    ensures Kept(Kept(args)) == Kept(args)
  {
    KeptOfCleanIsIdentity(Kept(args));
  }

  // ---------------------------------------------------------------------------
  // Properties of the recognised file
  // ---------------------------------------------------------------------------

  /**
   * The file is None exactly when no kept argument ends in ".cc"; otherwise it is
   * such an argument and no later argument is one.
   */
  lemma {:induction false} LastSourceIsLastMatch(args: seq<string>)
    ensures match LastSource(args)
      case None => forall i :: 0 <= i < |args| ==> !IsKeptSource(args[i])
      case Some(f) =>
        exists i :: 0 <= i < |args| && args[i] == f && IsKeptSource(f)
          && forall j :: i < j < |args| ==> !IsKeptSource(args[j])
  {
    if args != [] {
      var init := args[..|args| - 1];
      LastSourceIsLastMatch(init);
      assert forall i :: 0 <= i < |init| ==> init[i] == args[i];
      if !IsKeptSource(args[|args| - 1]) {
        match LastSource(init)
        case None =>
        case Some(f) =>
          var i :| 0 <= i < |init| && init[i] == f && IsKeptSource(f)
            && forall j :: i < j < |init| ==> !IsKeptSource(init[j]);
          assert args[i] == f;
      }
    }
  }

  /** A recognised file is one of the kept arguments: the skip comes before the suffix test. */
  lemma {:induction false} FileIsKeptArgument(args: seq<string>)
    ensures LastSource(args).Some? ==> LastSource(args).value in Kept(args)
  {
    if LastSource(args).Some? {
      var f := LastSource(args).value;
      LastSourceIsLastMatch(args);
      assert f in args;
      KeptMembership(args, f);
    }
  }

  lemma LastSourceSnoc(args: seq<string>, arg: string)
    ensures LastSource(args + [arg]) == if IsKeptSource(arg) then Some(arg) else LastSource(args)
  {
  }

  /** Rebuilding a command from its own arguments gives the same command. */
  lemma {:induction false} FromArgsIdempotent(args: seq<string>)
    ensures FromArgs(FromArgs(args).arguments) == FromArgs(args)
  {
    KeptIdempotent(args);
    LastSourceOfKept(args);
  }

  lemma {:induction false} LastSourceOfKept(args: seq<string>)
    ensures LastSource(Kept(args)) == LastSource(args)
  {
    if args != [] {
      var init := args[..|args| - 1];
      var last := args[|args| - 1];
      LastSourceOfKept(init);
      if last !in DisallowedArgs {
        LastSourceSnoc(Kept(init), last);
      } else {
        assert Kept(args) == Kept(init);
      }
    }
  }

  /** An example compile action that carries the flag clang-tidy rejects. */
  lemma SingleActionExample()
    ensures FromArgs(["clang", "-c", "foo.cc", "-fno-canonical-system-headers", "-O2"])
         == CompileCommand(Some("foo.cc"), ["clang", "-c", "foo.cc", "-O2"])
  {
    var args := ["clang", "-c", "foo.cc", "-fno-canonical-system-headers", "-O2"];
    assert !EndsWith("clang", SourceSuffix) && !EndsWith("-c", SourceSuffix);
    assert EndsWith("foo.cc", SourceSuffix) && !EndsWith("-O2", SourceSuffix);
    assert args[..1][..0] == [];
    assert Kept(args[..1]) == ["clang"] && LastSource(args[..1]) == None;
    assert args[..2][..1] == args[..1];
    assert Kept(args[..2]) == ["clang", "-c"] && LastSource(args[..2]) == None;
    assert args[..3][..2] == args[..2];
    assert Kept(args[..3]) == ["clang", "-c", "foo.cc"] && LastSource(args[..3]) == Some("foo.cc");
    assert args[..4][..3] == args[..3];
    assert Kept(args[..4]) == Kept(args[..3]) && LastSource(args[..4]) == Some("foo.cc");
    assert args[..4] == args[..|args| - 1];
  }
}
