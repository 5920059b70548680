/**
  How a child process reads the arguments that the shell started it with: it takes its own
  flags out of the list and leaves the rest to the application.
 */
module HostedArguments {
  import opened Wrappers
  import opened CommandLine

  const PROJECT := "--project"
  const SIDEBAR := "--internal-sidebar"
  const RESTART := "--anvil-project-restart"
  const ARGUMENTS := "--anvil-project-arguments"
  const PIPE := "--anvil-hosted-pipe="

  predicate IsPipeFlag(arg: string) {
    PIPE <= arg
  }

  predicate IsOwnFlag(arg: string) {
    arg == SIDEBAR || arg == ARGUMENTS || arg == RESTART || IsPipeFlag(arg)
  }

  predicate IsOption(arg: string) {
    arg != "" && arg[0] == '-'
  }

  /** What was read; a connection is active when there is a pipe. */
  datatype Reading = Reading(
    argv: seq<string>, project: Option<string>, sidebar: bool, restarted: bool, pipe: Option<string>, valid: bool)

  /** The arguments that are left for the application. */
  function Others(args: seq<string>): seq<string> {
    if args == [] then []
    else
      var last := args[|args| - 1];
      if IsOwnFlag(last) then Others(args[..|args| - 1]) else Others(args[..|args| - 1]) + [last]
  }

  function NameOf(arg: string): string
    requires IsPipeFlag(arg)
  {
    arg[|PIPE|..]
  }

  /** The last usable pipe name. */
  function PipeOf(isPipe: string -> bool, args: seq<string>): Option<string> {
    if args == [] then None
    else
      var last := args[|args| - 1];
      if IsPipeFlag(last) && isPipe(NameOf(last)) then Some(NameOf(last)) else PipeOf(isPipe, args[..|args| - 1])
  }

  predicate ArePipes(isPipe: string -> bool, args: seq<string>) {
    forall k :: 0 <= k < |args| && IsPipeFlag(args[k]) ==> isPipe(NameOf(args[k]))
  }

  function Tail(argv: seq<string>): seq<string> {
    if argv == [] then [] else argv[1..]
  }

  predicate NamesProject(argv: seq<string>) {
    |argv| > 1 && argv[1] == PROJECT
  }

  /** The arguments behind the flag of a Project; its path stays when the user gave none of their own. */
  function Behind(argv: seq<string>): seq<string> {
    if NamesProject(argv) && |argv| > 2 then argv[if ARGUMENTS in argv[1..] then 3 else 2..] else Tail(argv)
  }

  predicate LacksPath(argv: seq<string>) {
    NamesProject(argv) && (|argv| < 3 || IsOption(argv[2]))
  }

  /** A Project or a sidebar has a pipe, is not both, and only a Project has arguments or restarts. */
  predicate Fits(project: bool, original: bool, sidebar: bool, restarted: bool, active: bool, count: nat) {
    && (project || sidebar <==> active) && !(project && sidebar)
    && (restarted || original ==> project) && (sidebar ==> count == 1)
  }

  /** What is read of arguments that do not lack a path. */
  predicate IsReading(isProject: string -> bool, isPipe: string -> bool, argv: seq<string>, r: Reading)
    requires !LacksPath(argv)
  {
    var project, args := NamesProject(argv), Behind(argv);
    && r.argv == argv[..if argv == [] then 0 else 1] + Others(args)
    && r.project == (if project then Some(argv[2]) else None)
    && (r.sidebar <==> SIDEBAR in args) && (r.restarted <==> RESTART in args) && r.pipe == PipeOf(isPipe, args)
    && (r.valid <==>
          && (project ==> isProject(argv[2])) && ArePipes(isPipe, args)
          && Fits(project, ARGUMENTS in Tail(argv), r.sidebar, r.restarted, r.pipe.Some?, |r.argv|))
  }

  /** A Project without a path is refused at once. */
  predicate Reads(isProject: string -> bool, isPipe: string -> bool, argv: seq<string>, r: Reading) {
    if LacksPath(argv) then r == Reading(argv, None, false, false, None, false)
    else IsReading(isProject, isPipe, argv, r)
  }

  /** Removes one argument. */
  method Drop(argv: seq<string>, i: nat) returns (r: seq<string>)
    requires i < |argv|
    ensures r == argv[..i] + argv[i + 1..]
  {
    return argv[..i] + argv[i + 1..];
  }

  method Occurs(flag: string, argv: seq<string>) returns (found: bool)
    ensures found <==> flag in Tail(argv)
  {
    found := false;
    if argv == [] {
      return;
    }
    for k := 1 to |argv|
      invariant found <==> flag in argv[1..k]
    {
      assert argv[1..k + 1] == argv[1..k] + [argv[k]];
      if argv[k] == flag {
        found := true;
      }
    }
    assert argv[1..|argv|] == Tail(argv);
  }

  /** Takes every own flag out of the arguments and notes it. */
  method TakeFlags(isPipe: string -> bool, argv: seq<string>)
    returns (rest: seq<string>, sidebar: bool, restarted: bool, pipe: Option<string>, valid: bool)
    requires argv != []
    ensures rest == argv[..1] + Others(argv[1..])
    ensures (sidebar <==> SIDEBAR in argv[1..]) && (restarted <==> RESTART in argv[1..])
    ensures pipe == PipeOf(isPipe, argv[1..]) && (valid <==> ArePipes(isPipe, argv[1..]))
  {
    hide Others, PipeOf, ArePipes, IsPipeFlag;
    ghost var args, m := argv[1..], 0;
    rest, sidebar, restarted, pipe, valid := argv, false, false, None, true;
    var i := 1;
    Nothing(isPipe);
    FlagsDiffer();
    assert args[..0] == [] && argv == argv[..1] + [] + args;
    while i < |rest|
      invariant m <= |args| && rest == argv[..1] + Others(args[..m]) + args[m..] && i == 1 + |Others(args[..m])|
      invariant (sidebar <==> SIDEBAR in args[..m]) && (restarted <==> RESTART in args[..m])
      invariant pipe == PipeOf(isPipe, args[..m]) && (valid <==> ArePipes(isPipe, args[..m]))
      decreases |rest| - i
    {
      NextLeft(argv[..1], Others(args[..m]), args, m, rest, i);
      NextFlag(isPipe, args, m);
      if rest[i] == SIDEBAR {
        sidebar := true;
        rest := Drop(rest, i);
      } else if rest[i] == ARGUMENTS {
        rest := Drop(rest, i);
      } else if rest[i] == RESTART {
        restarted := true;
        rest := Drop(rest, i);
      } else if !IsPipeFlag(rest[i]) {
        i := i + 1;
      } else {
        var name := NameOf(rest[i]);
        if isPipe(name) {
          pipe := Some(name);
        } else {
          valid := false;
        }
        rest := Drop(rest, i);
      }
      m := m + 1;
    }
    assert args[..m] == args && args[m..] == [];
  }

  /** Which paths are directories and which names are pipes is up to the system. */
  method ParseArgs(isProject: string -> bool, isPipe: string -> bool, argv: seq<string>) returns (r: Reading)
    ensures Reads(isProject, isPipe, argv, r)
  {
    hide Others, PipeOf, ArePipes;
    var project := |argv| > 1 && argv[1] == PROJECT;
    var original := Occurs(ARGUMENTS, argv);
    if argv == [] {
      Nothing(isPipe);
      return Reading([], None, false, false, None, true);
    }
    var now, path, valid := argv, None, true;
    if project {
      if |argv| < 3 || IsOption(argv[2]) {
        return Reading(argv, None, false, false, None, false);
      }
      path := Some(argv[2]);
      valid := isProject(argv[2]);
      now := [argv[0]] + argv[if original then 3 else 2..];
    }
    assert now[1..] == Behind(argv) && now[..1] == argv[..1];
    var rest, sidebar, restarted, pipe, pipes := TakeFlags(isPipe, now);
    valid := valid && pipes && Fits(project, original, sidebar, restarted, pipe.Some?, |rest|);
    return Reading(rest, path, sidebar, restarted, pipe, valid);
  }

  lemma FlagsDiffer()
    ensures !IsPipeFlag(SIDEBAR) && !IsPipeFlag(ARGUMENTS) && !IsPipeFlag(RESTART)
    ensures SIDEBAR != ARGUMENTS && SIDEBAR != RESTART && ARGUMENTS != RESTART
  {
    assert PIPE[2] != SIDEBAR[2] && PIPE[8] != ARGUMENTS[8] && PIPE[8] != RESTART[8];
  }

  lemma Nothing(isPipe: string -> bool)
    ensures Others([]) == [] && PipeOf(isPipe, []) == None && ArePipes(isPipe, [])
  {
  }

  /** What is left when the next argument is dropped or kept. */
  lemma NextLeft(front: seq<string>, kept: seq<string>, args: seq<string>, m: nat, now: seq<string>, i: nat)
    requires m <= |args| && now == front + kept + args[m..] && i == |front| + |kept| < |now|
    ensures m < |args| && now[i] == args[m] && args[..m + 1] == args[..m] + [args[m]]
    ensures now[..i] + now[i + 1..] == front + kept + args[m + 1..]
    ensures now == front + (kept + [args[m]]) + args[m + 1..]
  {
  }

  /** What the next argument adds. */
  lemma {:induction false} NextFlag(isPipe: string -> bool, args: seq<string>, m: nat)
    requires m < |args|
    ensures Others(args[..m + 1]) == if IsOwnFlag(args[m]) then Others(args[..m]) else Others(args[..m]) + [args[m]]
    ensures PipeOf(isPipe, args[..m + 1]) ==
            if IsPipeFlag(args[m]) && isPipe(NameOf(args[m])) then Some(NameOf(args[m]))
            else PipeOf(isPipe, args[..m])
    ensures ArePipes(isPipe, args[..m + 1]) <==>
            ArePipes(isPipe, args[..m]) && (IsPipeFlag(args[m]) ==> isPipe(NameOf(args[m])))
  {
    hide IsOwnFlag, IsPipeFlag, NameOf;
    var next := args[..m + 1];
    assert next[..m] == args[..m];
    assert forall k :: 0 <= k < m ==> next[k] == args[..m][k];
  }

  // ---- The shell's side and the child's ----

  /** The name of the pipe is what the shell writes behind its flag. */
  predicate HasPipe(c: Child, name: string) {
    c.pipe == PIPE + name && (!c.sidebar ==> c.project.Some?)
  }

  /** The child knows what it was started for, and has the user's own arguments; without any, it has the path. */
  predicate IsFaithful(c: Child, name: string, r: Reading)
    requires HasPipe(c, name)
  {
    && r.valid && r.sidebar == c.sidebar && r.restarted == c.restart && r.pipe == Some(name)
    && r.project == (if c.sidebar then None else c.project)
    && r.argv == [c.program] + if c.sidebar || c.arguments != [] then c.arguments else [c.project.value]
  }

  /** What a child can be started with. */
  predicate IsStartable(isProject: string -> bool, isPipe: string -> bool, c: Child, name: string)
    requires HasPipe(c, name)
  {
    && isPipe(name)
    && if c.sidebar then !c.restart && c.arguments == []
       else
         && !IsOption(c.project.value) && isProject(c.project.value)
         && forall k :: 0 <= k < |c.arguments| ==> !IsOwnFlag(c.arguments[k])
  }

  lemma {:induction false} OthersJoin(xs: seq<string>, ys: seq<string>)
    ensures Others(xs + ys) == Others(xs) + Others(ys)
  {
    if ys == [] {
      assert xs + ys == xs;
    } else {
      assert (xs + ys)[..|xs + ys| - 1] == xs + ys[..|ys| - 1];
      OthersJoin(xs, ys[..|ys| - 1]);
    }
  }

  /** Nothing is taken out exactly when there is no own flag. */
  lemma {:induction false} OthersAreAll(args: seq<string>)
    ensures |Others(args)| <= |args|
    ensures Others(args) == args <==> forall k :: 0 <= k < |args| ==> !IsOwnFlag(args[k])
  {
    hide IsOwnFlag;
    if args != [] {
      var front := args[..|args| - 1];
      OthersAreAll(front);
      assert args == front + [args[|args| - 1]];
      assert forall k :: 0 <= k < |front| ==> front[k] == args[k];
    }
  }

  lemma {:induction false} PipeJoins(isPipe: string -> bool, xs: seq<string>, ys: seq<string>)
    requires forall k :: 0 <= k < |ys| ==> !IsPipeFlag(ys[k])
    ensures PipeOf(isPipe, xs + ys) == PipeOf(isPipe, xs)
  {
    if ys == [] {
      assert xs + ys == xs;
    } else {
      assert (xs + ys)[..|xs + ys| - 1] == xs + ys[..|ys| - 1];
      PipeJoins(isPipe, xs, ys[..|ys| - 1]);
    }
  }

  // ---- A Project ----

  function FlagsOf(c: Child): seq<string> {
    [c.pipe] + (if c.restart then [RESTART] else []) + (if c.arguments != [] then [ARGUMENTS] else [])
  }

  lemma ProjectArgv(c: Child)
    requires !c.sidebar && c.project.Some?
    ensures [c.program] + ChildArgs(c) == [c.program, PROJECT, c.project.value] + FlagsOf(c) + c.arguments
  {
  }

  lemma FlagsAreOwn(isPipe: string -> bool, c: Child, name: string)
    requires HasPipe(c, name)
    ensures Others(FlagsOf(c)) == [] && SIDEBAR !in FlagsOf(c)
    ensures RESTART in FlagsOf(c) <==> c.restart
    ensures ARGUMENTS in FlagsOf(c) <==> c.arguments != []
    ensures PipeOf(isPipe, FlagsOf(c)) == if isPipe(name) then Some(name) else None
    ensures ArePipes(isPipe, FlagsOf(c)) <==> isPipe(name)
  {
    FlagsDiffer();
    Nothing(isPipe);
    assert IsPipeFlag(c.pipe) && NameOf(c.pipe) == name;
    var flags := FlagsOf(c);
    assert [c.pipe][..0] == [];
    OthersJoin([c.pipe], flags[1..]);
    assert flags == [c.pipe] + flags[1..];
    forall k | 0 < k < |flags| ensures IsOwnFlag(flags[k]) && !IsPipeFlag(flags[k]) {
    }
    hide IsOwnFlag, IsPipeFlag, FlagsOf;
    AllOwn(flags);
    assert forall k :: 0 <= k < |flags[1..]| ==> flags[1..][k] == flags[k + 1];
    PipeJoins(isPipe, [c.pipe], flags[1..]);
  }

  lemma {:induction false} AllOwn(args: seq<string>)
    requires forall k :: 0 <= k < |args| ==> IsOwnFlag(args[k])
    ensures Others(args) == []
  {
    if args != [] {
      AllOwn(args[..|args| - 1]);
    }
  }

  /** The path of a Project is left for the application when the user gave no arguments. */
  function Left(c: Child): seq<string>
    requires c.project.Some?
  {
    if c.arguments == [] then [c.project.value] else []
  }

  lemma Slices(a: string, b: string, p: string, flags: seq<string>, more: seq<string>)
    ensures
      var argv := [a, b, p] + flags + more;
      && argv[..1] == [a] && argv[1] == b && argv[2] == p && argv[1..] == [b, p] + flags + more
      && argv[2..] == [p] + flags + more && argv[3..] == [] + flags + more
  {
  }

  lemma BehindProject(c: Child, name: string)
    requires HasPipe(c, name) && !c.sidebar && !IsOption(c.project.value)
    ensures
      var argv := [c.program] + ChildArgs(c);
      && NamesProject(argv) && !LacksPath(argv) && argv[2] == c.project.value && argv[..1] == [c.program]
      && (ARGUMENTS in Tail(argv) <==> c.arguments != []) && Behind(argv) == Left(c) + FlagsOf(c) + c.arguments
  {
    ProjectArgv(c);
    var argv, flags := [c.program] + ChildArgs(c), FlagsOf(c);
    Slices(c.program, PROJECT, c.project.value, flags, c.arguments);
    assert ARGUMENTS in argv[1..] <==> c.arguments != [] by {
      ArgumentsFlag(c, name);
    }
    hide FlagsOf, ChildArgs, IsOption;
  }

  lemma ArgumentsFlag(c: Child, name: string)
    requires HasPipe(c, name) && c.project.Some? && !IsOption(c.project.value)
    ensures ARGUMENTS in [PROJECT, c.project.value] + FlagsOf(c) + c.arguments <==> c.arguments != []
  {
    FlagsAreOwn(_ => true, c, name);
    hide FlagsOf;
    assert PROJECT != ARGUMENTS && c.project.value != ARGUMENTS;
  }

  /** What is left, and what is noted, of a Project's arguments. */
  lemma ProjectParts(isPipe: string -> bool, c: Child, name: string)
    requires HasPipe(c, name) && !c.sidebar && !IsOption(c.project.value)
    ensures
      var args := Left(c) + FlagsOf(c) + c.arguments;
      && Others(args) == Left(c) + Others(c.arguments)
      && (SIDEBAR in args <==> SIDEBAR in c.arguments)
      && (RESTART in args <==> c.restart || RESTART in c.arguments)
      && (ArePipes(isPipe, args) <==> isPipe(name) && ArePipes(isPipe, c.arguments))
      && ((forall k :: 0 <= k < |c.arguments| ==> !IsPipeFlag(c.arguments[k])) ==>
            PipeOf(isPipe, args) == if isPipe(name) then Some(name) else None)
  {
    var left, flags := Left(c), FlagsOf(c);
    FlagsAreOwn(isPipe, c, name);
    LeftIsOther(isPipe, c);
    hide *;
    assert left + [] + Others(c.arguments) == left + Others(c.arguments);
    OthersJoin(left + flags, c.arguments);
    OthersJoin(left, flags);
    ArePipesJoin(isPipe, left + flags, c.arguments);
    ArePipesJoin(isPipe, left, flags);
    PipeBehind(isPipe, left, flags);
    if forall k :: 0 <= k < |c.arguments| ==> !IsPipeFlag(c.arguments[k]) {
      PipeJoins(isPipe, left + flags, c.arguments);
    }
  }

  lemma LeftIsOther(isPipe: string -> bool, c: Child)
    requires c.project.Some? && !IsOption(c.project.value)
    ensures Others(Left(c)) == Left(c) && SIDEBAR !in Left(c) && RESTART !in Left(c)
    ensures ArePipes(isPipe, Left(c)) && forall k :: 0 <= k < |Left(c)| ==> !IsPipeFlag(Left(c)[k])
  {
    OthersAreAll(Left(c));
    hide Others;
  }

  lemma {:induction false} ArePipesJoin(isPipe: string -> bool, xs: seq<string>, ys: seq<string>)
    ensures ArePipes(isPipe, xs + ys) <==> ArePipes(isPipe, xs) && ArePipes(isPipe, ys)
  {
    hide IsPipeFlag, NameOf;
    var all := xs + ys;
    assert forall k :: 0 <= k < |xs| ==> all[k] == xs[k];
    assert forall k :: 0 <= k < |ys| ==> all[|xs| + k] == ys[k];
  }

  lemma {:induction false} PipeBehind(isPipe: string -> bool, xs: seq<string>, ys: seq<string>)
    requires forall k :: 0 <= k < |xs| ==> !IsPipeFlag(xs[k])
    ensures PipeOf(isPipe, xs + ys) == PipeOf(isPipe, ys)
  {
    if ys == [] {
      PipeJoins(isPipe, [], xs);
      assert xs + ys == [] + xs;
    } else {
      assert (xs + ys)[..|xs + ys| - 1] == xs + ys[..|ys| - 1];
      PipeBehind(isPipe, xs, ys[..|ys| - 1]);
    }
  }

  /** What is read of a Project's command line. */
  lemma {:induction false} ProjectReading(isProject: string -> bool, isPipe: string -> bool, c: Child, name: string,
                                          r: Reading)
    requires HasPipe(c, name) && !c.sidebar && !IsOption(c.project.value)
    requires Reads(isProject, isPipe, [c.program] + ChildArgs(c), r)
    ensures r.argv == [c.program] + (Left(c) + Others(c.arguments)) && r.project == c.project
    ensures r.valid ==> isProject(c.project.value) && isPipe(name)
    ensures
      (forall k :: 0 <= k < |c.arguments| ==> !IsOwnFlag(c.arguments[k])) ==>
        && !r.sidebar && r.restarted == c.restart && r.pipe == (if isPipe(name) then Some(name) else None)
        && (isProject(c.project.value) && isPipe(name) ==> r.valid)
  {
    BehindProject(c, name);
    ProjectParts(isPipe, c, name);
    if forall k :: 0 <= k < |c.arguments| ==> !IsOwnFlag(c.arguments[k]) {
      NoneIsOwn(isPipe, c.arguments);
    }
    hide Others, PipeOf, ArePipes, IsOwnFlag, FlagsOf, ChildArgs, Tail, Behind, IsOption, LacksPath, Left, NamesProject;
  }

  lemma {:induction false} ProjectReadsBack(isProject: string -> bool, isPipe: string -> bool, c: Child, name: string,
                                            r: Reading)
    requires HasPipe(c, name) && !c.sidebar && Reads(isProject, isPipe, [c.program] + ChildArgs(c), r)
    ensures IsFaithful(c, name, r) <==> IsStartable(isProject, isPipe, c, name)
  {
    if IsOption(c.project.value) {
      ProjectArgv(c);
      hide FlagsOf, IsOption;
    } else {
      ProjectReading(isProject, isPipe, c, name, r);
      OthersAreAll(c.arguments);
      hide Others, IsOwnFlag, ChildArgs, IsOption, Reads;
      assert c.arguments != [] ==> r.argv[1..] == Others(c.arguments);
      assert c.arguments == [] ==> Others(c.arguments) == [];
    }
  }

  lemma {:induction false} NoneIsOwn(isPipe: string -> bool, args: seq<string>)
    requires forall k :: 0 <= k < |args| ==> !IsOwnFlag(args[k])
    ensures SIDEBAR !in args && RESTART !in args && ArePipes(isPipe, args)
    ensures forall k :: 0 <= k < |args| ==> !IsPipeFlag(args[k])
  {
  }

  // ---- A sidebar ----

  function MoreOf(c: Child): seq<string> {
    (if c.restart then [RESTART] else []) + (if c.arguments != [] then [ARGUMENTS] else []) + c.arguments
  }

  lemma BehindSidebar(c: Child, name: string)
    requires HasPipe(c, name) && c.sidebar
    ensures
      var argv := [c.program] + ChildArgs(c);
      && !NamesProject(argv) && argv[..1] == [c.program] && Tail(argv) == Behind(argv) == [c.pipe, SIDEBAR] + MoreOf(c)
  {
    SidebarArgs(c);
    hide ChildArgs, MoreOf;
    assert ([c.program] + ChildArgs(c))[1..] == ChildArgs(c);
    assert c.pipe != PROJECT by {
      assert c.pipe[2] == PIPE[2] != PROJECT[2];
    }
  }

  lemma SidebarArgs(c: Child)
    requires c.sidebar
    ensures ChildArgs(c) == [c.pipe, SIDEBAR] + MoreOf(c)
  {
  }

  lemma SidebarAlone(isPipe: string -> bool, c: Child, name: string)
    requires HasPipe(c, name)
    ensures
      var args := [c.pipe, SIDEBAR];
      && Others(args) == [] && RESTART !in args && ARGUMENTS !in args
      && (ArePipes(isPipe, args) <==> isPipe(name)) && PipeOf(isPipe, args) == if isPipe(name) then Some(name) else None
  {
    FlagsDiffer();
    var args := [c.pipe, SIDEBAR];
    assert IsPipeFlag(c.pipe) && NameOf(c.pipe) == name;
    AllOwn(args);
    assert args[..1] == [c.pipe] && [c.pipe][..0] == [];
    Nothing(isPipe);
    assert PipeOf(isPipe, [c.pipe]) == if isPipe(name) then Some(name) else None;
  }

  lemma {:induction false} SidebarReadsBack(isProject: string -> bool, isPipe: string -> bool, c: Child, name: string,
                                            r: Reading)
    requires HasPipe(c, name) && c.sidebar && Reads(isProject, isPipe, [c.program] + ChildArgs(c), r)
    ensures IsFaithful(c, name, r) <==> IsStartable(isProject, isPipe, c, name)
  {
    BehindSidebar(c, name);
    SidebarAlone(isPipe, c, name);
    var args, more := [c.pipe, SIDEBAR], MoreOf(c);
    ArePipesJoin(isPipe, args, more);
    assert c.restart ==> RESTART in more;
    assert c.arguments != [] ==> ARGUMENTS in more;
    assert !c.restart && c.arguments == [] ==> args + more == args;
    assert SIDEBAR in args + more && (RESTART in more ==> RESTART in args + more);
    assert ARGUMENTS in more ==> ARGUMENTS in args + more;
    hide Others, PipeOf, ArePipes, IsOwnFlag, ChildArgs, Tail, Behind, IsOption, NamesProject, MoreOf;
  }

  // ---- Both ----

  /**
    A child reads from its command line exactly what the shell started it for, and the user's own arguments,
    if and only if it is startable: a sidebar alone, or a Project whose path is no option and whose user
    arguments are none of the shell's own flags.
   */
  lemma {:induction false} ChildReadsBack(isProject: string -> bool, isPipe: string -> bool, c: Child, name: string,
                                          r: Reading)
    requires HasPipe(c, name) && Reads(isProject, isPipe, [c.program] + ChildArgs(c), r)
    ensures IsFaithful(c, name, r) <==> IsStartable(isProject, isPipe, c, name)
  {
    if c.sidebar {
      SidebarReadsBack(isProject, isPipe, c, name, r);
    } else {
      ProjectReadsBack(isProject, isPipe, c, name, r);
    }
  }

  /** The shell writes the command line, the runtime splits it, and the child reads it. */
  method StartChild(isProject: string -> bool, isPipe: string -> bool, c: Child, name: string)
    returns (line: string, r: Reading)
    requires HasPipe(c, name)
    ensures IsProgramPath(c.program) ==> (IsFaithful(c, name, r) <==> IsStartable(isProject, isPipe, c, name))
  {
    hide ParseCommandLine, ChildArgs, IsFaithful, IsStartable, IsReading, Quoted, Spaced;
    line := BuildChildCommandLine(c);
    r := ParseArgs(isProject, isPipe, ParseCommandLine(line));
    if IsProgramPath(c.program) {
      ChildReadsBack(isProject, isPipe, c, name, r);
    }
  }
}
