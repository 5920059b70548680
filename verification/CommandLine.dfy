/**
  Quoting arguments for a child process, and the rules by which the Microsoft C runtime
  takes a command line apart again.
 */
module CommandLine {
  import opened Wrappers

  // ---- Quoting ----

  predicate NeedsQuotes(arg: string) {
    arg == "" || exists k :: 0 <= k < |arg| && IsSpecial(arg[k])
  }

  predicate IsSpecial(c: char) {
    c == ' ' || c == '\t' || c == '\n' || c == '\U{000B}' || c == '"'
  }

  function Slashes(n: nat): (s: string)
    ensures |s| == n && forall k :: 0 <= k < n ==> s[k] == '\\'
  {
    seq(n, _ => '\\')
  }

  /** How many backslashes a text starts with. */
  function Leading(s: string): (n: nat)
    ensures n <= |s| && (n < |s| ==> s[n] != '\\')
    ensures forall k :: 0 <= k < n ==> s[k] == '\\'
  {
    if s == "" || s[0] != '\\' then 0 else Leading(s[1..]) + 1
  }

  /** What stands between the quotes: backslashes are doubled before a quote, and a quote is escaped. */
  function Body(arg: string): (r: string)
    ensures |r| <= 2 * |arg|
    decreases |arg|
  {
    var n := Leading(arg);
    if n == |arg| then Slashes(2 * n)
    else Piece(n, arg[n]) + Body(arg[n + 1..])
  }

  function Quoted(arg: string): (r: string)
    ensures |r| <= 2 * |arg| + 2
  {
    if NeedsQuotes(arg) then ['"'] + Body(arg) + ['"'] else arg
  }

  // ---- Taking a command line apart ----

  predicate IsBlank(c: char) {
    c == ' ' || c == '\t'
  }

  /**
    The rest of an argument and what follows it. Of n backslashes before a quote, n / 2 stay;
    an odd one makes the quote a character. Two quotes inside quotes are one character.
   */
  function ParseArg(s: string, quoted: bool): (r: (string, string))
    ensures |r.1| <= |s|
    decreases |s|
  {
    var n := Leading(s);
    var t := s[n..];
    if t == "" then (Slashes(n), "")
    else if t[0] == '"' then
      if n % 2 == 1 then Prepend(Slashes(n / 2) + ['"'], ParseArg(t[1..], quoted))
      else if quoted && |t| >= 2 && t[1] == '"' then Prepend(Slashes(n / 2) + ['"'], ParseArg(t[2..], quoted))
      else Prepend(Slashes(n / 2), ParseArg(t[1..], !quoted))
    else if !quoted && IsBlank(t[0]) then (Slashes(n), t)
    else Prepend(Slashes(n) + [t[0]], ParseArg(t[1..], quoted))
  }

  function Prepend(front: string, r: (string, string)): (string, string) {
    (front + r.0, r.1)
  }

  function SkipBlanks(s: string): (r: string)
    ensures |r| <= |s| && (r != "" ==> !IsBlank(r[0]))
  {
    if s != "" && IsBlank(s[0]) then SkipBlanks(s[1..]) else s
  }

  /** All arguments of a text, separated by blanks. */
  function ParseArgs(s: string): seq<string>
    decreases |s|
  {
    var t := SkipBlanks(s);
    if t == "" then []
    else
      var (arg, rest) := ParseArg(t, false);
      [arg] + ParseArgs(rest)
  }

  /** The program name: a quote only switches blanks on and off, and backslashes are characters. */
  function ParseProgram(s: string, quoted: bool): (string, string) {
    if s == "" || (!quoted && IsBlank(s[0])) then ("", s)
    else if s[0] == '"' then ParseProgram(s[1..], !quoted)
    else Prepend([s[0]], ParseProgram(s[1..], quoted))
  }

  function ParseCommandLine(line: string): seq<string> {
    var (program, rest) := ParseProgram(line, false);
    [program] + ParseArgs(rest)
  }

  // ---- Round trip ----

  lemma {:induction false} LeadingOf(n: nat, rest: string)
    requires rest == "" || rest[0] != '\\'
    ensures Leading(Slashes(n) + rest) == n && (Slashes(n) + rest)[n..] == rest
  {
    var s := Slashes(n) + rest;
    if n > 0 {
      assert s[1..] == Slashes(n - 1) + rest;
      LeadingOf(n - 1, rest);
    }
  }

  lemma LeadingPart(s: string)
    ensures s == Slashes(Leading(s)) + s[Leading(s)..]
  {
  }

  /** What may follow an argument: nothing, or a blank. */
  predicate IsEnd(more: string) {
    more == "" || IsBlank(more[0])
  }

  /** One step of the parser: some backslashes and the character behind them. */
  lemma ParseStep(n: nat, c: char, rest: string, quoted: bool)
    requires c != '\\'
    ensures ParseArg(Slashes(n) + ([c] + rest), quoted) ==
            if c == '"' then
              if n % 2 == 1 then Prepend(Slashes(n / 2) + [c], ParseArg(rest, quoted))
              else if quoted && rest != "" && rest[0] == c then
                Prepend(Slashes(n / 2) + [c], ParseArg(rest[1..], quoted))
              else Prepend(Slashes(n / 2), ParseArg(rest, !quoted))
            else if !quoted && IsBlank(c) then (Slashes(n), [c] + rest)
            else Prepend(Slashes(n) + [c], ParseArg(rest, quoted))
  {
    LeadingOf(n, [c] + rest);
    hide Leading;
    assert ([c] + rest)[1..] == rest && (rest != "" ==> ([c] + rest)[2..] == rest[1..]);
  }

  /** The text between the quotes, the closing quote, and the end of the argument. */
  lemma {:induction false} BodyParses(arg: string, more: string)
    requires IsEnd(more)
    ensures ParseArg(Body(arg) + ['"'] + more, true) == (arg, more)
    decreases |arg|
  {
    hide ParseArg, Leading;
    var n := Leading(arg);
    LeadingPart(arg);
    BodyStep(arg);
    hide Body;
    var s := Body(arg) + ['"'] + more;
    if n == |arg| {
      assert s == Slashes(2 * n) + (['"'] + more);
      ParseStep(2 * n, '"', more, true);
      EndParses(more);
      assert arg == Slashes(n) && Slashes(n) + "" == arg;
    } else {
      var rest := Body(arg[n + 1..]) + ['"'] + more;
      var escaped := if arg[n] == '"' then 2 * n + 1 else n;
      assert s == Slashes(escaped) + ([arg[n]] + rest);
      ParseStep(escaped, arg[n], rest, true);
      BodyParses(arg[n + 1..], more);
      assert Slashes(n) + [arg[n]] + arg[n + 1..] == arg;
    }
  }

  lemma EndParses(more: string)
    requires IsEnd(more)
    ensures ParseArg(more, false) == ("", more)
  {
    LeadingOf(0, more);
    assert Slashes(0) + more == more;
  }

  lemma {:induction false} PlainParses(arg: string, more: string)
    requires IsEnd(more) && forall k :: 0 <= k < |arg| ==> !IsSpecial(arg[k])
    ensures ParseArg(arg + more, false) == (arg, more)
    decreases |arg|
  {
    hide ParseArg, Leading;
    var n := Leading(arg);
    LeadingPart(arg);
    if n == |arg| {
      SlashesEnd(n, more);
      assert arg == Slashes(n);
    } else {
      var rest := arg[n + 1..] + more;
      assert arg + more == Slashes(n) + ([arg[n]] + rest);
      ParseStep(n, arg[n], rest, false);
      PlainParses(arg[n + 1..], more);
      assert Slashes(n) + [arg[n]] + arg[n + 1..] == arg;
    }
  }

  lemma SlashesEnd(n: nat, more: string)
    requires IsEnd(more)
    ensures ParseArg(Slashes(n) + more, false) == (Slashes(n), more)
  {
    LeadingOf(n, more);
  }

  /** A quoted argument is read back, whatever it holds. */
  lemma QuotedParses(arg: string, more: string)
    requires IsEnd(more)
    ensures ParseArg(Quoted(arg) + more, false) == (arg, more)
    ensures Quoted(arg) != "" && !IsBlank(Quoted(arg)[0])
  {
    hide ParseArg, Body;
    if NeedsQuotes(arg) {
      var rest := Body(arg) + ['"'] + more;
      var s := Quoted(arg) + more;
      assert s == Slashes(0) + (['"'] + rest);
      ParseStep(0, '"', rest, false);
      BodyParses(arg, more);
      assert Slashes(0) + arg == arg;
    } else {
      PlainParses(arg, more);
      assert !IsSpecial(arg[0]);
    }
  }

  /** Arguments, each after a space. */
  function Spaced(args: seq<string>): string {
    if args == [] then "" else [' '] + Quoted(args[0]) + Spaced(args[1..])
  }

  /** Every list of arguments is read back. */
  lemma {:induction false} ArgsRoundTrip(args: seq<string>)
    ensures ParseArgs(Spaced(args)) == args
    decreases |args|
  {
    hide Quoted, ParseArg;
    if args != [] {
      var s := Spaced(args);
      var more := Spaced(args[1..]);
      var t := Quoted(args[0]) + more;
      assert IsEnd(more) by {
        SpacedEnds(args[1..]);
      }
      QuotedParses(args[0], more);
      assert s == [' '] + t && s[1..] == t;
      assert SkipBlanks(t) == t;
      ArgsRoundTrip(args[1..]);
      assert [args[0]] + args[1..] == args;
    }
  }

  lemma SpacedEnds(args: seq<string>)
    ensures IsEnd(Spaced(args))
  {
  }

  lemma {:induction false} SpacedAppend(args: seq<string>, arg: string)
    ensures Spaced(args + [arg]) == Spaced(args) + [' '] + Quoted(arg)
  {
    hide Quoted;
    if args == [] {
      assert args + [arg] == [arg] && [arg][1..] == [];
    } else {
      assert (args + [arg])[1..] == args[1..] + [arg];
      SpacedAppend(args[1..], arg);
    }
  }

  lemma {:induction false} ProgramInQuotes(name: string, more: string)
    requires '"' !in name && IsEnd(more)
    ensures ParseProgram(name + ['"'] + more, true) == (name, more)
  {
    var s := name + ['"'] + more;
    if name == "" {
      assert s[1..] == more;
    } else {
      assert s[1..] == name[1..] + ['"'] + more;
      ProgramInQuotes(name[1..], more);
      assert [name[0]] + name[1..] == name;
    }
  }

  lemma {:induction false} PlainProgram(name: string, more: string)
    requires IsEnd(more) && forall k :: 0 <= k < |name| ==> !IsSpecial(name[k])
    ensures ParseProgram(name + more, false) == (name, more)
  {
    if name == "" {
      assert name + more == more;
    } else {
      assert (name + more)[1..] == name[1..] + more;
      PlainProgram(name[1..], more);
      assert [name[0]] + name[1..] == name;
    }
  }

  /** A path of a program: no quotes, and no backslash at the end. */
  predicate IsProgramPath(path: string) {
    path != "" && '"' !in path && path[|path| - 1] != '\\'
  }

  lemma {:induction false} PathBody(path: string)
    requires '"' !in path && (path == "" || path[|path| - 1] != '\\')
    ensures Body(path) == path
    decreases |path|
  {
    hide Body;
    var n := Leading(path);
    LeadingPart(path);
    BodyStep(path);
    if n < |path| {
      PathBody(path[n + 1..]);
      assert path == path[..n] + [path[n]] + path[n + 1..];
    }
  }

  /** A command line gives back the program and all arguments. */
  lemma CommandLineRoundTrip(program: string, args: seq<string>)
    requires IsProgramPath(program)
    ensures ParseCommandLine(Quoted(program) + Spaced(args)) == [program] + args
  {
    hide ParseArgs, Spaced;
    var more := Spaced(args);
    SpacedEnds(args);
    if NeedsQuotes(program) {
      PathBody(program);
      var s := Quoted(program) + more;
      assert s == ['"'] + (program + ['"'] + more) && s[1..] == program + ['"'] + more;
      ProgramInQuotes(program, more);
    } else {
      PlainProgram(program, more);
    }
    ArgsRoundTrip(args);
  }

  // ---- Into a buffer ----

  /** Writes a quoted argument behind what the buffer has; it takes at most twice its length and two more. */
  method AppendQuotedArg(buffer: array<char>, at: nat, arg: string) returns (end: nat)
    requires at + |Quoted(arg)| <= buffer.Length
    modifies buffer
    ensures end == at + |Quoted(arg)| <= buffer.Length && end <= at + 2 * |arg| + 2
    ensures buffer[..end] == old(buffer[..at]) + Quoted(arg)
  {
    hide Body, NeedsQuotes;
    var quote := MustQuote(arg);
    if !quote {
      end := Append(buffer, at, arg);
      return;
    }
    ghost var start := buffer[..at];
    end := Append(buffer, at, ['"']);
    end := AppendBody(buffer, end, arg);
    end := Append(buffer, end, ['"']);
    assert start + ['"'] + Body(arg) + ['"'] == start + (['"'] + Body(arg) + ['"']);
  }

  method AppendBody(buffer: array<char>, at: nat, arg: string) returns (end: nat)
    requires at + |Body(arg)| <= buffer.Length
    modifies buffer
    ensures end == at + |Body(arg)| <= buffer.Length
    ensures buffer[..end] == old(buffer[..at]) + Body(arg)
  {
    hide Body, Leading, Slashes;
    end := at;
    var p: nat := 0;
    assert arg[0..] == arg;
    while true
      invariant p <= |arg| && end + |Body(arg[p..])| == at + |Body(arg)|
      invariant buffer[..end] + Body(arg[p..]) == old(buffer[..at]) + Body(arg)
      decreases |arg| - p
    {
      var slashes := CountSlashes(arg, p);
      BodyStep(arg[p..]);
      ghost var done := buffer[..end];
      if p + slashes == |arg| {
        end := Append(buffer, end, Slashes(2 * slashes));
        return;
      }
      var c := arg[p + slashes];
      var piece := Piece(slashes, c);
      assert arg[p..][slashes] == c && arg[p..][slashes + 1..] == arg[p + slashes + 1..];
      p := p + slashes + 1;
      assert done + (piece + Body(arg[p..])) == done + piece + Body(arg[p..]);
      end := Append(buffer, end, piece);
    }
  }

  method MustQuote(arg: string) returns (quote: bool)
    ensures quote <==> NeedsQuotes(arg)
  {
    quote := |arg| == 0;
    for k := 0 to |arg|
      invariant quote <==> |arg| == 0 || exists j :: 0 <= j < k && IsSpecial(arg[j])
    {
      quote := quote || IsSpecial(arg[k]);
    }
  }

  /** What some backslashes and the character behind them become. */
  function Piece(n: nat, c: char): (r: string)
    ensures |r| <= 2 * n + 2
  {
    Slashes(if c == '"' then 2 * n + 1 else n) + [c]
  }

  lemma {:induction false} BodyStep(arg: string)
    ensures
      var n := Leading(arg);
      Body(arg) == if n == |arg| then Slashes(2 * n) else Piece(n, arg[n]) + Body(arg[n + 1..])
  {
    hide Leading, Slashes, Piece;
  }

  method CountSlashes(arg: string, p: nat) returns (n: nat)
    requires p <= |arg|
    ensures n == Leading(arg[p..]) && p + n <= |arg|
  {
    n := 0;
    while p + n < |arg| && arg[p + n] == '\\'
      invariant p + n <= |arg| && Leading(arg[p..]) == n + Leading(arg[p + n..])
    {
      assert arg[p + n..][1..] == arg[p + n + 1..];
      n := n + 1;
    }
  }

  /** Copies a text behind what the buffer has. */
  method Append(buffer: array<char>, at: nat, text: string) returns (end: nat)
    requires at + |text| <= buffer.Length
    modifies buffer
    ensures end == at + |text| && buffer[..end] == old(buffer[..at]) + text
  {
    for i := 0 to |text|
      invariant buffer[..at + i] == old(buffer[..at]) + text[..i]
    {
      buffer[at + i] := text[i];
    }
    assert text[..|text|] == text;
    return at + |text|;
  }

  // ---- The command line of a Project ----

  datatype Child = Child(
    program: string, pipe: string, project: Option<string>, sidebar: bool, restart: bool, arguments: seq<string>)

  /** The arguments that a child process must see. */
  function ChildArgs(c: Child): seq<string>
    requires !c.sidebar ==> c.project.Some?
  {
    (if c.sidebar then [] else ["--project", c.project.value])
    + [c.pipe]
    + (if c.sidebar then ["--internal-sidebar"] else [])
    + (if c.restart then ["--anvil-project-restart"] else [])
    + (if c.arguments != [] then ["--anvil-project-arguments"] else [])
    + c.arguments
  }

  function ArgumentsCapacity(args: seq<string>): nat {
    if args == [] then 0 else ArgumentsCapacity(args[..|args| - 1]) + 2 * |args[|args| - 1]| + 4
  }

  /** The size of the buffer, which also counts the terminator of the program path twice. */
  function Capacity(c: Child): nat {
    (|c.program| + 1) * 2 + |c.pipe| * 2 + (if c.project.Some? then |c.project.value| * 2 else 0) + 128
      + ArgumentsCapacity(c.arguments)
  }

  /** What arguments take, each with a space. */
  function Needed(args: seq<string>): nat {
    if args == [] then 0 else Needed(args[..|args| - 1]) + 1 + |Quoted(args[|args| - 1])|
  }

  lemma {:induction false} NeededJoins(xs: seq<string>, ys: seq<string>)
    ensures Needed(xs + ys) == Needed(xs) + Needed(ys)
  {
    if ys == [] {
      assert xs + ys == xs;
    } else {
      assert (xs + ys)[..|xs + ys| - 1] == xs + ys[..|ys| - 1];
      NeededJoins(xs, ys[..|ys| - 1]);
    }
  }

  lemma NeededOne(arg: string)
    ensures Needed([arg]) == 1 + |Quoted(arg)| && Needed([]) == 0
  {
    assert [arg][..0] == [];
  }

  lemma {:induction false} NeededArguments(args: seq<string>)
    ensures Needed(args) <= ArgumentsCapacity(args)
  {
    if args != [] {
      NeededArguments(args[..|args| - 1]);
    }
  }

  lemma ConstantsArePlain()
    ensures |Quoted("--project")| == 9 && |Quoted("--internal-sidebar")| == 18
    ensures |Quoted("--anvil-project-restart")| == 23 && |Quoted("--anvil-project-arguments")| == 25
  {
    hide Body;
  }

  /** The buffer has room for the program, all arguments and the terminator. */
  lemma CapacitySuffices(c: Child)
    requires !c.sidebar ==> c.project.Some?
    ensures |Quoted(c.program)| + Needed(ChildArgs(c)) + 1 <= Capacity(c)
  {
    hide Needed, ArgumentsCapacity, NeedsQuotes, Body;
    var project: seq<string> := if c.sidebar then [] else ["--project", c.project.value];
    var sidebar: seq<string> := if c.sidebar then ["--internal-sidebar"] else [];
    var restart: seq<string> := if c.restart then ["--anvil-project-restart"] else [];
    var more: seq<string> := if c.arguments != [] then ["--anvil-project-arguments"] else [];
    if !c.sidebar {
      NeededOne("--project");
      NeededOne(c.project.value);
      NeededJoins(["--project"], [c.project.value]);
      assert ["--project"] + [c.project.value] == project;
    }
    NeededOne(c.pipe);
    NeededOne("--internal-sidebar");
    NeededOne("--anvil-project-restart");
    NeededOne("--anvil-project-arguments");
    NeededArguments(c.arguments);
    ConstantsArePlain();
    hide Quoted;
    NeededJoins(project, [c.pipe]);
    NeededJoins(project + [c.pipe], sidebar);
    NeededJoins(project + [c.pipe] + sidebar, restart);
    NeededJoins(project + [c.pipe] + sidebar + restart, more);
    NeededJoins(project + [c.pipe] + sidebar + restart + more, c.arguments);
  }

  /** Builds the command line of a child: its program and arguments are read back as they are. */
  method BuildChildCommandLine(c: Child) returns (line: string)
    requires !c.sidebar ==> c.project.Some?
    ensures line == Quoted(c.program) + Spaced(ChildArgs(c)) && |line| < Capacity(c)
    ensures IsProgramPath(c.program) ==> ParseCommandLine(line) == [c.program] + ChildArgs(c)
  {
    hide Quoted, Spaced, Needed, ParseCommandLine, Capacity;
    CapacitySuffices(c);
    var args := ChildArgs(c);
    var buffer := new char[Capacity(c)];
    var n := AppendQuotedArg(buffer, 0, c.program);
    NoneSpaced(args);
    assert [] + Quoted(c.program) == Quoted(c.program) + [];
    for i := 0 to |args|
      invariant n == |Quoted(c.program)| + Needed(args[..i]) < buffer.Length
      invariant buffer[..n] == Quoted(c.program) + Spaced(args[..i])
    {
      NeededPrefix(args, i);
      assert args[..i + 1] == args[..i] + [args[i]];
      SpacedAppend(args[..i], args[i]);
      ghost var done := buffer[..n];
      n := Append(buffer, n, [' ']);
      n := AppendQuotedArg(buffer, n, args[i]);
      assert done + [' '] + Quoted(args[i]) == Quoted(c.program) + (Spaced(args[..i]) + [' '] + Quoted(args[i]));
    }
    assert args[..|args|] == args;
    line := buffer[..n];
    if IsProgramPath(c.program) {
      CommandLineRoundTrip(c.program, args);
    }
  }

  lemma NoneSpaced(args: seq<string>)
    ensures Spaced(args[..0]) == "" && Needed(args[..0]) == 0
  {
  }

  lemma {:induction false} NeededPrefix(args: seq<string>, i: nat)
    requires i < |args|
    ensures Needed(args[..i + 1]) == Needed(args[..i]) + 1 + |Quoted(args[i])| <= Needed(args)
  {
    assert args[..i + 1][..i] == args[..i];
    NeededJoins(args[..i + 1], args[i + 1..]);
    assert args[..i + 1] + args[i + 1..] == args;
  }
}
