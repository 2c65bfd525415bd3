/** CliRuntimeLib.cpp: command lines that run command lines, over a stack of argument frames. */
module CliArgs {
  import opened Wrappers
  import opened CliTable
  import opened CliRuntime

  const MAX_PARSER_RECURSION := 16

  datatype Frame = Frame(argc: nat, argv: Option<seq<string>>, numParams: int)

  const EMPTY := Frame(0, None, -1)

  /** What a command does beside its own work: it runs other lines, or its own extra arguments
      under the name of another command. */
  datatype Action = RunLine(argv: seq<string>) | RunExtra(name: string)

  /** `actions` and `code` are the commands' own: what number `i` runs on `argv`, and what it returns. */
  datatype Env = Env(upper: char -> char, scan: Scanner, ptr: Pointer,
                     actions: (nat, seq<string>) -> seq<Action>, code: (nat, seq<string>) -> int)

  /** FatalError does not return. */
  datatype Outcome = Fatal | Returned(code: int)

  ghost predicate EnvOk(env: Env) {
    && SizesOk(env.scan, env.ptr)
    && forall i, argv, k | 0 <= k < |env.actions(i, argv)| && env.actions(i, argv)[k].RunLine? ::
         |env.actions(i, argv)[k].argv| >= 1
  }

  // ---- commands ----

  predicate SameName(upper: char -> char, a: string, b: string) {
    |a| == |b| && forall i | 0 <= i < |a| :: a[i] == b[i] || upper(a[i]) == upper(b[i])
  }

  predicate Resolves(upper: char -> char, f: Func, name: string, allowHidden: bool) {
    (!f.hidden || allowHidden) && SameName(upper, if name == "?" then "-help" else name, f.name)
  }

  /** The first command the name resolves to, or the number of commands. */
  function Find(upper: char -> char, fs: seq<Func>, name: string, allowHidden: bool, i: nat): (k: nat)
    requires i <= |fs|
    ensures i <= k <= |fs| && (k < |fs| ==> Resolves(upper, fs[k], name, allowHidden))
    ensures forall j | i <= j < k :: !Resolves(upper, fs[j], name, allowHidden)
    decreases |fs| - i
  {
    if i == |fs| || Resolves(upper, fs[i], name, allowHidden) then i
    else Find(upper, fs, name, allowHidden, i + 1)
  }

  function Uppered(upper: char -> char, s: string): (r: string)
    ensures |r| == |s| && forall i | 0 <= i < |s| :: r[i] == upper(s[i])
  {
    if s == [] then [] else [upper(s[0])] + Uppered(upper, s[1..])
  }

  /** Two names are the same exactly when their upper-case forms are. */
  lemma SameNameExactly(upper: char -> char, a: string, b: string)
    ensures SameName(upper, a, b) <==> Uppered(upper, a) == Uppered(upper, b)
  {
    var ua, ub := Uppered(upper, a), Uppered(upper, b);
    if ua == ub {
      forall i | 0 <= i < |a| ensures upper(a[i]) == upper(b[i]) {
        assert ua[i] == ub[i];
      }
    }
  }

  /** `f` has the name, and may be run from here. */
  predicate Answers(upper: char -> char, f: Func, name: string, allowHidden: bool) {
    && Uppered(upper, f.name) == Uppered(upper, if name == "?" then "-help" else name)
    && (f.hidden ==> allowHidden)
  }

  /** A line finds the first command of its name, "?" standing for "-help"; a nested line finds hidden
      commands as well. */
  lemma FindExactly(upper: char -> char, fs: seq<Func>, name: string, allowHidden: bool)
    ensures var k := Find(upper, fs, name, allowHidden, 0);
            && (k < |fs| ==> Answers(upper, fs[k], name, allowHidden))
            && (forall j | 0 <= j < k :: !Answers(upper, fs[j], name, allowHidden))
  {
    forall j | 0 <= j < |fs| ensures Resolves(upper, fs[j], name, allowHidden) <==> Answers(upper, fs[j], name, allowHidden) {
      SameNameExactly(upper, if name == "?" then "-help" else name, fs[j].name);
    }
  }

  function Public(fs: seq<Func>): seq<Func> {
    if fs == [] then [] else if fs[0].hidden then Public(fs[1..]) else [fs[0]] + Public(fs[1..])
  }

  lemma {:induction false} FindBehind(upper: char -> char, f: Func, fs: seq<Func>, name: string, i: nat)
    requires i <= |fs|
    ensures Find(upper, [f] + fs, name, true, i + 1) == Find(upper, fs, name, true, i) + 1
    decreases |fs| - i
  {
    if i < |fs| && !Resolves(upper, fs[i], name, true) {
      FindBehind(upper, f, fs, name, i + 1);
    }
  }

  /** A line that is not nested finds what it would find if there were no hidden commands. */
  lemma {:induction false} HiddenOnlyNested(upper: char -> char, fs: seq<Func>, name: string, i: nat)
    requires i <= |fs|
    ensures var k, shown := Find(upper, fs, name, false, i), Public(fs[i..]);
            var j := Find(upper, shown, name, true, 0);
            && (k < |fs| <==> j < |shown|)
            && (k < |fs| ==> !fs[k].hidden && fs[k] == shown[j])
    decreases |fs| - i
  {
    if i < |fs| {
      var rest := Public(fs[i + 1..]);
      assert fs[i..][1..] == fs[i + 1..];
      HiddenOnlyNested(upper, fs, name, i + 1);
      if fs[i].hidden {
        assert Public(fs[i..]) == rest;
      } else {
        assert Public(fs[i..]) == [fs[i]] + rest;
        assert Resolves(upper, fs[i], name, false) == Resolves(upper, fs[i], name, true);
        FindBehind(upper, fs[i], rest, name, 0);
      }
    }
  }

  // ---- extra arguments ----

  predicate FrameOk(f: Frame) {
    f.argv.Some? ==> f.argc == |f.argv.value|
  }

  /** The arguments behind the parameters of the command that runs in frame `f`. */
  function ExtraArgs(f: Frame, name: string): (r: Option<seq<string>>)
    requires FrameOk(f)
    ensures r.Some? <==> f.argv.Some? && 0 <= f.numParams && f.numParams + 2 <= |f.argv.value|
    ensures r.Some? ==> && |r.value| == f.argc - f.numParams >= 2 && r.value[0] == "dummy" && r.value[1] == name
                        && forall i | 2 <= i < |r.value| :: r.value[i] == f.argv.value[i + f.numParams]
  {
    if f.argv.None? || f.numParams < 0 || f.argc < 2 + f.numParams then None
    else Some(["dummy", name] + f.argv.value[2 + f.numParams..])
  }

  predicate Follows(f: Frame, g: Frame, name: string) {
    FrameOk(f) && g.argv.Some? && ExtraArgs(f, name) == g.argv
  }

  predicate Chain(fs: seq<Frame>, names: seq<string>) {
    |names| == |fs| && forall i, j | 0 <= i < |fs| && j == i + 1 < |fs| :: Follows(fs[i], fs[j], names[i])
  }

  /** A chain of command lines, each the extra arguments of the one before, is at most as long as
      the first has arguments: every command has at least one parameter code. */
  lemma {:induction false} ChainBound(fs: seq<Frame>, names: seq<string>)
    requires |fs| > 0 && Chain(fs, names)
    requires forall i | 0 <= i < |fs| :: FrameOk(fs[i]) && fs[i].argc >= 2 && fs[i].numParams >= 1
    ensures |fs| <= fs[0].argc - 1
    decreases |fs|
  {
    if |fs| > 1 {
      assert Follows(fs[0], fs[1], names[0]);
      ChainBound(fs[1..], names[1..]);
    }
  }

  function ParamsBefore(fs: seq<Frame>, k: nat): int
    requires k <= |fs|
  {
    if k == 0 then 0 else ParamsBefore(fs, k - 1) + fs[k - 1].numParams
  }

  /** Along a chain, the arguments of each line are those of the first line that stand behind the
      parameters of all commands in between. */
  lemma {:induction false} ChainArguments(fs: seq<Frame>, names: seq<string>, k: nat)
    requires k < |fs| && Chain(fs, names) && fs[0].argv.Some? && |fs[0].argv.value| >= 2
    requires forall i | 0 <= i < |fs| :: FrameOk(fs[i])
    ensures fs[k].argv.Some? && 0 <= ParamsBefore(fs, k) && 2 + ParamsBefore(fs, k) <= |fs[0].argv.value|
    ensures |fs[k].argv.value| >= 2 && fs[k].argv.value[2..] == fs[0].argv.value[2 + ParamsBefore(fs, k)..]
    ensures k > 0 ==> fs[k].argv.value[..2] == ["dummy", names[k - 1]]
  {
    if k > 0 {
      ChainArguments(fs, names, k - 1);
      var f, g := fs[k - 1], fs[k];
      assert Follows(f, g, names[k - 1]);
      var r := g.argv.value;
      assert r[..2] == [r[0], r[1]];
      assert r[2..] == f.argv.value[2 + f.numParams..];
      SuffixOfSuffix(f.argv.value, f.numParams, fs[0].argv.value, ParamsBefore(fs, k - 1));
    }
  }

  lemma SuffixOfSuffix(a: seq<string>, m: nat, b: seq<string>, n: nat)
    requires 2 + m <= |a| && 2 + n <= |b| && a[2..] == b[2 + n..]
    ensures 2 + n + m <= |b| && a[2 + m..] == b[2 + n + m..]
  {
    assert a[2..][m..] == a[2 + m..] && b[2 + n..][m..] == b[2 + n + m..];
  }

  class Parser {
    const G_ParserCommands: seq<Func>
    const G_ParserArgsStack: array<Frame>
    var G_ParserArgsDepth: nat

    ghost predicate Valid()
      reads this, G_ParserArgsStack
    {
      && G_ParserArgsStack.Length == MAX_PARSER_RECURSION
      && G_ParserArgsDepth <= MAX_PARSER_RECURSION
      && (forall i | 0 <= i < G_ParserArgsDepth :: FrameOk(G_ParserArgsStack[i]))
      && (forall c | c in G_ParserCommands :: Generated(c))
    }

    ghost function Frames(): seq<Frame>
      reads this, G_ParserArgsStack
      requires G_ParserArgsDepth <= G_ParserArgsStack.Length
    {
      G_ParserArgsStack[..G_ParserArgsDepth]
    }

    constructor (commands: seq<Func>)
      requires forall c | c in commands :: Generated(c)
      ensures Valid() && G_ParserArgsDepth == 0 && G_ParserCommands == commands && fresh(G_ParserArgsStack)
    {
      G_ParserCommands := commands;
      G_ParserArgsStack := new Frame[MAX_PARSER_RECURSION](_ => EMPTY);
      G_ParserArgsDepth := 0;
    }

    method ParserFindCommand(env: Env, name: string, allowHidden: bool) returns (k: nat)
      ensures k == Find(env.upper, G_ParserCommands, name, allowHidden, 0)
    {
      var cmdName := if name == "?" then "-help" else name;
      for i := 0 to |G_ParserCommands|
        invariant Find(env.upper, G_ParserCommands, name, allowHidden, 0)
               == Find(env.upper, G_ParserCommands, name, allowHidden, i)
      {
        if G_ParserCommands[i].hidden && !allowHidden {
          continue;
        }
        if SameName(env.upper, cmdName, G_ParserCommands[i].name) {
          return i;
        }
      }
      return |G_ParserCommands|;
    }

    method PushCurrentArgsForExtraArgs(argv: seq<string>) returns (fatal: bool)
      requires Valid()
      modifies this`G_ParserArgsDepth, G_ParserArgsStack
      ensures Valid()
      ensures fatal <==> old(G_ParserArgsDepth) == 16
      ensures !fatal ==> Frames() == old(Frames()) + [Frame(|argv|, Some(argv), -1)]
    {
      if G_ParserArgsDepth >= MAX_PARSER_RECURSION {
        return true;
      }
      G_ParserArgsStack[G_ParserArgsDepth] := Frame(|argv|, Some(argv), -1);
      G_ParserArgsDepth := G_ParserArgsDepth + 1;
      return false;
    }

    method PopCurrentArgsForExtraArgs()
      requires Valid()
      modifies this`G_ParserArgsDepth, G_ParserArgsStack
      ensures Valid()
      ensures Frames() == if old(Frames()) == [] then [] else old(Frames())[..old(G_ParserArgsDepth) - 1]
    {
      if G_ParserArgsDepth <= 0 {
        return;
      }
      G_ParserArgsDepth := G_ParserArgsDepth - 1;
      G_ParserArgsStack[G_ParserArgsDepth] := EMPTY;
    }

    method SetCurrentArgsNumParams(numParams: nat)
      requires Valid()
      modifies G_ParserArgsStack
      ensures Valid()
      ensures var d := G_ParserArgsDepth - 1;
              Frames() == if d < 0 then [] else old(Frames())[d := old(Frames())[d].(numParams := numParams)]
    {
      if G_ParserArgsDepth <= 0 {
        return;
      }
      var d := G_ParserArgsDepth - 1;
      G_ParserArgsStack[d] := G_ParserArgsStack[d].(numParams := numParams);
    }

    method GetExtraArgs(funcName: string) returns (extra: Option<seq<string>>)
      requires Valid()
      ensures extra == if G_ParserArgsDepth == 0 then None
                       else ExtraArgs(G_ParserArgsStack[G_ParserArgsDepth - 1], funcName)
      ensures extra.Some? <==>
                && G_ParserArgsDepth > 0
                && var f := G_ParserArgsStack[G_ParserArgsDepth - 1];
                   f.argv.Some? && 0 <= f.numParams && f.numParams + 2 <= |f.argv.value|
      ensures extra.Some? ==>
                var f := G_ParserArgsStack[G_ParserArgsDepth - 1];
                && |extra.value| == |f.argv.value| - f.numParams >= 2
                && extra.value[0] == "dummy" && extra.value[1] == funcName
                && forall i | 2 <= i < |extra.value| :: extra.value[i] == f.argv.value[i + f.numParams]
    {
      if G_ParserArgsDepth <= 0 {
        return None;
      }
      var context := G_ParserArgsStack[G_ParserArgsDepth - 1];
      if context.argv.None? || context.numParams < 0 {
        return None;
      }
      var extraStart := 2 + context.numParams;
      if context.argc < extraStart {
        return None;
      }
      var extraCount := context.argc - extraStart;
      var newArgv := ["dummy", funcName];
      for i := 0 to extraCount
        invariant newArgv == ["dummy", funcName] + context.argv.value[extraStart..extraStart + i]
      {
        newArgv := newArgv + [context.argv.value[extraStart + i]];
      }
      assert context.argv.value[extraStart..extraStart + extraCount] == context.argv.value[extraStart..];
      return Some(newArgv);
    }

    /** Commands only run their own extra arguments. */
    ghost predicate ExtraOnly(env: Env) {
      forall i, argv, k | 0 <= k < |env.actions(i, argv)| :: env.actions(i, argv)[k].RunExtra?
    }

    /** What a line returns: the command's own code when there is one and its arguments fit. */
    function Code(env: Env, argv: seq<string>, allowHidden: bool): int
      requires forall c | c in G_ParserCommands :: Generated(c)
    {
      if |argv| < 2 then -1
      else
        var k := Find(env.upper, G_ParserCommands, argv[1], allowHidden, 0);
        if k < |G_ParserCommands| && Fits(env.scan, G_ParserCommands[k], argv) then env.code(k, argv) else -1
    }

    /** A line that returns leaves every frame as it was: the caller's extra arguments are the same
        before and after. A chain of extra arguments no longer than the stack never overflows it. */
    method ParserProcessLine(env: Env, argv: seq<string>) returns (r: Outcome, ghost line: seq<string>)
      requires Valid() && EnvOk(env) && |argv| >= 1
      modifies this`G_ParserArgsDepth, G_ParserArgsStack
      ensures Valid() && line == argv
      ensures r.Returned? ==> Frames() == old(Frames())
      ensures r.Returned? ==> r.code == Code(env, argv, old(G_ParserArgsDepth) > 0)
      ensures ExtraOnly(env) && 2 <= |argv| <= 17 - old(G_ParserArgsDepth) ==> r.Returned?
      decreases MAX_PARSER_RECURSION - G_ParserArgsDepth, 0
    {
      line := argv;
      var allowHidden := G_ParserArgsDepth > 0;
      ghost var frames := Frames();
      var fatal := PushCurrentArgsForExtraArgs(argv);
      if fatal {
        return Fatal, argv;
      }
      r := Returned(-1);
      if |argv| >= 2 {
        var k := ParserFindCommand(env, argv[1], allowHidden);
        if k < |G_ParserCommands| {
          ghost var lines;
          r, lines := CallCommand(env, k, argv);
          if r.Fatal? {
            return;
          }
        }
      }
      PopCurrentArgsForExtraArgs();
      assert Frames() == frames;
    }

    /** The generated wrapper of command `k`: parameters first, then the command itself. `lines` are
        the lines that the command has run; its extra arguments stand behind its own parameters. */
    method CallCommand(env: Env, k: nat, argv: seq<string>)
      returns (r: Outcome, ghost lines: seq<Option<seq<string>>>)
      requires Valid() && EnvOk(env) && k < |G_ParserCommands| && |argv| >= 2
      requires G_ParserArgsDepth > 0
      requires G_ParserArgsStack[G_ParserArgsDepth - 1] == Frame(|argv|, Some(argv), -1)
      modifies this`G_ParserArgsDepth, G_ParserArgsStack
      ensures Valid()
      ensures r.Returned? ==> G_ParserArgsDepth == old(G_ParserArgsDepth)
                              && Frames()[..G_ParserArgsDepth - 1] == old(Frames()[..G_ParserArgsDepth - 1])
      ensures r.Returned? ==> r.code == if Fits(env.scan, G_ParserCommands[k], argv) then env.code(k, argv) else -1
      ensures r.Returned? ==>
                if !Fits(env.scan, G_ParserCommands[k], argv) then lines == []
                else LinesOf(env.actions(k, argv), argv, |G_ParserCommands[k].kinds|, lines)
      ensures ExtraOnly(env) && |argv| <= 18 - old(G_ParserArgsDepth) ==> r.Returned?
      decreases MAX_PARSER_RECURSION - G_ParserArgsDepth, 3
    {
      var cmd := G_ParserCommands[k];
      var size := if Codes(cmd.kinds) then WriteOffset(cmd.kinds, |cmd.kinds|) else 0;
      var params := new byte[size];
      SetCurrentArgsNumParams(cmd.numParams());
      var ok, cmdLine := ProcessParameters(env.scan, env.ptr, params, cmd, argv);
      if !ok {
        return Returned(-1), [];
      }
      var fatal;
      fatal, lines := RunActions(env, env.actions(k, argv));
      if fatal {
        return Fatal, lines;
      }
      r := Returned(env.code(k, argv));
    }

    /** The lines of these actions, under a command that has `n` parameters and was called with `argv`. */
    predicate LinesOf(actions: seq<Action>, argv: seq<string>, n: nat, lines: seq<Option<seq<string>>>) {
      && |lines| == |actions|
      && forall i | 0 <= i < |actions| ::
           match actions[i]
           case RunLine(line) => lines[i] == Some(line)
           case RunExtra(name) =>
             if 2 + n <= |argv| then lines[i] == Some(["dummy", name] + argv[2 + n..]) else lines[i] == None
    }

    /** What the command runs, one line after the other, until one of them is fatal. */
    method RunActions(env: Env, actions: seq<Action>) returns (fatal: bool, ghost lines: seq<Option<seq<string>>>)
      requires Valid() && EnvOk(env) && G_ParserArgsDepth > 0
      requires forall k | 0 <= k < |actions| && actions[k].RunLine? :: |actions[k].argv| >= 1
      modifies this`G_ParserArgsDepth, G_ParserArgsStack
      ensures Valid()
      ensures !fatal ==> Frames() == old(Frames())
      ensures var top := old(G_ParserArgsStack[G_ParserArgsDepth - 1]);
              !fatal && top.argv.Some? && top.numParams >= 0 ==> LinesOf(actions, top.argv.value, top.numParams, lines)
      ensures var top := old(G_ParserArgsStack[G_ParserArgsDepth - 1]);
              (&& ExtraOnly(env) && (forall k | 0 <= k < |actions| :: actions[k].RunExtra?)
               && top.numParams >= 1 && top.argc <= 18 - old(G_ParserArgsDepth)) ==> !fatal
      decreases MAX_PARSER_RECURSION - G_ParserArgsDepth, 2
    {
      ghost var frames := Frames();
      ghost var top := frames[|frames| - 1];
      lines := [];
      for i := 0 to |actions|
        invariant Valid() && G_ParserArgsDepth == old(G_ParserArgsDepth) && Frames() == frames
        invariant |lines| == i
        invariant top.argv.Some? && top.numParams >= 0 ==> LinesOf(actions[..i], top.argv.value, top.numParams, lines)
      {
        assert G_ParserArgsStack[G_ParserArgsDepth - 1] == top;
        ghost var line;
        var nested;
        nested, line := RunAction(env, actions[i]);
        if nested.Fatal? {
          return true, lines;
        }
        lines := lines + [line];
        assert actions[..i + 1] == actions[..i] + [actions[i]];
      }
      assert actions[..|actions|] == actions;
      fatal := false;
    }

    method RunAction(env: Env, action: Action) returns (r: Outcome, ghost line: Option<seq<string>>)
      requires Valid() && EnvOk(env) && G_ParserArgsDepth > 0
      requires action.RunLine? ==> |action.argv| >= 1
      modifies this`G_ParserArgsDepth, G_ParserArgsStack
      ensures Valid()
      ensures r.Returned? ==> Frames() == old(Frames())
      ensures var top := old(G_ParserArgsStack[G_ParserArgsDepth - 1]);
              top.argv.Some? && top.numParams >= 0 ==> LinesOf([action], top.argv.value, top.numParams, [line])
      ensures var top := old(G_ParserArgsStack[G_ParserArgsDepth - 1]);
              (&& ExtraOnly(env) && action.RunExtra? && top.numParams >= 1
               && top.argc <= 18 - old(G_ParserArgsDepth)) ==> r.Returned?
      decreases MAX_PARSER_RECURSION - G_ParserArgsDepth, 1
    {
      match action
      case RunLine(argv) =>
        ghost var ran;
        r, ran := ParserProcessLine(env, argv);
        line := Some(ran);
      case RunExtra(name) =>
        var extra := GetExtraArgs(name);
        if extra.None? {
          return Returned(-1), None;
        }
        ghost var ran;
        r, ran := ParserProcessLine(env, extra.value);
        line := Some(ran);
    }
  }
}
