/** The command-line option parser. */
module Options {
  import opened Basics

  /** An option with the addresses of the variables it sets, if any. */
  datatype OptionDef = OptionDef(name: string, isSet: Option<nat>, value: Option<nat>)

  /** The variables that options can point to. */
  datatype Vars = Vars(flags: map<nat, bool>, values: map<nat, string>) {
    function Mark(opt: OptionDef): Vars {
      if opt.isSet.Some? then this.(flags := flags[opt.isSet.value := true]) else this
    }

    function Give(opt: OptionDef, v: string): Vars
      requires opt.value.Some?
    {
      this.(values := values[opt.value.value := v])
    }
  }

  class Memory {
    var vars: Vars

    constructor (vars: Vars)
      ensures this.vars == vars
    {
      this.vars := vars;
    }
  }

  datatype Reason = InvalidOption | RequiresValue | TakesNoValue

  datatype Result =
    | Parsed(rest: seq<string>, vars: Vars)                     // the operands that are left
    | Failed(option: string, reason: Reason, vars: Vars)        // the error, after what was assigned

  // --------------------------------------------------------- specification

  function Find(options: seq<OptionDef>, name: string): Option<OptionDef> {
    if options == [] then None
    else if options[0].name == name then Some(options[0])
    else Find(options[1..], name)
  }

  predicate IsOption(arg: string) {
    |arg| >= 2 && arg[0] == '-'
  }

  /** The part of a long option before its first '=', or all of it. */
  function NameOf(arg: string): (name: string)
    ensures name <= arg && '=' !in name
    ensures |name| < |arg| ==> arg[|name|] == '='
  {
    if arg == "" || arg[0] == '=' then "" else [arg[0]] + NameOf(arg[1..])
  }

  function Long(options: seq<OptionDef>, arg: string, rest: seq<string>, vars: Vars): (r: Result)
    ensures r.Parsed? ==> |r.rest| <= |rest|
  {
    var name := NameOf(arg);
    match Find(options, name)
    case None => Failed(name, InvalidOption, vars)
    case Some(opt) =>
      if opt.value.Some? then
        if |name| < |arg| then Parsed(rest, vars.Mark(opt).Give(opt, arg[|name| + 1..]))
        else if rest == [] then Failed(name, RequiresValue, vars.Mark(opt))
        else Parsed(rest[1..], vars.Mark(opt).Give(opt, rest[0]))
      else if |name| < |arg| then Failed(name, TakesNoValue, vars.Mark(opt))
      else Parsed(rest, vars.Mark(opt))
  }

  function Short(options: seq<OptionDef>, cluster: string, rest: seq<string>, vars: Vars): (r: Result)
    ensures r.Parsed? ==> |r.rest| <= |rest|
    decreases |cluster|
  {
    if cluster == "" then Parsed(rest, vars)
    else
      var name := ['-', cluster[0]];
      match Find(options, name)
      case None => Failed(name, InvalidOption, vars)
      case Some(opt) =>
        if opt.value.None? then Short(options, cluster[1..], rest, vars.Mark(opt))
        else if |cluster| > 1 then Parsed(rest, vars.Mark(opt).Give(opt, cluster[1..]))
        else if rest == [] then Failed(name, RequiresValue, vars.Mark(opt))
        else Parsed(rest[1..], vars.Mark(opt).Give(opt, rest[0]))
  }

  function One(options: seq<OptionDef>, arg: string, rest: seq<string>, vars: Vars): (r: Result)
    requires IsOption(arg)
    ensures r.Parsed? ==> |r.rest| <= |rest|
  {
    if "--" <= arg then Long(options, arg, rest, vars) else Short(options, arg[1..], rest, vars)
  }

  function Parse(options: seq<OptionDef>, args: seq<string>, vars: Vars): (r: Result)
    ensures r.Parsed? ==> |r.rest| <= |args|
    decreases |args|
  {
    if args == [] || !IsOption(args[0]) then Parsed(args, vars)
    else if args[0] == "--" then Parsed(args[1..], vars)
    else
      match One(options, args[0], args[1..], vars)
      case Parsed(rest, next) => Parse(options, rest, next)
      case Failed(option, reason, next) => Failed(option, reason, next)
  }

  // --------------------------------------------------------- the parser

  method FindOption(options: seq<OptionDef>, name: string) returns (opt: Option<OptionDef>)
    ensures opt == Find(options, name)
  {
    var i := 0;
    while i < |options|
      invariant 0 <= i <= |options| && Find(options, name) == Find(options[i..], name)
    {
      if options[i].name == name {
        return Some(options[i]);
      }
      assert options[i..][1..] == options[i + 1..];
      i := i + 1;
    }
    opt := None;
  }

  /** The position of the first '=', as strchr finds it; the length if there is none. */
  method FindEquals(arg: string) returns (eq: nat)
    ensures eq == |NameOf(arg)|
  {
    eq := 0;
    while eq < |arg| && arg[eq] != '='
      invariant 0 <= eq <= |arg| && |NameOf(arg)| == eq + |NameOf(arg[eq..])|
    {
      assert arg[eq..][1..] == arg[eq + 1..];
      eq := eq + 1;
    }
  }

  datatype Error = NoError | OptionError(option: string, reason: Reason)

  /** Handles the long option at argi, which it leaves behind. */
  method ParseLong(options: seq<OptionDef>, argv: seq<string>, argi: nat, memory: Memory)
    returns (next: nat, error: Error)
    requires argi < |argv|
    modifies memory
    ensures argi < next <= |argv|
    ensures var r := Long(options, argv[argi], argv[argi + 1..], old(memory.vars));
            && memory.vars == r.vars
            && (if r.Parsed? then error == NoError && argv[next..] == r.rest
                else error == OptionError(r.option, r.reason))
  {
    var arg := argv[argi];
    var eq := FindEquals(arg);
    var optionName := arg[..eq];
    assert optionName == NameOf(arg);
    next, error := argi + 1, NoError;
    var opt := FindOption(options, optionName);
    if opt.None? {
      return next, OptionError(optionName, InvalidOption);
    }
    if opt.value.isSet.Some? {
      memory.vars := memory.vars.Mark(opt.value);
    }
    if opt.value.value.Some? {
      if eq < |arg| {
        memory.vars := memory.vars.Give(opt.value, arg[eq + 1..]);
      } else {
        if next >= |argv| {
          return next, OptionError(optionName, RequiresValue);
        }
        memory.vars := memory.vars.Give(opt.value, argv[next]);
        assert argv[next..][1..] == argv[next + 1..];
        next := next + 1;
      }
    } else if eq < |arg| {
      return next, OptionError(optionName, TakesNoValue);
    }
  }

  /** Handles the cluster of short options at argi, which it leaves behind. */
  method ParseShort(options: seq<OptionDef>, argv: seq<string>, argi: nat, memory: Memory)
    returns (next: nat, error: Error)
    requires argi < |argv| && |argv[argi]| >= 1
    modifies memory
    ensures argi < next <= |argv|
    ensures var r := Short(options, argv[argi][1..], argv[argi + 1..], old(memory.vars));
            && memory.vars == r.vars
            && (if r.Parsed? then error == NoError && argv[next..] == r.rest
                else error == OptionError(r.option, r.reason))
  {
    var arg := argv[argi][1..];
    next, error := argi + 1, NoError;
    while arg != ""
      invariant next == argi + 1 && error == NoError
      invariant Short(options, argv[argi][1..], argv[argi + 1..], old(memory.vars))
             == Short(options, arg, argv[argi + 1..], memory.vars)
      decreases |arg|
    {
      var optionName := ['-', arg[0]];
      var opt := FindOption(options, optionName);
      if opt.None? {
        return next, OptionError(optionName, InvalidOption);
      }
      arg := arg[1..];
      if opt.value.isSet.Some? {
        memory.vars := memory.vars.Mark(opt.value);
      }
      if opt.value.value.Some? {
        if arg != "" {
          memory.vars := memory.vars.Give(opt.value, arg);
        } else {
          if next >= |argv| {
            return next, OptionError(optionName, RequiresValue);
          }
          memory.vars := memory.vars.Give(opt.value, argv[next]);
          assert argv[next..][1..] == argv[next + 1..];
          next := next + 1;
        }
        break;
      }
    }
  }

  /** Assigns what the options say and returns the index of the first operand. */
  method ParseOptions(options: seq<OptionDef>, argv: seq<string>, memory: Memory) returns (argi: nat, error: Error)
    modifies memory
    ensures argi <= |argv|
    ensures var r := Parse(options, argv, old(memory.vars));
            && memory.vars == r.vars
            && (if r.Parsed? then error == NoError && argv[argi..] == r.rest
                else error == OptionError(r.option, r.reason))
  {
    argi, error := 0, NoError;
    assert argv[0..] == argv;
    while argi < |argv| && IsOption(argv[argi])
      invariant argi <= |argv| && error == NoError
      invariant Parse(options, argv, old(memory.vars)) == Parse(options, argv[argi..], memory.vars)
      decreases |argv| - argi
    {
      assert argv[argi..][0] == argv[argi] && argv[argi..][1..] == argv[argi + 1..];
      if argv[argi] == "--" {
        argi := argi + 1;
        break;
      } else if "--" <= argv[argi] {
        argi, error := ParseLong(options, argv, argi, memory);
      } else {
        argi, error := ParseShort(options, argv, argi, memory);
      }
      if error.OptionError? {
        return;
      }
    }
  }

  // ------------------------------------------ the parser inverts rendering

  /** How a cluster of short options ends: with a flag, or with a value glued on or in the next argument. */
  datatype Tail = NoTail | Glued(opt: OptionDef, value: string) | Next(opt: OptionDef, value: string)

  /** The ways of writing options on a command line. */
  datatype Setting =
    | LongEq(opt: OptionDef, value: string)      // --name=value
    | LongNext(opt: OptionDef, value: string)    // --name value
    | LongFlag(opt: OptionDef)                   // --name
    | Cluster(flags: seq<OptionDef>, tail: Tail) // -abc, -abcVALUE or -abc VALUE
  {
    predicate WellFormed(options: seq<OptionDef>) {
      match this
      case LongEq(opt, _) => IsLong(options, opt) && opt.value.Some?
      case LongNext(opt, _) => IsLong(options, opt) && opt.name != "--" && opt.value.Some?
      case LongFlag(opt) => IsLong(options, opt) && opt.name != "--" && opt.value.None?
      case Cluster(flags, tail) =>
        && (forall f :: f in flags ==> IsShort(options, f) && f.value.None?)
        && (!tail.NoTail? ==> IsShort(options, tail.opt) && tail.opt.value.Some?)
        && (tail.Glued? ==> tail.value != "")
        && Letters(flags, tail) != "" && Letters(flags, tail)[0] != '-'
    }

    function Rendered(): seq<string> {
      match this
      case LongEq(opt, value) => [opt.name + "=" + value]
      case LongNext(opt, value) => [opt.name, value]
      case LongFlag(opt) => [opt.name]
      case Cluster(flags, tail) => ["-" + Letters(flags, tail)] + (if tail.Next? then [tail.value] else [])
    }

    function Applied(vars: Vars): Vars {
      match this
      case LongEq(opt, value) => Assign(vars, opt, value)
      case LongNext(opt, value) => Assign(vars, opt, value)
      case LongFlag(opt) => vars.Mark(opt)
      case Cluster(flags, tail) =>
        var marked := MarkAll(vars, flags);
        if tail.NoTail? then marked else Assign(marked, tail.opt, tail.value)
    }
  }

  predicate IsLong(options: seq<OptionDef>, opt: OptionDef) {
    "--" <= opt.name && '=' !in opt.name && Find(options, opt.name) == Some(opt)
  }

  predicate IsShort(options: seq<OptionDef>, opt: OptionDef) {
    |opt.name| == 2 && opt.name[0] == '-' && Find(options, opt.name) == Some(opt)
  }

  function Assign(vars: Vars, opt: OptionDef, value: string): Vars {
    if opt.value.Some? then vars.Mark(opt).Give(opt, value) else vars.Mark(opt)
  }

  function MarkAll(vars: Vars, flags: seq<OptionDef>): Vars
    decreases |flags|
  {
    if flags == [] then vars else MarkAll(vars.Mark(flags[0]), flags[1..])
  }

  /** The letters of a cluster, with a value glued to the end if there is one. */
  function Letters(flags: seq<OptionDef>, tail: Tail): string {
    if flags == [] then
      match tail
      case NoTail => ""
      case Glued(opt, value) => (if |opt.name| > 1 then [opt.name[1]] else "") + value
      case Next(opt, _) => if |opt.name| > 1 then [opt.name[1]] else ""
    else (if |flags[0].name| > 1 then [flags[0].name[1]] else "") + Letters(flags[1..], tail)
  }

  function RenderAll(settings: seq<Setting>): seq<string> {
    if settings == [] then [] else settings[0].Rendered() + RenderAll(settings[1..])
  }

  /** The settings take effect in order, so the last one for a variable wins. */
  function ApplyAll(settings: seq<Setting>, vars: Vars): Vars
    decreases |settings|
  {
    if settings == [] then vars else ApplyAll(settings[1..], settings[0].Applied(vars))
  }

  lemma {:induction false} NameOfIs(name: string, rest: string)
    requires '=' !in name && (rest == "" || rest[0] == '=')
    ensures NameOf(name + rest) == name
  {
    if name == "" {
      assert name + rest == rest;
    } else {
      NameOfIs(name[1..], rest);
      assert (name + rest)[1..] == name[1..] + rest;
      assert [name[0]] + name[1..] == name;
    }
  }

  lemma {:induction false} ShortInverts(options: seq<OptionDef>, flags: seq<OptionDef>, tail: Tail, rest: seq<string>,
                                        vars: Vars)
    requires forall f :: f in flags ==> IsShort(options, f) && f.value.None?
    requires !tail.NoTail? ==> IsShort(options, tail.opt) && tail.opt.value.Some?
    requires tail.Glued? ==> tail.value != ""
    ensures Short(options, Letters(flags, tail), (if tail.Next? then [tail.value] else []) + rest, vars)
         == Parsed(rest, Cluster(flags, tail).Applied(vars))
    decreases |flags|
  {
    var more := (if tail.Next? then [tail.value] else []) + rest;
    var letters := Letters(flags, tail);
    if flags != [] {
      var f := flags[0];
      assert f in flags;
      assert ['-', f.name[1]] == f.name;
      assert letters[1..] == Letters(flags[1..], tail);
      ShortInverts(options, flags[1..], tail, rest, vars.Mark(f));
    } else if !tail.NoTail? {
      assert ['-', tail.opt.name[1]] == tail.opt.name;
      assert tail.Glued? ==> letters[1..] == tail.value;
    }
  }

  lemma OneInverts(options: seq<OptionDef>, setting: Setting, rest: seq<string>, vars: Vars)
    requires setting.WellFormed(options)
    ensures var r := setting.Rendered();
            && r != [] && IsOption(r[0]) && r[0] != "--"
            && One(options, r[0], r[1..] + rest, vars) == Parsed(rest, setting.Applied(vars))
  {
    var r := setting.Rendered();
    match setting
    case LongEq(opt, value) =>
      NameOfIs(opt.name, "=" + value);
      assert r[0] == opt.name + ("=" + value);
      assert r[0][|opt.name| + 1..] == value;
      assert |r[0]| > |opt.name| >= 2 && r[0][..2] == opt.name[..2];
      assert [] + rest == rest;
    case LongNext(opt, value) =>
      NameOfIs(opt.name, "");
      assert opt.name + "" == opt.name;
      assert ([value] + rest)[1..] == rest;
    case LongFlag(opt) =>
      NameOfIs(opt.name, "");
      assert opt.name + "" == opt.name;
      assert [] + rest == rest;
    case Cluster(flags, tail) =>
      assert r[0][1..] == Letters(flags, tail);
      assert r[1..] == if tail.Next? then [tail.value] else [];
      ShortInverts(options, flags, tail, rest, vars);
  }

  lemma ParseStep(options: seq<OptionDef>, first: seq<string>, rest: seq<string>, vars: Vars)
    requires first != [] && IsOption(first[0]) && first[0] != "--"
    requires One(options, first[0], first[1..] + rest, vars).Parsed?
    ensures var r := One(options, first[0], first[1..] + rest, vars);
            Parse(options, first + rest, vars) == Parse(options, r.rest, r.vars)
  {
    hide One;
    assert (first + rest)[1..] == first[1..] + rest;
  }

  /** What can follow the options: nothing, an operand (a single "-" is one), or the "--" marker. */
  predicate EndsOptions(operands: seq<string>) {
    operands == [] || |operands[0]| < 2 || operands[0][0] != '-' || operands[0] == "--"
  }

  lemma ParseEnds(options: seq<OptionDef>, operands: seq<string>, vars: Vars)
    requires EndsOptions(operands)
    ensures Parse(options, operands, vars)
         == Parsed(if operands != [] && operands[0] == "--" then operands[1..] else operands, vars)
  {
  }

  /** However settings are written, the parser makes exactly these assignments and finds the operands. */
  lemma {:induction false} ParseInvertsRendering(options: seq<OptionDef>, settings: seq<Setting>,
                                                 operands: seq<string>, vars: Vars)
    requires forall s :: s in settings ==> s.WellFormed(options)
    requires EndsOptions(operands)
    ensures Parse(options, RenderAll(settings) + operands, vars)
         == Parsed(if operands != [] && operands[0] == "--" then operands[1..] else operands, ApplyAll(settings, vars))
    decreases |settings|
  {
    hide One, IsOption, Setting.WellFormed, Setting.Rendered, Setting.Applied;
    if settings == [] {
      ParseEnds(options, operands, vars);
      assert RenderAll(settings) + operands == operands;
    } else {
      var first, rest := settings[0].Rendered(), RenderAll(settings[1..]) + operands;
      assert settings[0] in settings;
      OneInverts(options, settings[0], rest, vars);
      ParseInvertsRendering(options, settings[1..], operands, settings[0].Applied(vars));
      ParseStep(options, first, rest, vars);
      Assoc(first, RenderAll(settings[1..]), operands);
    }
  }
}
