/** Exactly which command lines the option parser accepts, and how it refuses all others. */
module OptionTheorems {
  import opened Basics
  import opened Options

  // ------------------------------------------------- what assignments amount to

  lemma {:induction false} FindNone(options: seq<OptionDef>, name: string)
    ensures Find(options, name).None? <==> forall o :: o in options ==> o.name != name
  {
    if options != [] {
      assert forall o :: o in options <==> o == options[0] || o in options[1..];
      FindNone(options[1..], name);
    }
  }

  lemma {:induction false} FindIs(options: seq<OptionDef>, name: string)
    ensures Find(options, name).Some? ==>
              exists i :: 0 <= i < |options| && options[i] == Find(options, name).value && options[i].name == name
                          && forall j :: 0 <= j < i ==> options[j].name != name
  {
    if options != [] {
      FindIs(options[1..], name);
      if options[0].name != name && Find(options[1..], name).Some? {
        var i :| 0 <= i < |options[1..]| && options[1..][i] == Find(options, name).value && options[1..][i].name == name
                 && forall j :: 0 <= j < i ==> options[1..][j].name != name;
        assert options[i + 1] == options[1..][i];
        forall j | 0 <= j < i + 1
          ensures options[j].name != name
        {
          assert j > 0 ==> options[j] == options[1..][j - 1];
        }
      }
    }
  }

  lemma {:induction false} FoundName(options: seq<OptionDef>, name: string)
    ensures Find(options, name).Some? ==> Find(options, name).value.name == name
  {
    if options != [] {
      FoundName(options[1..], name);
    }
  }

  /** The value that a setting gives to a variable, if any. */
  function Gives(s: Setting, v: nat): Option<string> {
    match s
    case LongEq(opt, value) => if opt.value == Some(v) then Some(value) else None
    case LongNext(opt, value) => if opt.value == Some(v) then Some(value) else None
    case LongFlag(_) => None
    case Cluster(_, tail) => if !tail.NoTail? && tail.opt.value == Some(v) then Some(tail.value) else None
  }

  function LastGiven(settings: seq<Setting>, v: nat): Option<string> {
    if settings == [] then None
    else
      var later := LastGiven(settings[1..], v);
      if later.Some? then later else Gives(settings[0], v)
  }

  /** The setting has an option with this flag. */
  predicate Marks(s: Setting, f: nat) {
    match s
    case LongEq(opt, _) => opt.isSet == Some(f)
    case LongNext(opt, _) => opt.isSet == Some(f)
    case LongFlag(opt) => opt.isSet == Some(f)
    case Cluster(flags, tail) => (exists o :: o in flags && o.isSet == Some(f)) || (!tail.NoTail?
                                                                                    && tail.opt.isSet == Some(f))
  }

  function ValueOf(vars: Vars, v: nat): Option<string> {
    if v in vars.values then Some(vars.values[v]) else None
  }

  predicate IsSet(vars: Vars, f: nat) {
    f in vars.flags && vars.flags[f]
  }

  lemma {:induction false} MarkedAre(vars: Vars, flags: seq<OptionDef>, f: nat)
    ensures IsSet(MarkAll(vars, flags), f) <==> IsSet(vars, f) || exists o :: o in flags && o.isSet == Some(f)
    ensures MarkAll(vars, flags).values == vars.values
    decreases |flags|
  {
    if flags != [] {
      MarkedAre(vars.Mark(flags[0]), flags[1..], f);
      assert forall o :: o in flags <==> o == flags[0] || o in flags[1..];
    }
  }

  lemma AppliedIs(options: seq<OptionDef>, s: Setting, vars: Vars, v: nat)
    requires s.WellFormed(options)
    ensures ValueOf(s.Applied(vars), v) == if Gives(s, v).Some? then Gives(s, v) else ValueOf(vars, v)
    ensures IsSet(s.Applied(vars), v) <==> IsSet(vars, v) || Marks(s, v)
  {
    if s.Cluster? {
      MarkedAre(vars, s.flags, v);
    }
  }

  /** The settings make exactly these assignments: each value variable has the last value given, flags stay set. */
  lemma {:induction false} AssignmentsAre(options: seq<OptionDef>, settings: seq<Setting>, vars: Vars, v: nat)
    requires forall s :: s in settings ==> s.WellFormed(options)
    ensures ValueOf(ApplyAll(settings, vars), v)
         == if LastGiven(settings, v).Some? then LastGiven(settings, v) else ValueOf(vars, v)
    ensures IsSet(ApplyAll(settings, vars), v) <==> IsSet(vars, v) || exists s :: s in settings && Marks(s, v)
    decreases |settings|
  {
    hide Setting.WellFormed, Setting.Applied, Gives, Marks, ValueOf, IsSet;
    if settings != [] {
      assert forall s :: s in settings <==> s == settings[0] || s in settings[1..];
      AppliedIs(options, settings[0], vars, v);
      AssignmentsAre(options, settings[1..], settings[0].Applied(vars), v);
    }
  }

  // ------------------------------------------------------------- the errors

  /** The ways in which an argument can be wrong. */
  datatype Offence =
    | UnknownLong(name: string, value: Option<string>)                   // --name or --name=value, with no such option
    | ValueForFlag(opt: OptionDef, given: string)                        // --name=value, but it takes none
    | LongWithoutValue(opt: OptionDef)                                   // --name at the end, but it needs one
    | UnknownLetter(flags: seq<OptionDef>, letter: char, more: string)   // -abX..., with no option -X
    | ShortWithoutValue(flags: seq<OptionDef>, opt: OptionDef)           // -abc at the end, but -c needs a value
  {
    predicate WellFormed(options: seq<OptionDef>) {
      match this
      case UnknownLong(name, value) =>
        && "--" <= name && '=' !in name && (value.None? ==> name != "--")
        && forall o :: o in options ==> o.name != name
      case ValueForFlag(opt, _) => IsLong(options, opt) && opt.value.None?
      case LongWithoutValue(opt) => IsLong(options, opt) && opt.name != "--" && opt.value.Some?
      case UnknownLetter(flags, letter, more) =>
        && (forall f :: f in flags ==> IsShort(options, f) && f.value.None?)
        && (forall o :: o in options ==> o.name != ['-', letter])
        && (Letters(flags, NoTail) + [letter])[0] != '-'
      case ShortWithoutValue(flags, opt) =>
        && (forall f :: f in flags ==> IsShort(options, f) && f.value.None?)
        && IsShort(options, opt) && opt.value.Some?
        && (Letters(flags, NoTail) + [opt.name[1]])[0] != '-'
    }

    /** It is one only because nothing follows. */
    predicate AtEnd() {
      LongWithoutValue? || ShortWithoutValue?
    }

    function Rendered(): string {
      match this
      case UnknownLong(name, value) => name + (if value.Some? then "=" + value.value else "")
      case ValueForFlag(opt, value) => opt.name + "=" + value
      case LongWithoutValue(opt) => opt.name
      case UnknownLetter(flags, letter, more) => "-" + (Letters(flags, NoTail) + ([letter] + more))
      case ShortWithoutValue(flags, opt) =>
        "-" + (Letters(flags, NoTail) + (if |opt.name| > 1 then [opt.name[1]] else ""))
    }

    /** The error, and the variables as assigned so far. */
    function Fault(vars: Vars): Result {
      match this
      case UnknownLong(name, _) => Failed(name, InvalidOption, vars)
      case ValueForFlag(opt, _) => Failed(opt.name, TakesNoValue, vars.Mark(opt))
      case LongWithoutValue(opt) => Failed(opt.name, RequiresValue, vars.Mark(opt))
      case UnknownLetter(flags, letter, _) => Failed(['-', letter], InvalidOption, MarkAll(vars, flags))
      case ShortWithoutValue(flags, opt) => Failed(opt.name, RequiresValue, MarkAll(vars, flags).Mark(opt))
    }
  }

  /** Well-formed settings are taken in, whatever comes after them. */
  lemma {:induction false} SettingsFirst(options: seq<OptionDef>, settings: seq<Setting>, rest: seq<string>, vars: Vars)
    requires forall s :: s in settings ==> s.WellFormed(options)
    ensures Parse(options, RenderAll(settings) + rest, vars) == Parse(options, rest, ApplyAll(settings, vars))
    decreases |settings|
  {
    hide One, IsOption, Setting.WellFormed, Setting.Rendered, Setting.Applied;
    if settings == [] {
      assert RenderAll(settings) + rest == rest;
    } else {
      var first, more := settings[0].Rendered(), RenderAll(settings[1..]) + rest;
      assert settings[0] in settings;
      OneInverts(options, settings[0], more, vars);
      SettingsFirst(options, settings[1..], rest, settings[0].Applied(vars));
      ParseStep(options, first, more, vars);
      Assoc(first, RenderAll(settings[1..]), rest);
    }
  }

  /** Known flags at the front of a cluster are taken in, whatever letters come after them. */
  lemma {:induction false} FlagsFirst(options: seq<OptionDef>, flags: seq<OptionDef>, more: string, rest: seq<string>,
                                      vars: Vars)
    requires forall f :: f in flags ==> IsShort(options, f) && f.value.None?
    ensures Short(options, Letters(flags, NoTail) + more, rest, vars)
            == Short(options, more, rest, MarkAll(vars, flags))
    decreases |flags|
  {
    if flags == [] {
      assert Letters(flags, NoTail) + more == more;
    } else {
      var f, letters := flags[0], Letters(flags, NoTail) + more;
      assert f in flags && ['-', f.name[1]] == f.name;
      assert letters[0] == f.name[1] && letters[1..] == Letters(flags[1..], NoTail) + more;
      FlagsFirst(options, flags[1..], more, rest, vars.Mark(f));
    }
  }

  lemma UnknownLongFails(options: seq<OptionDef>, name: string, value: Option<string>, rest: seq<string>, vars: Vars)
    requires UnknownLong(name, value).WellFormed(options)
    ensures var arg := UnknownLong(name, value).Rendered();
            && IsOption(arg) && arg != "--" && "--" <= arg
            && Long(options, arg, rest, vars) == Failed(name, InvalidOption, vars)
  {
    FindNone(options, name);
    NameOfIs(name, if value.Some? then "=" + value.value else "");
    hide Find;
  }

  lemma ValueForFlagFails(options: seq<OptionDef>, opt: OptionDef, given: string, rest: seq<string>, vars: Vars)
    requires IsLong(options, opt) && opt.value.None?
    ensures var arg := opt.name + "=" + given;
            && IsOption(arg) && arg != "--" && "--" <= arg
            && Long(options, arg, rest, vars) == Failed(opt.name, TakesNoValue, vars.Mark(opt))
  {
    hide Find;
    NameOfIs(opt.name, "=" + given);
    assert opt.name + "=" + given == opt.name + ("=" + given);
  }

  lemma LongWithoutValueFails(options: seq<OptionDef>, opt: OptionDef, vars: Vars)
    requires IsLong(options, opt) && opt.name != "--" && opt.value.Some?
    ensures IsOption(opt.name) && "--" <= opt.name
    ensures Long(options, opt.name, [], vars) == Failed(opt.name, RequiresValue, vars.Mark(opt))
  {
    hide Find;
    NameOfIs(opt.name, "");
    assert opt.name + "" == opt.name;
  }

  lemma LongOffence(options: seq<OptionDef>, o: Offence, rest: seq<string>, vars: Vars)
    requires o.WellFormed(options) && (o.UnknownLong? || o.ValueForFlag? || o.LongWithoutValue?)
    requires o.AtEnd() ==> rest == []
    ensures var arg := o.Rendered();
            IsOption(arg) && arg != "--" && "--" <= arg && Long(options, arg, rest, vars) == o.Fault(vars)
  {
    hide Long, IsOption, Find, IsLong;
    match o
    case UnknownLong(name, value) => UnknownLongFails(options, name, value, rest, vars);
    case ValueForFlag(opt, given) => ValueForFlagFails(options, opt, given, rest, vars);
    case LongWithoutValue(opt) => LongWithoutValueFails(options, opt, vars);
  }

  lemma ShortOffence(options: seq<OptionDef>, o: Offence, rest: seq<string>, vars: Vars)
    requires o.WellFormed(options) && (o.UnknownLetter? || o.ShortWithoutValue?)
    requires o.AtEnd() ==> rest == []
    ensures var arg := o.Rendered();
            IsOption(arg) && arg != "--" && !("--" <= arg) && Short(options, arg[1..], rest, vars) == o.Fault(vars)
  {
    var last := if o.UnknownLetter? then [o.letter] + o.more else [o.opt.name[1]];
    FlagsFirst(options, o.flags, last, rest, vars);
    assert o.Rendered()[1..] == Letters(o.flags, NoTail) + last;
    if o.UnknownLetter? {
      FindNone(options, ['-', o.letter]);
    } else {
      assert ['-', o.opt.name[1]] == o.opt.name;
    }
  }

  /** After any well-formed settings, an offending argument is this error, and what was set so far stays. */
  lemma FailsAt(options: seq<OptionDef>, settings: seq<Setting>, o: Offence, rest: seq<string>, vars: Vars)
    requires forall s :: s in settings ==> s.WellFormed(options)
    requires o.WellFormed(options) && (o.AtEnd() ==> rest == [])
    ensures Parse(options, RenderAll(settings) + ([o.Rendered()] + rest), vars) == o.Fault(ApplyAll(settings, vars))
  {
    hide Long, Short, IsOption, Setting.WellFormed, Setting.Rendered, Setting.Applied, Offence.WellFormed,
         Offence.Fault, Offence.Rendered;
    SettingsFirst(options, settings, [o.Rendered()] + rest, vars);
    var sofar := ApplyAll(settings, vars);
    if o.UnknownLetter? || o.ShortWithoutValue? {
      ShortOffence(options, o, rest, sofar);
    } else {
      LongOffence(options, o, rest, sofar);
    }
    assert ([o.Rendered()] + rest)[1..] == rest;
    FaultIs(o, sofar);
  }

  lemma FaultIs(o: Offence, vars: Vars)
    ensures o.Fault(vars).Failed?
  {
  }

  // ------------------------------------------------------- there are no others

  /** How a cluster is read: flags, and then its end or what is wrong with it. */
  lemma {:induction false} ClusterForm(options: seq<OptionDef>, cluster: string, rest: seq<string>, vars: Vars)
    returns (flags: seq<OptionDef>, tail: Tail, fault: Option<Offence>)
    ensures forall f :: f in flags ==> IsShort(options, f) && f.value.None?
    ensures fault.None? ==>
              && (!tail.NoTail? ==> IsShort(options, tail.opt) && tail.opt.value.Some?)
              && (tail.Glued? ==> tail.value != "")
              && cluster == Letters(flags, tail)
              && Short(options, cluster, rest, vars).Parsed?
              && rest == (if tail.Next? then [tail.value] else []) + Short(options, cluster, rest, vars).rest
    ensures fault.Some? ==>
              var o := fault.value;
              && Short(options, cluster, rest, vars).Failed? && (o.AtEnd() ==> rest == [])
              && (o.UnknownLetter? || o.ShortWithoutValue?) && o.flags == flags
              && (o.UnknownLetter? ==>
                    (forall d :: d in options ==> d.name != ['-', o.letter])
                    && cluster == Letters(flags, NoTail) + ([o.letter] + o.more))
              && (o.ShortWithoutValue? ==>
                    IsShort(options, o.opt) && o.opt.value.Some? && cluster == Letters(flags, NoTail) + [o.opt.name[1]])
    decreases |cluster|
  {
    flags, tail, fault := [], NoTail, None;
    if cluster == "" {
      assert [] + rest == rest;
      return;
    }
    var name := ['-', cluster[0]];
    var found := Find(options, name);
    FindNone(options, name);
    FoundName(options, name);
    assert cluster == [cluster[0]] + cluster[1..];
    if found.None? {
      fault := Some(UnknownLetter([], cluster[0], cluster[1..]));
      assert Letters([], NoTail) + ([cluster[0]] + cluster[1..]) == cluster;
    } else if found.value.value.None? {
      var more;
      more, tail, fault := ClusterForm(options, cluster[1..], rest, vars.Mark(found.value));
      flags := [found.value] + more;
      assert flags[1..] == more;
      if fault.Some? {
        var o := fault.value;
        fault := Some(if o.UnknownLetter? then UnknownLetter(flags, o.letter, o.more)
                      else ShortWithoutValue(flags, o.opt));
        Assoc([cluster[0]], Letters(more, NoTail), if o.UnknownLetter? then [o.letter] + o.more else [o.opt.name[1]]);
      }
    } else if |cluster| > 1 {
      tail := Glued(found.value, cluster[1..]);
      assert [] + rest == rest;
    } else if rest == [] {
      fault := Some(ShortWithoutValue([], found.value));
      assert Letters([], NoTail) + [cluster[0]] == cluster;
    } else {
      tail := Next(found.value, rest[0]);
      assert cluster == [cluster[0]];
    }
  }

  /** How one argument is read: as a setting, or as an offence. */
  lemma OneForm(options: seq<OptionDef>, arg: string, rest: seq<string>, vars: Vars)
    returns (setting: Setting, fault: Option<Offence>)
    requires IsOption(arg) && arg != "--"
    ensures fault.None? ==>
              && setting.WellFormed(options) && One(options, arg, rest, vars).Parsed?
              && [arg] + rest == setting.Rendered() + One(options, arg, rest, vars).rest
    ensures fault.Some? ==>
              && fault.value.WellFormed(options) && (fault.value.AtEnd() ==> rest == [])
              && fault.value.Rendered() == arg && One(options, arg, rest, vars).Failed?
  {
    if "--" <= arg {
      setting, fault := LongForm(options, arg, rest, vars);
    } else {
      setting, fault := ShortForm(options, arg, rest, vars);
    }
  }

  lemma ShortForm(options: seq<OptionDef>, arg: string, rest: seq<string>, vars: Vars)
    returns (setting: Setting, fault: Option<Offence>)
    requires IsOption(arg) && !("--" <= arg)
    ensures fault.None? ==>
              && setting.WellFormed(options) && Short(options, arg[1..], rest, vars).Parsed?
              && [arg] + rest == setting.Rendered() + Short(options, arg[1..], rest, vars).rest
    ensures fault.Some? ==>
              && fault.value.WellFormed(options) && (fault.value.AtEnd() ==> rest == [])
              && fault.value.Rendered() == arg && Short(options, arg[1..], rest, vars).Failed?
  {
    hide Short, IsShort;
    var flags, tail;
    flags, tail, fault := ClusterForm(options, arg[1..], rest, vars);
    setting := Cluster(flags, tail);
    assert arg == "-" + arg[1..] && arg[1] != '-';
    if fault.None? {
      Assoc(["-" + arg[1..]], if tail.Next? then [tail.value] else [], Short(options, arg[1..], rest, vars).rest);
    } else {
      var last := if fault.value.UnknownLetter? then fault.value.letter
                  else if |fault.value.opt.name| > 1 then fault.value.opt.name[1] else '-';
      assert (Letters(flags, NoTail) + [last])[0] == arg[1..][0];
    }
  }

  lemma LongForm(options: seq<OptionDef>, arg: string, rest: seq<string>, vars: Vars)
    returns (setting: Setting, fault: Option<Offence>)
    requires arg != "--" && "--" <= arg
    ensures fault.None? ==>
              && setting.WellFormed(options) && Long(options, arg, rest, vars).Parsed?
              && [arg] + rest == setting.Rendered() + Long(options, arg, rest, vars).rest
    ensures fault.Some? ==>
              && fault.value.WellFormed(options) && (fault.value.AtEnd() ==> rest == [])
              && fault.value.Rendered() == arg && Long(options, arg, rest, vars).Failed?
  {
    var name := NameOf(arg);
    var given := if |name| < |arg| then Some(arg[|name| + 1..]) else None;
    NameStart(arg);
    FindNone(options, name);
    FoundName(options, name);
    hide NameOf, Find;
    setting, fault := Cluster([], NoTail), None;
    var found := Find(options, name);
    assert arg == name + (if given.Some? then "=" + given.value else "") && (given.None? ==> arg == name);
    if found.None? {
      fault := Some(UnknownLong(name, given));
    } else if found.value.value.Some? {
      if given.Some? {
        setting := LongEq(found.value, given.value);
        assert arg == name + "=" + given.value;
      } else if rest == [] {
        fault := Some(LongWithoutValue(found.value));
      } else {
        setting := LongNext(found.value, rest[0]);
        assert setting.Rendered() == [arg, rest[0]];
        assert [arg] + rest == [arg, rest[0]] + rest[1..];
      }
    } else if given.Some? {
      fault := Some(ValueForFlag(found.value, given.value));
      assert arg == name + "=" + given.value;
    } else {
      setting := LongFlag(found.value);
      assert setting.Rendered() == [arg];
    }
  }

  lemma NameStart(arg: string)
    requires "--" <= arg
    ensures "--" <= NameOf(arg)
  {
    assert arg[1..][0] == '-';
    assert NameOf(arg) == ['-'] + (['-'] + NameOf(arg[1..][1..]));
  }

  /** Every command line is settings, and then operands or an offence. */
  lemma {:induction false} ParseForm(options: seq<OptionDef>, args: seq<string>, vars: Vars)
    returns (settings: seq<Setting>, fault: Option<Offence>, rest: seq<string>)
    ensures forall s :: s in settings ==> s.WellFormed(options)
    ensures fault.None? ==>
              && EndsOptions(rest) && args == RenderAll(settings) + rest && Parse(options, args, vars).Parsed?
    ensures fault.Some? ==>
              && fault.value.WellFormed(options) && (fault.value.AtEnd() ==> rest == [])
              && args == RenderAll(settings) + ([fault.value.Rendered()] + rest) && Parse(options, args, vars).Failed?
    decreases |args|
  {
    hide One, Setting.WellFormed, Setting.Rendered, Offence.WellFormed, Offence.Rendered, Offence.AtEnd;
    if args == [] || !IsOption(args[0]) || args[0] == "--" {
      settings, fault, rest := [], None, args;
      assert RenderAll(settings) + rest == rest;
    } else {
      var setting;
      setting, fault := OneForm(options, args[0], args[1..], vars);
      assert args == [args[0]] + args[1..];
      if fault.Some? {
        settings, rest := [], args[1..];
        assert RenderAll(settings) + ([args[0]] + rest) == args;
      } else {
        var one := One(options, args[0], args[1..], vars);
        var more;
        more, fault, rest := ParseForm(options, one.rest, one.vars);
        settings := [setting] + more;
        assert settings[1..] == more;
        var tail := if fault.Some? then [fault.value.Rendered()] + rest else rest;
        Assoc(setting.Rendered(), RenderAll(more), tail);
      }
    }
  }

  ghost predicate IsCommandLine(options: seq<OptionDef>, args: seq<string>, settings: seq<Setting>,
                                operands: seq<string>)
  {
    && (forall s :: s in settings ==> s.WellFormed(options))
    && EndsOptions(operands) && args == RenderAll(settings) + operands
  }

  /** Exactly the renderings of well-formed settings, with operands behind them, are accepted. */
  lemma ParsesExactly(options: seq<OptionDef>, args: seq<string>, vars: Vars)
    ensures Parse(options, args, vars).Parsed?
       <==> exists settings, operands :: IsCommandLine(options, args, settings, operands)
  {
    hide Parse, Setting.WellFormed, EndsOptions, Offence.WellFormed;
    var found, fault, rest := ParseForm(options, args, vars);
    if fault.None? {
      assert IsCommandLine(options, args, found, rest);
    }
    forall settings, operands | IsCommandLine(options, args, settings, operands)
      ensures Parse(options, args, vars).Parsed?
    {
      ParseInvertsRendering(options, settings, operands, vars);
    }
  }

  ghost predicate IsOffence(options: seq<OptionDef>, args: seq<string>, settings: seq<Setting>, o: Offence,
                            rest: seq<string>)
  {
    && (forall s :: s in settings ==> s.WellFormed(options))
    && o.WellFormed(options) && (o.AtEnd() ==> rest == [])
    && args == RenderAll(settings) + ([o.Rendered()] + rest)
  }

  /** Exactly those with an offence behind well-formed settings are refused, with its error. */
  lemma FailsExactly(options: seq<OptionDef>, args: seq<string>, vars: Vars)
    ensures Parse(options, args, vars).Failed?
       <==> exists settings, o, rest :: IsOffence(options, args, settings, o, rest)
    ensures forall settings, o, rest :: IsOffence(options, args, settings, o, rest) ==>
              Parse(options, args, vars) == o.Fault(ApplyAll(settings, vars))
  {
    hide Parse, Setting.WellFormed, EndsOptions, Offence.WellFormed, Offence.Fault;
    var found, fault, more := ParseForm(options, args, vars);
    if fault.Some? {
      assert IsOffence(options, args, found, fault.value, more);
    }
    forall settings, o, rest | IsOffence(options, args, settings, o, rest)
      ensures Parse(options, args, vars) == o.Fault(ApplyAll(settings, vars))
      ensures Parse(options, args, vars).Failed?
    {
      FailsAt(options, settings, o, rest, vars);
      FaultIs(o, ApplyAll(settings, vars));
    }
  }
}
