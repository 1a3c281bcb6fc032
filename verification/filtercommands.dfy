/** The commands that git is configured to run, and what they do when the shell starts them. */
module FilterCommands {
  import opened Basics
  import opened KeyFormat
  import opened Options
  import ShellQuoting

  /** A key by name; none is the default key. */
  type KeyRef = Option<string>

  predicate ValidRef(key: KeyRef) {
    key.Some? ==> ValidKeyName(key.value)
  }

  /** A name as it comes from a command line: a C string, valid or not. */
  predicate ArgumentRef(key: KeyRef) {
    key.Some? ==> forall c :: c in key.value ==> c as int < 0x100 && c != '\0'
  }

  function AttributeName(key: KeyRef): string {
    if key.Some? then "git-crypt-" + key.value else "git-crypt"
  }

  /** Keys with different names have different attributes. */
  lemma AttributeNameInjective(a: KeyRef, b: KeyRef)
    ensures AttributeName(a) == AttributeName(b) <==> a == b
  {
    if a.Some? && b.Some? && AttributeName(a) == AttributeName(b) {
      assert AttributeName(a)[10..] == a.value && AttributeName(b)[10..] == b.value;
    }
  }

  /** The configured command for one of the three subcommands. */
  function FilterCommand(exe: string, subcommand: string, key: KeyRef): string {
    ShellQuoting.Escaped(exe) + " " + subcommand + (if key.Some? then " --key-name=" + key.value else "")
  }

  // ------------------------------------------------ the plumbing options

  const KEY_NAME: nat := 0
  const KEY_FILE: nat := 1
  const NO_VARS := Vars(map[], map[])

  function PlumbingOptions(): seq<OptionDef> {
    [ OptionDef("-k", None, Some(KEY_NAME)),
      OptionDef("--key-name", None, Some(KEY_NAME)),
      OptionDef("--key-file", None, Some(KEY_FILE)) ]
  }

  /** What clean, smudge and diff make of their arguments: the key name and the key file. */
  datatype Plumbing = Plumbing(keyName: KeyRef, keyFile: Option<string>, operands: seq<string>) | BadUsage

  function ParsePlumbing(args: seq<string>): Plumbing {
    match Parse(PlumbingOptions(), args, NO_VARS)
    case Failed(_, _, _) => BadUsage
    case Parsed(rest, vars) =>
      Plumbing(if KEY_NAME in vars.values then Some(vars.values[KEY_NAME]) else None,
               if KEY_FILE in vars.values then Some(vars.values[KEY_FILE]) else None, rest)
  }

  /** A started program: its path, the subcommand and the plumbing options behind it. */
  datatype Invocation = Invocation(program: string, subcommand: string, plumbing: Plumbing)

  /** What running a configured command amounts to, for commands within the modelled part of the shell. */
  function Invoked(command: string): Option<Invocation> {
    match ShellQuoting.Split(command)
    case None => None
    case Some(words) =>
      if |words| < 2 || (words[1] != "" && words[1][0] == '-') then None
      else Some(Invocation(words[0], words[1], ParsePlumbing(words[2..])))
  }

  lemma KeyNameOption(name: string)
    ensures ParsePlumbing(["--key-name=" + name]) == Plumbing(Some(name), None, [])
  {
    var opt := PlumbingOptions()[1];
    var setting := LongEq(opt, name);
    FindKeyName();
    assert opt.name == "--key-name" && opt.name[..2] == "--";
    assert setting.WellFormed(PlumbingOptions());
    ParseInvertsRendering(PlumbingOptions(), [setting], [], NO_VARS);
    assert "--key-name" + "=" == "--key-name=";
    assert setting.Rendered() == ["--key-name=" + name];
    assert RenderAll([setting]) + [] == setting.Rendered() + RenderAll([]) == ["--key-name=" + name];
    assert ApplyAll([setting], NO_VARS) == setting.Applied(NO_VARS) == Vars(map[], map[KEY_NAME := name]);
  }

  lemma FindKeyName()
    ensures Find(PlumbingOptions(), "-k") == Some(PlumbingOptions()[0])
    ensures Find(PlumbingOptions(), "--key-name") == Some(PlumbingOptions()[1])
    ensures Find(PlumbingOptions(), "--key-file") == Some(PlumbingOptions()[2])
  {
    var options := PlumbingOptions();
    assert options[0].name != "--key-name" && options[0].name != "--key-file";
    assert options[1..][0].name == "--key-name";
    assert options[1..][1..][0].name == "--key-file";
  }

  /** The other ways to name the key, and the two ways to name a key file. */
  lemma PlumbingForms(value: string)
    ensures ParsePlumbing(["-k", value]) == Plumbing(Some(value), None, [])
    ensures value != "" ==> ParsePlumbing(["-k" + value]) == Plumbing(Some(value), None, [])
    ensures ParsePlumbing(["--key-name", value]) == Plumbing(Some(value), None, [])
    ensures ParsePlumbing(["--key-file", value]) == Plumbing(None, Some(value), [])
    ensures ParsePlumbing(["--key-file=" + value]) == Plumbing(None, Some(value), [])
  {
    ShortForms(value);
    LongForms(value);
  }

  lemma ShortForms(value: string)
    ensures ParsePlumbing(["-k", value]) == Plumbing(Some(value), None, [])
    ensures value != "" ==> ParsePlumbing(["-k" + value]) == Plumbing(Some(value), None, [])
  {
    hide ParsePlumbing, Find, PlumbingOptions;
    var k := OptionDef("-k", None, Some(0));
    Defined();
    var next, glued := Cluster([], Next(k, value)), Cluster([], Glued(k, value));
    assert Letters([], next.tail) == "k" && "-" + "k" == "-k";
    assert next.Rendered() == ["-k", value];
    OneSetting(next, ["-k", value]);
    if value != "" {
      assert Letters([], glued.tail) == "k" + value && "-" + ("k" + value) == "-k" + value;
      OneSetting(glued, ["-k" + value]);
    }
  }

  lemma LongForms(value: string)
    ensures ParsePlumbing(["--key-name", value]) == Plumbing(Some(value), None, [])
    ensures ParsePlumbing(["--key-file", value]) == Plumbing(None, Some(value), [])
    ensures ParsePlumbing(["--key-file=" + value]) == Plumbing(None, Some(value), [])
  {
    hide ParsePlumbing, Find, PlumbingOptions;
    var name, file := OptionDef("--key-name", None, Some(0)), OptionDef("--key-file", None, Some(1));
    Defined();
    assert "--key-file" + "=" == "--key-file=";
    OneSetting(LongNext(name, value), ["--key-name", value]);
    OneSetting(LongNext(file, value), ["--key-file", value]);
    OneSetting(LongEq(file, value), ["--key-file=" + value]);
  }

  lemma Defined()
    ensures Find(PlumbingOptions(), "-k") == Some(OptionDef("-k", None, Some(0)))
    ensures Find(PlumbingOptions(), "--key-name") == Some(OptionDef("--key-name", None, Some(0)))
    ensures Find(PlumbingOptions(), "--key-file") == Some(OptionDef("--key-file", None, Some(1)))
  {
    FindKeyName();
  }

  lemma OneSetting(setting: Setting, args: seq<string>)
    requires setting.WellFormed(PlumbingOptions()) && setting.Rendered() == args
    ensures var vars := setting.Applied(Vars(map[], map[]));
            ParsePlumbing(args) == Plumbing(if 0 in vars.values then Some(vars.values[0]) else None,
                                            if 1 in vars.values then Some(vars.values[1]) else None, [])
  {
    hide Setting.WellFormed, Setting.Rendered, Setting.Applied, PlumbingOptions;
    ParseInvertsRendering(PlumbingOptions(), [setting], [], NO_VARS);
    assert [setting][1..] == [];
    assert RenderAll([setting]) + [] == setting.Rendered() + RenderAll([]) == args;
    assert ApplyAll([setting], NO_VARS) == ApplyAll([], setting.Applied(NO_VARS));
  }

  /**
   Whatever characters the path of the program holds, the shell starts that program with the given
   subcommand, and the program finds exactly the key the filter was configured for.
   */
  lemma CommandReachesKey(exe: string, subcommand: string, key: KeyRef)
    requires ValidRef(key) && subcommand in {"smudge", "clean", "diff"}
    ensures Invoked(FilterCommand(exe, subcommand, key))
         == Some(Invocation(exe, subcommand, Plumbing(key, None, [])))
  {
    hide ShellQuoting.Split, ShellQuoting.Escaped, ParsePlumbing;
    var words := [subcommand] + (if key.Some? then ["--key-name=" + key.value] else []);
    PlainWords(subcommand, key);
    ShellQuoting.CommandSplit(exe, words);
    CommandIsSpaced(exe, subcommand, key);
    var all := [exe] + words;
    assert all[0] == exe && all[1] == subcommand && all[2..] == words[1..];
    if key.Some? {
      KeyNameOption(key.value);
    } else {
      NoOptions();
    }
  }

  lemma NoOptions()
    ensures ParsePlumbing([]) == Plumbing(None, None, [])
  {
  }

  lemma PlainWords(subcommand: string, key: KeyRef)
    requires ValidRef(key) && subcommand in {"smudge", "clean", "diff"}
    ensures ShellQuoting.PlainWord(subcommand)
    ensures key.Some? ==> ShellQuoting.PlainWord("--key-name=" + key.value)
  {
    if key.Some? {
      var option, word := "--key-name=", "--key-name=" + key.value;
      assert forall c :: c in option ==> ShellQuoting.Plain(c);
      forall c | c in word
        ensures ShellQuoting.Plain(c)
      {
        if c !in option {
          assert c in key.value && KeyNameChar(c);
        }
      }
    }
  }

  lemma CommandIsSpaced(exe: string, subcommand: string, key: KeyRef)
    ensures FilterCommand(exe, subcommand, key)
         == ShellQuoting.Escaped(exe)
            + ShellQuoting.Spaced([subcommand] + (if key.Some? then ["--key-name=" + key.value] else []))
  {
    hide ShellQuoting.Escaped;
    if key.Some? {
      var option := "--key-name=" + key.value;
      var words := [subcommand] + [option];
      assert words[1..] == [option];
      assert ShellQuoting.Spaced([option]) == " " + option + ShellQuoting.Spaced([]) == " " + option;
      assert " --key-name=" + key.value == " " + option;
      assert ShellQuoting.Spaced(words) == " " + subcommand + (" " + option);
    } else {
      assert [subcommand] + [] == [subcommand];
      assert ShellQuoting.Spaced([subcommand]) == " " + subcommand + ShellQuoting.Spaced([]) == " " + subcommand;
    }
  }
}
