/**
 Building a Windows command line, and the documented rules ("Parsing C command-line arguments")
 by which the started program takes it apart again.
 */
module WindowsQuoting {
  import opened Basics
  import opened Bytes

  function Backslashes(n: nat): (s: string)
    ensures |s| == n && forall i :: 0 <= i < n ==> s[i] == '\\'
  {
    seq(n, _ => '\\')
  }

  /** The length of the run of backslashes at the front. */
  function Run(s: string): (n: nat)
    ensures n <= |s|
    ensures s[..n] == Backslashes(n)
    ensures n < |s| ==> s[n] != '\\'
  {
    if s == "" || s[0] != '\\' then 0 else 1 + Run(s[1..])
  }

  // --------------------------------------------------------------- quoting

  /** What goes between the quotes for one argument. */
  function EscapeBody(arg: string): string
    decreases |arg|
  {
    if arg == "" then ""
    else if arg[0] == '"' then "\\\"" + EscapeBody(arg[1..])
    else if arg[0] == '\\' then
      var n := Run(arg);
      var rest := arg[n..];
      (if rest == "" || rest[0] == '"' then Backslashes(2 * n) else Backslashes(n)) + EscapeBody(rest)
    else [arg[0]] + EscapeBody(arg[1..])
  }

  function Quoted(arg: string): string {
    "\"" + EscapeBody(arg) + "\""
  }

  function FormatRest(args: seq<string>): string {
    if args == [] then "" else " " + Quoted(args[0]) + FormatRest(args[1..])
  }

  function Format(command: seq<string>): string {
    if command == [] then "" else Quoted(command[0]) + FormatRest(command[1..])
  }

  method PushBackslashes(cmdline: string, count: nat) returns (r: string)
    ensures r == cmdline + Backslashes(count)
  {
    r := cmdline;
    var n := count;
    while n > 0
      invariant 0 <= n <= count && r == cmdline + Backslashes(count - n)
    {
      r := r + "\\";
      n := n - 1;
    }
  }

  /** What one trip through the loop below pushes when it starts at this point of the argument. */
  ghost function Pushed(start: string): (r: (string, nat))
    requires start != ""
    ensures 0 < r.1 <= |start| && EscapeBody(start) == r.0 + EscapeBody(start[r.1..])
  {
    if start[0] == '"' then ("\\\"", 1)
    else if start[0] == '\\' then
      var n := Run(start);
      (if n == |start| || start[n] == '"' then Backslashes(2 * n) else Backslashes(n), n)
    else ([start[0]], 1)
  }

  /** Appends one quoted argument to a command line. */
  method EscapeCmdlineArgument(cmdline: string, arg: string) returns (r: string)
    ensures r == cmdline + Quoted(arg)
  {
    hide EscapeBody, Run;
    r := cmdline + "\"";
    var p := 0;
    ghost var goal := cmdline + "\"" + EscapeBody(arg);
    assert arg[0..] == arg;
    while p < |arg|
      invariant 0 <= p <= |arg|
      invariant r + EscapeBody(arg[p..]) == goal
    {
      ghost var before, start := r, arg[p..];
      ghost var pushed := Pushed(start);
      if arg[p] == '"' {
        r := r + "\\\"";
        p := p + 1;
      } else if arg[p] == '\\' {
        var n := 0;
        while p < |arg| && arg[p] == '\\'
          invariant 0 <= p <= |arg| && n <= |start| && arg[p..] == start[n..]
          invariant start[..n] == Backslashes(n)
        {
          n := n + 1;
          p := p + 1;
        }
        RunIs(start, n);
        if p == |arg| || arg[p] == '"' {
          n := 2 * n;
        }
        r := PushBackslashes(r, n);
      } else {
        r := r + [arg[p]];
        p := p + 1;
      }
      assert r == before + pushed.0 && arg[p..] == start[pushed.1..];
      Assoc(before, pushed.0, EscapeBody(arg[p..]));
    }
    EscapeEmpty();
    assert arg[p..] == "" && r + "" == r;
    Assoc(cmdline, "\"", EscapeBody(arg));
    Assoc(cmdline, "\"" + EscapeBody(arg), "\"");
    r := r + "\"";
  }

  lemma EscapeEmpty()
    ensures EscapeBody("") == ""
  {
  }

  lemma {:induction false} RunIs(s: string, n: nat)
    requires n <= |s| && s[..n] == Backslashes(n) && (n < |s| ==> s[n] != '\\')
    ensures Run(s) == n
  {
    if n > 0 {
      assert s[0] == s[..n][0];
      assert s[1..][..n - 1] == s[..n][1..];
      RunIs(s[1..], n - 1);
    }
  }

  method FormatCmdline(command: seq<string>) returns (cmdline: string)
    ensures cmdline == Format(command)
  {
    cmdline := "";
    var i := 0;
    while i < |command|
      invariant 0 <= i <= |command|
      invariant i == 0 ==> cmdline == ""
      invariant i > 0 ==> cmdline + FormatRest(command[i..]) == Format(command)
    {
      ghost var before := cmdline;
      if i != 0 {
        cmdline := cmdline + " ";
      }
      cmdline := EscapeCmdlineArgument(cmdline, command[i]);
      assert command[i..][1..] == command[i + 1..];
      if i != 0 {
        Assoc(before, " ", Quoted(command[i]));
        Assoc(before, " " + Quoted(command[i]), FormatRest(command[i + 1..]));
      }
      i := i + 1;
    }
    assert command[i..] == [] && cmdline + "" == cmdline;
  }

  /** One more argument goes to the end, between quotes and after one blank. */
  lemma OneMoreArgument(command: seq<string>, last: string)
    ensures Format(command + [last])
         == Format(command) + ((if command == [] then "" else " ") + "\"" + EscapeBody(last) + "\"")
  {
    hide EscapeBody;
    if command == [] {
      assert command + [last] == [last] && [last][1..] == [];
    } else {
      assert (command + [last])[1..] == command[1..] + [last];
      OneMoreInRest(command[1..], last);
      Assoc(Quoted(command[0]), FormatRest(command[1..]), " " + "\"" + EscapeBody(last) + "\"");
    }
  }

  lemma {:induction false} OneMoreInRest(args: seq<string>, last: string)
    ensures FormatRest(args + [last]) == FormatRest(args) + (" " + "\"" + EscapeBody(last) + "\"")
  {
    hide EscapeBody;
    var quoted := " " + "\"" + EscapeBody(last) + "\"";
    if args == [] {
      assert args + [last] == [last] && [last][1..] == [];
      assert FormatRest([last]) == " " + Quoted(last) + FormatRest([]) == quoted;
    } else {
      assert (args + [last])[1..] == args[1..] + [last];
      OneMoreInRest(args[1..], last);
      Assoc(" " + Quoted(args[0]), FormatRest(args[1..]), quoted);
    }
  }

  /** Only backslashes lie between this place and the next double quote, or the end. */
  ghost predicate BeforeQuote(s: string) {
    exists n :: QuoteBehind(s, n)
  }

  ghost predicate QuoteBehind(s: string, n: nat) {
    n <= |s| && (forall i :: 0 <= i < n ==> s[i] == '\\') && (n == |s| || s[n] == '"')
  }

  /**
   Character by character: a double quote gets a backslash in front, a backslash is doubled if only
   backslashes lie between it and a double quote or the end, and everything else stays as it is.
   */
  lemma EscapedCharByChar(arg: string)
    ensures EscapeBody("") == ""
    ensures arg != "" ==>
              var c, rest := arg[0], EscapeBody(arg[1..]);
              EscapeBody(arg) == if c == '"' then ['\\', '"'] + rest
                                 else if c == '\\' && BeforeQuote(arg[1..]) then ['\\', '\\'] + rest
                                 else [c] + rest
  {
    EscapeEmpty();
    if arg != "" && arg[0] == '\\' {
      EscapedBackslash(arg);
    }
  }

  lemma EscapedBackslash(arg: string)
    requires arg != "" && arg[0] == '\\'
    ensures EscapeBody(arg) == (if BeforeQuote(arg[1..]) then ['\\', '\\'] else ['\\']) + EscapeBody(arg[1..])
  {
    hide EscapeBody, Run, BeforeQuote, Backslashes;
    RunBehind(arg);
    RunBeforeQuote(arg[1..]);
    FromInsideRun(arg);
    FromInsideRun(arg[1..]);
    var n := Run(arg[1..]);
    var body := EscapeBody(arg[1..][n..]);
    if BeforeQuote(arg[1..]) {
      MoreBackslashes(2, 2 * n);
      Assoc(['\\', '\\'], Backslashes(2 * n), body);
    } else {
      MoreBackslashes(1, n);
      Assoc(['\\'], Backslashes(n), body);
    }
  }

  lemma RunBehind(s: string)
    requires s != "" && s[0] == '\\'
    ensures Run(s) == 1 + Run(s[1..]) && s[Run(s)..] == s[1..][Run(s[1..])..]
  {
  }

  lemma MoreBackslashes(k: nat, n: nat)
    requires k == 1 || k == 2
    ensures Backslashes(k + n) == (if k == 1 then ['\\'] else ['\\', '\\']) + Backslashes(n)
  {
  }

  lemma RunBeforeQuote(s: string)
    ensures BeforeQuote(s) <==> Run(s) == |s| || s[Run(s)] == '"'
  {
    hide Run;
    var n := Run(s);
    assert forall i :: 0 <= i < n ==> s[i] == s[..n][i];
    if n == |s| || s[n] == '"' {
      assert QuoteBehind(s, n);
    }
    if BeforeQuote(s) {
      var m :| QuoteBehind(s, m);
      assert m >= n && m <= n;
    }
  }

  /** Escaping from any place in a run of backslashes, or right behind it. */
  lemma FromInsideRun(s: string)
    ensures var n := Run(s); var rest := s[n..];
            EscapeBody(s) == (if rest == "" || rest[0] == '"' then Backslashes(2 * n) else Backslashes(n))
                             + EscapeBody(rest)
  {
    if Run(s) == 0 {
      assert s[0..] == s;
      assert Backslashes(0) + EscapeBody(s) == EscapeBody(s);
    }
  }

  // --------------------------------------------------------------- parsing

  predicate Blank(c: char) { c == ' ' || c == '\t' }

  /** The program name: quotes only keep blanks together, and nothing escapes anything. */
  function ProgramName(s: string, quoted: bool): (r: (string, string))
    ensures |r.1| <= |s|
  {
    if s == "" || (!quoted && Blank(s[0])) then ("", s)
    else if s[0] == '"' then ProgramName(s[1..], !quoted)
    else
      var (name, rest) := ProgramName(s[1..], quoted);
      ([s[0]] + name, rest)
  }

  /** One further argument, from inside or outside quotes, and what is left behind it. */
  function Argument(s: string, quoted: bool): (r: (string, string))
    ensures |r.1| <= |s| && (s != "" && (quoted || !Blank(s[0])) ==> |r.1| < |s|)
    decreases |s|
  {
    if s == "" || (!quoted && Blank(s[0])) then ("", s)
    else if s[0] == '\\' then
      var n := Run(s);
      var t := s[n..];
      if t != "" && t[0] == '"' then
        if n % 2 == 0 then
          var (arg, rest) := Argument(t, quoted);
          (Backslashes(n / 2) + arg, rest)
        else
          var (arg, rest) := Argument(t[1..], quoted);
          (Backslashes(n / 2) + "\"" + arg, rest)
      else
        var (arg, rest) := Argument(t, quoted);
        (Backslashes(n) + arg, rest)
    else if s[0] == '"' then
      if quoted && |s| > 1 && s[1] == '"' then
        var (arg, rest) := Argument(s[2..], true);
        ("\"" + arg, rest)
      else Argument(s[1..], !quoted)
    else
      var (arg, rest) := Argument(s[1..], quoted);
      ([s[0]] + arg, rest)
  }

  function Arguments(s: string): seq<string>
    decreases |s|
  {
    if s == "" then []
    else if Blank(s[0]) then Arguments(s[1..])
    else
      var (arg, rest) := Argument(s, false);
      [arg] + Arguments(rest)
  }

  function Split(s: string): seq<string> {
    var (name, rest) := ProgramName(s, false);
    [name] + Arguments(rest)
  }

  // ------------------------------------------------------------ round trip

  lemma RunOf(n: nat, t: string)
    requires t == "" || t[0] != '\\'
    ensures Run(Backslashes(n) + t) == n && (Backslashes(n) + t)[n..] == t
  {
    RunIs(Backslashes(n) + t, n);
  }

  /** Backslashes in front of something else than a quote stand for themselves. */
  lemma ArgumentPlainRun(n: nat, t: string)
    requires n > 0 && t != "" && t[0] != '\\' && t[0] != '"'
    ensures var r := Argument(t, true);
            Argument(Backslashes(n) + t, true) == (Backslashes(n) + r.0, r.1)
  {
    RunOf(n, t);
  }

  /** Twice as many backslashes and one more in front of a quote give the backslashes and the quote. */
  lemma ArgumentOddRun(n: nat, t: string)
    ensures var r := Argument(t, true);
            Argument(Backslashes(2 * n) + ("\\\"" + t), true) == (Backslashes(n) + "\"" + r.0, r.1)
  {
    var m := 2 * n + 1;
    var quote := "\"" + t;
    assert Backslashes(2 * n) + ("\\\"" + t) == Backslashes(m) + quote;
    RunOf(m, quote);
    assert m % 2 == 1 && m / 2 == n;
    assert quote[1..] == t;
  }

  /** Twice as many backslashes in front of the closing quote give the backslashes. */
  lemma ArgumentEvenRun(n: nat, rest: string)
    requires rest == "" || Blank(rest[0])
    ensures Argument(Backslashes(2 * n) + ("\"" + rest), true) == (Backslashes(n), rest)
  {
    var quote := "\"" + rest;
    assert quote[1..] == rest;
    assert Argument(quote, true) == Argument(rest, false) == ("", rest);
    if n > 0 {
      RunOf(2 * n, quote);
      assert Backslashes(n) + "" == Backslashes(n);
    } else {
      assert Backslashes(0) + quote == quote;
    }
  }

  /** Any other character stands for itself. */
  lemma ArgumentPlainChar(c: char, t: string)
    requires c != '\\' && c != '"'
    ensures var r := Argument(t, true); Argument([c] + t, true) == ([c] + r.0, r.1)
  {
    assert ([c] + t)[1..] == t;
  }

  lemma QuoteFirst(arg: string, rest: string)
    requires arg != "" && arg[0] == '"'
    requires Argument(EscapeBody(arg[1..]) + ("\"" + rest), true) == (arg[1..], rest)
    ensures Argument(EscapeBody(arg) + ("\"" + rest), true) == (arg, rest)
  {
    hide Argument;
    var close := "\"" + rest;
    var tail := EscapeBody(arg[1..]) + close;
    ArgumentOddRun(0, tail);
    assert EscapeBody(arg) + close == Backslashes(2 * 0) + ("\\\"" + tail);
    assert arg == Backslashes(0) + "\"" + arg[1..];
  }

  lemma PlainFirst(arg: string, rest: string)
    requires arg != "" && arg[0] != '"' && arg[0] != '\\'
    requires Argument(EscapeBody(arg[1..]) + ("\"" + rest), true) == (arg[1..], rest)
    ensures Argument(EscapeBody(arg) + ("\"" + rest), true) == (arg, rest)
  {
    hide Argument;
    var tail := EscapeBody(arg[1..]) + ("\"" + rest);
    ArgumentPlainChar(arg[0], tail);
    assert EscapeBody(arg) + ("\"" + rest) == [arg[0]] + tail;
    assert [arg[0]] + arg[1..] == arg;
  }

  /** From inside the quotes, the escaped body and the closing quote are read as the argument itself. */
  lemma {:induction false} BodyRoundTrip(arg: string, rest: string)
    requires rest == "" || Blank(rest[0])
    ensures Argument(EscapeBody(arg) + ("\"" + rest), true) == (arg, rest)
    decreases |arg|
  {
    hide Argument;
    if arg == "" {
      ArgumentEvenRun(0, rest);
      assert EscapeBody(arg) + ("\"" + rest) == Backslashes(2 * 0) + ("\"" + rest);
    } else if arg[0] == '"' {
      BodyRoundTrip(arg[1..], rest);
      QuoteFirst(arg, rest);
    } else if arg[0] == '\\' {
      RunRoundTrip(arg, rest);
    } else {
      BodyRoundTrip(arg[1..], rest);
      PlainFirst(arg, rest);
    }
  }

  lemma {:induction false} RunRoundTrip(arg: string, rest: string)
    requires arg != "" && arg[0] == '\\'
    requires rest == "" || Blank(rest[0])
    ensures Argument(EscapeBody(arg) + ("\"" + rest), true) == (arg, rest)
    decreases |arg|, 0
  {
    hide Argument;
    var close := "\"" + rest;
    var n := Run(arg);
    var after := arg[n..];
    assert arg == Backslashes(n) + after;
    if after == "" {
      assert EscapeBody(arg) + close == Backslashes(2 * n) + close;
      ArgumentEvenRun(n, rest);
      assert arg == Backslashes(n);
    } else if after[0] == '"' {
      var tail := EscapeBody(after[1..]) + close;
      assert EscapeBody(arg) == Backslashes(2 * n) + ("\\\"" + EscapeBody(after[1..]));
      assert EscapeBody(arg) + close == Backslashes(2 * n) + ("\\\"" + tail);
      ArgumentOddRun(n, tail);
      BodyRoundTrip(after[1..], rest);
      assert arg == Backslashes(n) + "\"" + after[1..];
    } else {
      var tail := EscapeBody(after) + close;
      assert EscapeBody(arg) + close == Backslashes(n) + tail;
      assert tail[0] == after[0];
      ArgumentPlainRun(n, tail);
      BodyRoundTrip(after, rest);
    }
  }

  /** A quoted argument is read back whole, up to the blank or the end behind it. */
  lemma QuotedRoundTrip(arg: string, rest: string)
    requires rest == "" || Blank(rest[0])
    ensures Argument(Quoted(arg) + rest, false) == (arg, rest)
  {
    hide EscapeBody, Argument;
    var s := Quoted(arg) + rest;
    assert s[1..] == EscapeBody(arg) + ("\"" + rest);
    BodyRoundTrip(arg, rest);
    OpeningQuote(s);
  }

  lemma OpeningQuote(s: string)
    requires s != "" && s[0] == '"'
    ensures Argument(s, false) == Argument(s[1..], true)
    ensures ProgramName(s, false) == ProgramName(s[1..], true)
  {
  }

  lemma {:induction false} RestRoundTrip(args: seq<string>)
    ensures Arguments(FormatRest(args)) == args
    decreases |args|
  {
    if args != [] {
      hide Argument, Quoted;
      var rest := FormatRest(args[1..]);
      RestStart(args[1..]);
      QuotedStart(args[0], rest);
      QuotedRoundTrip(args[0], rest);
      RestRoundTrip(args[1..]);
      var s := Quoted(args[0]) + rest;
      assert FormatRest(args) == " " + s && (" " + s)[1..] == s;
      assert Arguments(" " + s) == Arguments(s) == [args[0]] + Arguments(rest);
    }
  }

  /** The program name can be given back only if nothing in it needs escaping. */
  predicate PlainProgramName(name: string) {
    '"' !in name && (name == "" || name[|name| - 1] != '\\')
  }

  /** How escaping goes on in an argument without quotes. */
  lemma EscapeStep(arg: string)
    requires arg != "" && '"' !in arg
    ensures arg[0] != '\\' ==> EscapeBody(arg) == [arg[0]] + EscapeBody(arg[1..])
    ensures arg[0] == '\\' ==>
              var n := Run(arg); var after := arg[n..];
              && n > 0 && (after != "" ==> after[0] != '\\')
              && EscapeBody(arg) == (if after == "" then Backslashes(2 * n) else Backslashes(n)) + EscapeBody(after)
  {
  }

  lemma {:induction false} EscapeWithoutQuote(arg: string)
    requires '"' !in arg
    ensures '"' !in EscapeBody(arg)
    ensures if PlainProgramName(arg) then EscapeBody(arg) == arg else |EscapeBody(arg)| > |arg|
    decreases |arg|
  {
    hide EscapeBody, Run;
    if arg == "" {
      EscapeEmpty();
    } else {
      EscapeStep(arg);
      var n := if arg[0] == '\\' then Run(arg) else 1;
      assert arg == arg[..n] + arg[n..];
      EscapeWithoutQuote(arg[n..]);
      EscapeEmpty();
    }
  }

  /** The program name rule reads what is between two quotes as it stands. */
  lemma {:induction false} ProgramNameBody(body: string, rest: string)
    requires '"' !in body && (rest == "" || Blank(rest[0]))
    ensures ProgramName(body + ("\"" + rest), true) == (body, rest)
  {
    var s := body + ("\"" + rest);
    if body == "" {
      assert s[1..] == rest;
      assert ProgramName(s, true) == ProgramName(rest, false) == ("", rest);
    } else {
      assert s[1..] == body[1..] + ("\"" + rest);
      ProgramNameBody(body[1..], rest);
      assert [body[0]] + body[1..] == body;
    }
  }

  lemma {:induction false} ProgramNameHasNoQuote(s: string, quoted: bool)
    ensures '"' !in ProgramName(s, quoted).0
  {
    if s != "" && (quoted || !Blank(s[0])) {
      ProgramNameHasNoQuote(s[1..], if s[0] == '"' then !quoted else quoted);
    }
  }

  lemma FormatStart(command: seq<string>)
    requires command != []
    ensures var s := Format(command);
            && s != "" && s[0] == '"'
            && s[1..] == EscapeBody(command[0]) + ("\"" + FormatRest(command[1..]))
  {
    hide EscapeBody, FormatRest;
    assert Format(command) == "\"" + (EscapeBody(command[0]) + ("\"" + FormatRest(command[1..])));
  }

  lemma SplitStart(s: string)
    ensures Split(s) == [ProgramName(s, false).0] + Arguments(ProgramName(s, false).1)
  {
    hide ProgramName, Arguments;
  }

  /** Without a quote in it, the program name comes out the way it was escaped, and the rest as it was. */
  lemma FirstAsEscaped(command: seq<string>)
    requires command != [] && '"' !in command[0]
    ensures Split(Format(command)) == [EscapeBody(command[0])] + command[1..]
  {
    hide EscapeBody, FormatRest, ProgramName, Arguments, Format, Split;
    var s := Format(command);
    FormatStart(command);
    SplitStart(s);
    OpeningQuote(s);
    RestStart(command[1..]);
    EscapeWithoutQuote(command[0]);
    ProgramNameBody(EscapeBody(command[0]), FormatRest(command[1..]));
    RestRoundTrip(command[1..]);
  }

  /** Taking apart the whole string gives the list back exactly if the program name needs no escaping. */
  lemma SplitFormat(command: seq<string>)
    requires command != []
    ensures Split(Format(command)) == command <==> PlainProgramName(command[0])
  {
    hide EscapeBody, ProgramName, Arguments, Format, Split;
    var s := Format(command);
    if '"' in command[0] {
      SplitStart(s);
      ProgramNameHasNoQuote(s, false);
      assert Split(s)[0] != command[0];
    } else {
      FirstAsEscaped(command);
      EscapeWithoutQuote(command[0]);
      assert [command[0]] + command[1..] == command;
      assert Split(s)[0] == EscapeBody(command[0]);
    }
  }

  // ------------------------------------------------------- the end of a C string

  ghost predicate NoNul(s: string) { '\0' !in s }

  ghost predicate NulFree(args: seq<string>) {
    forall a :: a in args ==> NoNul(a)
  }

  lemma {:induction false} EscapedNoNul(arg: string)
    requires NoNul(arg)
    ensures NoNul(EscapeBody(arg))
    decreases |arg|
  {
    if arg == "" {
    } else if arg[0] == '\\' {
      EscapedNoNul(arg[Run(arg)..]);
    } else {
      EscapedNoNul(arg[1..]);
    }
  }

  lemma {:induction false} FormatRestNoNul(args: seq<string>)
    requires NulFree(args)
    ensures NoNul(FormatRest(args))
  {
    if args != [] {
      hide EscapeBody;
      assert NoNul(args[0]);
      EscapedNoNul(args[0]);
      FormatRestNoNul(args[1..]);
    }
  }

  lemma {:induction false} ProgramNameNoNul(s: string, quoted: bool)
    requires NoNul(s)
    ensures NoNul(ProgramName(s, quoted).0) && NoNul(ProgramName(s, quoted).1)
  {
    if s != "" && (quoted || !Blank(s[0])) {
      ProgramNameNoNul(s[1..], if s[0] == '"' then !quoted else quoted);
    }
  }

  lemma {:induction false} ArgumentNoNul(s: string, quoted: bool)
    requires NoNul(s)
    ensures NoNul(Argument(s, quoted).0) && NoNul(Argument(s, quoted).1)
    decreases |s|
  {
    if s == "" || (!quoted && Blank(s[0])) {
    } else if s[0] == '\\' {
      var t := s[Run(s)..];
      if t != "" && t[0] == '"' && Run(s) % 2 != 0 {
        ArgumentNoNul(t[1..], quoted);
      } else {
        ArgumentNoNul(t, quoted);
      }
    } else if s[0] == '"' {
      if quoted && |s| > 1 && s[1] == '"' {
        ArgumentNoNul(s[2..], true);
      } else {
        ArgumentNoNul(s[1..], !quoted);
      }
    } else {
      ArgumentNoNul(s[1..], quoted);
    }
  }

  lemma {:induction false} ArgumentsNulFree(s: string)
    requires NoNul(s)
    ensures NulFree(Arguments(s))
    decreases |s|
  {
    if s != "" {
      if Blank(s[0]) {
        ArgumentsNulFree(s[1..]);
      } else {
        hide Argument;
        ArgumentNoNul(s, false);
        ArgumentsNulFree(Argument(s, false).1);
      }
    }
  }

  lemma SplitNulFree(s: string)
    requires NoNul(s)
    ensures NulFree(Split(s))
  {
    hide ProgramName, Arguments;
    ProgramNameNoNul(s, false);
    ArgumentsNulFree(ProgramName(s, false).1);
  }

  /**
   The started program is given the command line as a C string. It sees the list exactly if no
   argument holds a NUL and the program name holds no quote and does not end in a backslash; the
   other arguments may be anything else.
   */
  lemma CommandLineRoundTrip(command: seq<string>)
    requires command != []
    ensures Split(CStr(Format(command))) == command <==> NulFree(command) && PlainProgramName(command[0])
  {
    hide Split, Format, EscapeBody, FormatRest, PlainProgramName;
    var s := Format(command);
    SplitNulFree(CStr(s));
    if NulFree(command) {
      FormatStart(command);
      assert command[0] in command;
      EscapedNoNul(command[0]);
      FormatRestNoNul(command[1..]);
      assert s == [s[0]] + s[1..];
      SplitFormat(command);
    }
  }

  lemma QuotedStart(arg: string, rest: string)
    ensures var s := Quoted(arg) + rest; s != "" && s[0] == '"'
  {
  }

  lemma RestStart(args: seq<string>)
    ensures FormatRest(args) == "" || Blank(FormatRest(args)[0])
  {
  }
}
