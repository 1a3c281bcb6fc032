/**
 Quoting one argument for the POSIX shell, and the part of the shell's own rules (section 2.2.3,
 Double-Quotes, of the POSIX Shell Command Language) that reads it back.
 */
module ShellQuoting {
  import opened Basics

  /** The characters that get a backslash. */
  predicate Special(c: char) {
    c == '"' || c == '\\' || c == '$' || c == '`'
  }

  function EscapeBody(str: string): string {
    if str == "" then ""
    else (if Special(str[0]) then ['\\', str[0]] else [str[0]]) + EscapeBody(str[1..])
  }

  function Escaped(str: string): string {
    "\"" + EscapeBody(str) + "\""
  }

  method EscapeShellArg(str: string) returns (newStr: string)
    ensures newStr == Escaped(str)
  {
    newStr := "\"";
    var it := 0;
    while it < |str|
      invariant 0 <= it <= |str|
      invariant newStr + EscapeBody(str[it..]) == "\"" + EscapeBody(str)
    {
      ghost var before := newStr;
      if Special(str[it]) {
        newStr := newStr + "\\";
      }
      newStr := newStr + [str[it]];
      Assoc(before, newStr[|before|..], EscapeBody(str[it + 1..]));
      assert str[it..][1..] == str[it + 1..];
      it := it + 1;
    }
    assert str[it..] == "" && newStr + "" == newStr;
    newStr := newStr + "\"";
  }

  // ------------------------------------------------------- the shell's side

  predicate Blank(c: char) { c == ' ' || c == '\t' }

  /** Characters that start quoting, expansion or an operator when they stand outside quotes. */
  predicate Meta(c: char) {
    c in {'|', '&', ';', '<', '>', '(', ')', '$', '`', '\\', '\'', '*', '?', '[', '#', '~', '%', '\n'}
  }

  /**
   The rest of a double-quoted string: what it stands for and what follows the closing quote. No
   result if it does not end or holds an expansion.
   */
  function DoubleQuoted(s: string): (r: Option<(string, string)>)
    ensures r.Some? ==> |r.value.1| < |s|
    decreases |s|
  {
    if s == "" || s[0] == '$' || s[0] == '`' then None
    else if s[0] == '"' then Some(("", s[1..]))
    else if s[0] == '\\' && |s| > 1 && s[1] == '\n' then DoubleQuoted(s[2..])
    else
      var n := if s[0] == '\\' && |s| > 1 && s[1] in {'"', '\\', '$', '`'} then 2 else 1;
      match DoubleQuoted(s[n..])
      case None => None
      case Some((text, rest)) => Some(([s[n - 1]] + text, rest))
  }

  /** One word and what follows it; no result if it goes beyond plain characters and double quotes. */
  function Word(s: string): (r: Option<(string, string)>)
    ensures r.Some? ==> |r.value.1| <= |s| && (s != "" && !Blank(s[0]) ==> |r.value.1| < |s|)
    decreases |s|
  {
    if s == "" || Blank(s[0]) then Some(("", s))
    else if Meta(s[0]) then None
    else
      match (if s[0] == '"' then DoubleQuoted(s[1..]) else Some(([s[0]], s[1..])))
      case None => None
      case Some((text, rest)) =>
        match Word(rest)
        case None => None
        case Some((more, left)) => Some((text + more, left))
  }

  /** The words of a simple command. */
  function Split(s: string): Option<seq<string>>
    decreases |s|
  {
    if s == "" then Some([])
    else if Blank(s[0]) then Split(s[1..])
    else
      match Word(s)
      case None => None
      case Some((word, rest)) =>
        match Split(rest)
        case None => None
        case Some(words) => Some([word] + words)
  }

  // ------------------------------------------------------------ round trips

  /** Exactly the four characters special between double quotes get a backslash, wherever they stand. */
  lemma EscapedOnly(before: string, c: char, after: string)
    ensures EscapeBody(before + [c] + after)
         == EscapeBody(before) + (if c in {'"', '\\', '$', '`'} then ['\\', c] else [c]) + EscapeBody(after)
  {
    EscapedParts(before, [c] + after);
    assert before + [c] + after == before + ([c] + after);
    EscapedFirst(c, after);
    hide EscapeBody;
    Assoc(EscapeBody(before), if c in {'"', '\\', '$', '`'} then ['\\', c] else [c], EscapeBody(after));
  }

  lemma EscapedFirst(c: char, after: string)
    ensures EscapeBody([c] + after) == (if c in {'"', '\\', '$', '`'} then ['\\', c] else [c]) + EscapeBody(after)
  {
    assert ([c] + after)[1..] == after;
  }

  lemma {:induction false} EscapedParts(a: string, b: string)
    ensures EscapeBody(a + b) == EscapeBody(a) + EscapeBody(b)
  {
    hide EscapeBody;
    if a == "" {
      EscapedNothing();
      assert a + b == b;
    } else {
      var first := if a[0] in {'"', '\\', '$', '`'} then ['\\', a[0]] else [a[0]];
      EscapedParts(a[1..], b);
      EscapedFirst(a[0], a[1..]);
      EscapedFirst(a[0], a[1..] + b);
      assert a == [a[0]] + a[1..] && a + b == [a[0]] + (a[1..] + b);
      Assoc(first, EscapeBody(a[1..]), EscapeBody(b));
    }
  }

  lemma EscapedNothing()
    ensures EscapeBody("") == ""
  {
  }

  /** One escaped character is read back as that character. */
  lemma OneEscaped(c: char, t: string)
    ensures var s := (if Special(c) then ['\\', c] else [c]) + t;
            DoubleQuoted(s) == match DoubleQuoted(t)
                               case None => None
                               case Some((text, rest)) => Some(([c] + text, rest))
  {
    var s := (if Special(c) then ['\\', c] else [c]) + t;
    assert s[if Special(c) then 2 else 1..] == t;
  }

  lemma {:induction false} BodyRoundTrip(str: string, rest: string)
    ensures DoubleQuoted(EscapeBody(str) + ("\"" + rest)) == Some((str, rest))
  {
    var close := "\"" + rest;
    if str == "" {
      assert EscapeBody(str) + close == close && close[1..] == rest;
    } else {
      hide DoubleQuoted;
      BodyRoundTrip(str[1..], rest);
      OneEscaped(str[0], EscapeBody(str[1..]) + close);
      Assoc(if Special(str[0]) then ['\\', str[0]] else [str[0]], EscapeBody(str[1..]), close);
      assert [str[0]] + str[1..] == str;
    }
  }

  /** An escaped string is one word, whatever characters it holds, and goes on with what follows. */
  lemma EscapedIsOneWord(str: string, rest: string)
    requires rest == "" || Blank(rest[0])
    ensures Word(Escaped(str) + rest) == Some((str, rest))
  {
    hide EscapeBody, DoubleQuoted;
    var s := Escaped(str) + rest;
    assert s[0] == '"' && s[1..] == EscapeBody(str) + ("\"" + rest);
    BodyRoundTrip(str, rest);
    assert Word(rest) == Some(("", rest));
    assert str + "" == str;
  }

  /** Characters that mean only themselves outside quotes. */
  predicate Plain(c: char) { !Blank(c) && !Meta(c) && c != '"' }

  lemma {:induction false} PlainIsOneWord(w: string, rest: string)
    requires forall c :: c in w ==> Plain(c)
    requires rest == "" || Blank(rest[0])
    ensures Word(w + rest) == Some((w, rest))
  {
    if w == "" {
      assert w + rest == rest;
      assert Word(rest) == Some(("", rest));
    } else {
      PlainIsOneWord(w[1..], rest);
      assert Plain(w[0]) by {
        assert w[0] in w;
      }
      assert (w + rest)[1..] == w[1..] + rest;
      assert [w[0]] + w[1..] == w;
    }
  }

  /** A word that needs no quoting. */
  predicate PlainWord(w: string) {
    w != "" && forall c :: c in w ==> Plain(c)
  }

  function Spaced(words: seq<string>): string {
    if words == [] then "" else " " + words[0] + Spaced(words[1..])
  }

  lemma SpacedStart(words: seq<string>)
    ensures Spaced(words) == "" || Blank(Spaced(words)[0])
  {
  }

  lemma {:induction false} SplitSpaced(words: seq<string>)
    requires forall w :: w in words ==> PlainWord(w)
    ensures Split(Spaced(words)) == Some(words)
  {
    if words != [] {
      hide Word;
      var w, rest := words[0], Spaced(words[1..]);
      assert PlainWord(w);
      assert Plain(w[0]) by {
        assert w[0] in w;
      }
      var s := w + rest;
      assert Spaced(words) == " " + s && (" " + s)[1..] == s;
      SpacedStart(words[1..]);
      PlainIsOneWord(w, rest);
      SplitSpaced(words[1..]);
      assert Split(" " + s) == Split(s) == Some([w] + words[1..]);
      assert [w] + words[1..] == words;
    }
  }

  /** An escaped first word followed by plain words: the shell sees exactly these. */
  lemma CommandSplit(first: string, words: seq<string>)
    requires forall w :: w in words ==> PlainWord(w)
    ensures Split(Escaped(first) + Spaced(words)) == Some([first] + words)
  {
    hide Word, Escaped;
    SplitSpaced(words);
    SpacedStart(words);
    EscapedIsOneWord(first, Spaced(words));
    EscapedStart(first);
  }

  lemma EscapedStart(str: string)
    ensures Escaped(str) != "" && Escaped(str)[0] == '"'
  {
  }
}
