/** Finding the encrypted files: taking apart what `git ls-files -sz` and `git check-attr` print. */
module Listing {
  import opened Basics

  /** One line of the index, and what the attributes filter and diff of a file are printed as. */
  datatype IndexEntry = IndexEntry(mode: string, objectId: string, stage: string, name: string)
  datatype Attributes = Attributes(filter: string, diff: string)

  predicate Space(c: char) {
    c == ' ' || '\t' <= c <= '\r'
  }

  predicate IsToken(w: string) {
    w != "" && forall c :: c in w ==> !Space(c) && c != '\0'
  }

  // --------------------------------------------------- what git prints

  /** Only names can hold blanks; nothing holds a NUL. */
  predicate Printable(e: IndexEntry) {
    IsToken(e.mode) && IsToken(e.objectId) && IsToken(e.stage) && '\0' !in e.name
  }

  function PrintEntry(e: IndexEntry): string {
    e.mode + (" " + (e.objectId + (" " + (e.stage + ("\t" + (e.name + "\0"))))))
  }

  function LsFiles(index: seq<IndexEntry>): string {
    if index == [] then "" else PrintEntry(index[0]) + LsFiles(index[1..])
  }

  /** The answer to one name of `git check-attr --stdin -z filter diff`. */
  function CheckAttrZ(name: string, a: Attributes): string {
    name + ("\0" + ("filter" + ("\0" + (a.filter + ("\0" +
    (name + ("\0" + ("diff" + ("\0" + (a.diff + "\0"))))))))))
  }

  /**
   The lines printed by `git check-attr filter diff -- NAME`, given how git prints the name: as it
   stands, or quoted if it holds unusual characters, a line end among them.
   */
  function CheckAttrLines(printed: string, a: Attributes): string {
    printed + ": " + "filter" + ": " + a.filter + "\n" + (printed + ": " + "diff" + ": " + a.diff + "\n")
  }

  // ------------------------------------------------------- specification

  /** An attribute that is not set to a value counts as empty. */
  function Effective(value: string): string {
    if value == "unspecified" || value == "unset" || value == "set" then "" else value
  }

  function Octal(s: string): nat {
    OctalFrom(s, 0)
  }

  function OctalFrom(s: string, acc: nat): nat {
    if s == "" || !('0' <= s[0] <= '7') then acc
    else OctalFrom(s[1..], 8 * acc + (s[0] as int - '0' as int))
  }

  /** The file type bits of the mode are those of a regular file. */
  predicate IsGitFileMode(mode: string) {
    Octal(mode) / 0x1000 % 16 == 8
  }

  lemma OctalStep(mode: string, i: nat, acc: nat)
    requires i < |mode| && '0' <= mode[i] <= '7'
    ensures OctalFrom(mode[i..], acc) == OctalFrom(mode[i + 1..], 8 * acc + (mode[i] as int - '0' as int))
  {
    assert mode[i..][1..] == mode[i + 1..];
  }

  lemma OctalTail(mode: string, acc: nat)
    requires |mode| == 6 && forall i :: 0 <= i < 6 ==> '0' <= mode[i] <= '7'
    ensures 0x1000 * acc <= OctalFrom(mode[2..], acc) < 0x1000 * (acc + 1)
  {
    hide OctalFrom;
    var d2, d3, d4 := mode[2] as int - '0' as int, mode[3] as int - '0' as int, mode[4] as int - '0' as int;
    OctalStep(mode, 2, acc);
    OctalStep(mode, 3, 8 * acc + d2);
    OctalStep(mode, 4, 8 * (8 * acc + d2) + d3);
    OctalStep(mode, 5, 8 * (8 * (8 * acc + d2) + d3) + d4);
    OctalEnd(mode[6..], 8 * (8 * (8 * (8 * acc + d2) + d3) + d4) + (mode[5] as int - '0' as int));
  }

  lemma OctalEnd(s: string, acc: nat)
    requires s == ""
    ensures OctalFrom(s, acc) == acc
  {
  }

  /** Of the modes git prints, six octal digits from 0 or 1 on, those of regular files begin with "10". */
  lemma RegularModes(mode: string)
    requires |mode| == 6 && (forall i :: 0 <= i < 6 ==> '0' <= mode[i] <= '7') && mode[0] <= '1'
    ensures IsGitFileMode(mode) <==> mode[0] == '1' && mode[1] == '0'
  {
    hide OctalFrom;
    var d0, d1 := mode[0] as int - '0' as int, mode[1] as int - '0' as int;
    assert mode[0..] == mode;
    OctalStep(mode, 0, 0);
    OctalStep(mode, 1, d0);
    OctalTail(mode, 8 * d0 + d1);
    assert Octal(mode) / 0x1000 == 8 * d0 + d1;
  }

  /** The regular files whose filter attribute is the given one, in the order of the index. */
  function Encrypted(index: seq<IndexEntry>, attributes: string -> Attributes, filter: string): seq<string> {
    if index == [] then []
    else
      (if IsGitFileMode(index[0].mode) && Effective(attributes(index[0].name).filter) == filter
       then [index[0].name] else [])
      + Encrypted(index[1..], attributes, filter)
  }

  /**
   For modes as git prints them: exactly the entries of regular files that have the filter as the
   value of their attribute are encrypted; the three words git has for an attribute without a value
   are never one.
   */
  lemma {:induction false} EncryptedExactly(index: seq<IndexEntry>, attributes: string -> Attributes, filter: string,
                                            name: string)
    requires filter != ""
    requires forall e :: e in index ==>
               |e.mode| == 6 && (forall i :: 0 <= i < 6 ==> '0' <= e.mode[i] <= '7') && e.mode[0] <= '1'
    ensures name in Encrypted(index, attributes, filter)
       <==> && attributes(name).filter == filter && filter !in {"unspecified", "unset", "set"}
            && exists e :: e in index && e.name == name && e.mode[0] == '1' && e.mode[1] == '0'
  {
    hide IsGitFileMode;
    if index != [] {
      EncryptedExactly(index[1..], attributes, filter, name);
      assert forall e :: e in index <==> e == index[0] || e in index[1..];
      RegularModes(index[0].mode);
    }
  }

  /** The names come in the order of the entries, and each entry adds at most one. */
  lemma {:induction false} EncryptedInOrder(a: seq<IndexEntry>, b: seq<IndexEntry>, attributes: string -> Attributes,
                                            filter: string)
    ensures Encrypted(a + b, attributes, filter)
         == Encrypted(a, attributes, filter) + Encrypted(b, attributes, filter)
    ensures |Encrypted(a, attributes, filter)| <= |a|
  {
    hide Encrypted, IsGitFileMode, Effective;
    if a == [] {
      NothingEncrypted(attributes, filter);
      assert a + b == b;
    } else {
      var first, rest := a[0], a[1..];
      EncryptedInOrder(rest, b, attributes, filter);
      EncryptedStep(first, rest, attributes, filter);
      EncryptedStep(first, rest + b, attributes, filter);
      assert a == [first] + rest && a + b == [first] + (rest + b);
      Assoc([first.name], Encrypted(rest, attributes, filter), Encrypted(b, attributes, filter));
    }
  }

  lemma NothingEncrypted(attributes: string -> Attributes, filter: string)
    ensures Encrypted([], attributes, filter) == []
  {
  }

  function SkipSpace(s: string): (r: string)
    ensures |r| <= |s| && (r != "" ==> !Space(r[0]))
  {
    if s == "" || !Space(s[0]) then s else SkipSpace(s[1..])
  }

  /** The length of the word at the front. */
  function WordLen(s: string): (n: nat)
    ensures n <= |s| && (s != "" && !Space(s[0]) ==> n > 0)
  {
    if s == "" || Space(s[0]) then 0 else 1 + WordLen(s[1..])
  }

  /** The length of the line at the front, which the given mark or the end of the input ends. */
  function LineLen(s: string, mark: char): (n: nat)
    ensures n <= |s|
  {
    if s == "" || s[0] == mark then 0 else 1 + LineLen(s[1..], mark)
  }

  /** Extracting a word: it and what is left. */
  function TakeWord(s: string): (r: (string, string))
    ensures |r.1| <= |s| && (s != "" ==> |r.1| < |s|)
  {
    var t := SkipSpace(s);
    (t[..WordLen(t)], t[WordLen(t)..])
  }

  /** Extracting a line: the end mark goes too. */
  function TakeLine(s: string, mark: char): (r: (string, string))
    ensures |r.1| <= |s| && (s != "" ==> |r.1| < |s|)
  {
    var n := LineLen(s, mark);
    (s[..n], if n < |s| then s[n + 1..] else "")
  }

  /** One record of the listing; blanks in front of the name are taken for part of the separator. */
  function ParseEntry(s: string): (r: (IndexEntry, string))
    ensures s != "" ==> |r.1| < |s|
  {
    var (mode, s1) := TakeWord(s);
    var (objectId, s2) := TakeWord(s1);
    var (stage, s3) := TakeWord(s2);
    var (name, s4) := TakeLine(SkipSpace(s3), '\0');
    (IndexEntry(mode, objectId, stage, name), s4)
  }

  function ParseListing(s: string): seq<IndexEntry>
    decreases |s|
  {
    if s == "" then []
    else
      var (entry, rest) := ParseEntry(s);
      [entry] + ParseListing(rest)
  }

  /** One attribute as it is reported, put into the pair of effective attributes. */
  function Report(found: Attributes, attrName: string, attrValue: string): Attributes {
    if Effective(attrValue) != attrValue then found
    else if attrName == "filter" then found.(filter := attrValue)
    else if attrName == "diff" then found.(diff := attrValue)
    else found
  }

  function ParseAttrZ(s: string, count: nat, found: Attributes): Attributes
    decreases count
  {
    if count == 0 then found
    else
      var (_, s1) := TakeLine(s, '\0');
      var (attrName, s2) := TakeLine(s1, '\0');
      var (attrValue, s3) := TakeLine(s2, '\0');
      ParseAttrZ(s3, count - 1, Report(found, attrName, attrValue))
  }

  /** The last place at or before `limit` where ": " stands. */
  function LastColon(line: string, limit: nat): (p: Option<nat>)
    ensures p.Some? ==> p.value <= limit && p.value + 2 <= |line| && line[p.value] == ':' && line[p.value + 1] == ' '
    ensures forall q :: (if p.Some? then p.value else -1) < q <= limit && q + 2 <= |line| ==>
              !(line[q] == ':' && line[q + 1] == ' ')
  {
    if limit + 2 <= |line| && line[limit] == ':' && line[limit + 1] == ' ' then Some(limit)
    else if limit == 0 then None
    else LastColon(line, limit - 1)
  }

  /** Taken apart from the back, because the name may itself hold ": ". */
  function ParseAttrLine(line: string, found: Attributes): Attributes {
    match LastColon(line, |line|)
    case None => found
    case Some(valuePos) =>
      if valuePos == 0 then found
      else
        match LastColon(line, valuePos - 1)
        case None => found
        case Some(namePos) => Report(found, line[namePos + 2..valuePos], line[valuePos + 2..])
  }

  function ParseAttrLines(s: string, found: Attributes): Attributes
    decreases |s|
  {
    if s == "" then found
    else
      var (line, rest) := TakeLine(s, '\n');
      ParseAttrLines(rest, ParseAttrLine(line, found))
  }

  const NOTHING := Attributes("", "")

  // ------------------------------------------------------------ the reader

  /** Reading from the output of another program: words between blanks, and lines with any end mark. */
  class TextStream {
    var rest: string

    constructor (s: string)
      ensures rest == s
    {
      rest := s;
    }

    method SkipBlanks()
      modifies this
      ensures rest == SkipSpace(old(rest))
    {
      while rest != "" && Space(rest[0])
        invariant SkipSpace(old(rest)) == SkipSpace(rest)
        decreases |rest|
      {
        rest := rest[1..];
      }
    }

    method ReadWord() returns (word: string)
      modifies this
      ensures (word, rest) == TakeWord(old(rest))
    {
      SkipBlanks();
      ghost var t := rest;
      word := "";
      while rest != "" && !Space(rest[0])
        invariant |word| + |rest| == |t| && word == t[..|word|] && rest == t[|word|..]
        invariant WordLen(t) == |word| + WordLen(rest)
        decreases |rest|
      {
        word := word + [rest[0]];
        rest := rest[1..];
      }
    }

    method GetLine(mark: char) returns (line: string)
      modifies this
      ensures (line, rest) == TakeLine(old(rest), mark)
    {
      ghost var t := rest;
      line := "";
      while rest != "" && rest[0] != mark
        invariant |line| + |rest| == |t| && line == t[..|line|] && rest == t[|line|..]
        invariant LineLen(t, mark) == |line| + LineLen(rest, mark)
        decreases |rest|
      {
        line := line + [rest[0]];
        rest := rest[1..];
      }
      if rest != "" {
        rest := rest[1..];
      }
    }
  }

  // --------------------------------------------------------- the commands

  method ReportAttribute(found: Attributes, attrName: string, attrValue: string) returns (r: Attributes)
    ensures r == Report(found, attrName, attrValue)
  {
    r := found;
    if attrValue != "unspecified" && attrValue != "unset" && attrValue != "set" {
      if attrName == "filter" {
        r := found.(filter := attrValue);
      } else if attrName == "diff" {
        r := found.(diff := attrValue);
      }
    }
  }

  /** Parses the answer of the attribute process: twice a name, an attribute and a value. */
  method GetFileAttributesZ(answer: string) returns (found: Attributes)
    ensures found == ParseAttrZ(answer, 2, NOTHING)
  {
    hide Report, TakeLine;
    var stdout := new TextStream(answer);
    found := NOTHING;
    for i := 0 to 2
      invariant ParseAttrZ(answer, 2, NOTHING) == ParseAttrZ(stdout.rest, 2 - i, found)
    {
      var name := stdout.GetLine('\0');
      var attrName := stdout.GetLine('\0');
      var attrValue := stdout.GetLine('\0');
      found := ReportAttribute(found, attrName, attrValue);
    }
  }

  /** Takes one line apart from the back. */
  method GetLineAttribute(line: string, found: Attributes) returns (r: Attributes)
    ensures r == ParseAttrLine(line, found)
  {
    hide Report;
    var valuePos := LastColon(line, |line|);
    if valuePos.None? || valuePos.value == 0 {
      return found;
    }
    var namePos := LastColon(line, valuePos.value - 1);
    if namePos.None? {
      return found;
    }
    r := ReportAttribute(found, line[namePos.value + 2..valuePos.value], line[valuePos.value + 2..]);
  }

  /** Parses the lines printed for one file by an older git. */
  method GetFileAttributes(output: string) returns (found: Attributes)
    ensures found == ParseAttrLines(output, NOTHING)
  {
    hide ParseAttrLine, TakeLine;
    var lines := new TextStream(output);
    found := NOTHING;
    while lines.rest != ""
      invariant ParseAttrLines(output, NOTHING) == ParseAttrLines(lines.rest, found)
      decreases |lines.rest|
    {
      var line := lines.GetLine('\n');
      found := GetLineAttribute(line, found);
    }
  }

  /** What git can print for attributes: a value holds no blank, NUL or end of line. */
  ghost predicate PrintableAttributes(a: Attributes) {
    && (forall c :: c in a.filter ==> c != '\0' && !Space(c))
    && (forall c :: c in a.diff ==> c != '\0' && !Space(c))
  }

  /** Asks git for the filter of one file: through one long-running process, or with an older git by lines. */
  method QueryFilter(filename: string, printed: string, a: Attributes, stdin: bool) returns (filter: string)
    requires PrintableAttributes(a) && NoNul(filename) && '\n' !in printed
    ensures filter == Effective(a.filter)
  {
    hide Effective, ParseAttrZ, ParseAttrLines, CheckAttrZ, CheckAttrLines;
    var found;
    if stdin {
      found := GetFileAttributesZ(CheckAttrZ(filename, a));
      AttrZExact(filename, a);
    } else {
      found := GetFileAttributes(CheckAttrLines(printed, a));
      AttrLinesExact(printed, a);
    }
    filter := found.filter;
  }

  /** Lists the files to be encrypted with one key; `printed` is how an older git prints a name. */
  method GetEncryptedFiles(listing: string, attributes: string -> Attributes, printed: string -> string, stdin: bool,
                           filter: string)
    returns (files: seq<string>)
    requires forall name :: PrintableAttributes(attributes(name)) && '\n' !in printed(name)
    ensures files == Encrypted(ParseListing(listing), attributes, filter)
  {
    hide Encrypted, TakeWord, TakeLine, SkipSpace, IsGitFileMode, ParseListing, Effective, PrintableAttributes, NoNul;
    var stdout := new TextStream(listing);
    files := [];
    while stdout.rest != ""
      invariant files + Encrypted(ParseListing(stdout.rest), attributes, filter)
             == Encrypted(ParseListing(listing), attributes, filter)
      decreases |stdout.rest|
    {
      ghost var before := stdout.rest;
      ListingStep(before);
      var mode := stdout.ReadWord();
      var objectId := stdout.ReadWord();
      var stage := stdout.ReadWord();
      stdout.SkipBlanks();
      LineNoNul(stdout.rest);
      var filename := stdout.GetLine('\0');
      ghost var e, others := IndexEntry(mode, objectId, stage, filename), ParseListing(stdout.rest);
      assert ParseListing(before) == [e] + others;
      EncryptedStep(e, others, attributes, filter);
      if IsGitFileMode(mode) {
        var attribute := QueryFilter(filename, printed(filename), attributes(filename), stdin);
        if attribute == filter {
          Assoc(files, [filename], Encrypted(others, attributes, filter));
          files := files + [filename];
        }
      }
    }
    ListingEnd(attributes, filter);
  }

  lemma {:induction false} LineNoNul(s: string)
    ensures NoNul(TakeLine(s, '\0').0)
  {
    if s != "" && s[0] != '\0' {
      LineNoNul(s[1..]);
      assert s[..LineLen(s, '\0')] == [s[0]] + s[1..][..LineLen(s[1..], '\0')];
    }
  }

  lemma ListingStep(s: string)
    requires s != ""
    ensures ParseListing(s) == [ParseEntry(s).0] + ParseListing(ParseEntry(s).1)
  {
  }

  lemma ListingEnd(attributes: string -> Attributes, filter: string)
    ensures Encrypted(ParseListing(""), attributes, filter) == []
  {
  }

  lemma EncryptedStep(e: IndexEntry, others: seq<IndexEntry>, attributes: string -> Attributes, filter: string)
    ensures Encrypted([e] + others, attributes, filter)
         == (if IsGitFileMode(e.mode) && Effective(attributes(e.name).filter) == filter
             then [e.name] + Encrypted(others, attributes, filter) else Encrypted(others, attributes, filter))
  {
    assert ([e] + others)[1..] == others;
  }

  // ------------------------------------------------- the parsers are exact

  lemma {:induction false} LineIs(line: string, mark: char, rest: string)
    requires mark !in line
    ensures TakeLine(line + ([mark] + rest), mark) == (line, rest)
  {
    var s := line + ([mark] + rest);
    if line == "" {
      assert s[0] == mark && s[1..] == rest;
    } else {
      LineIs(line[1..], mark, rest);
      assert s[1..] == line[1..] + ([mark] + rest);
      assert [line[0]] + line[1..] == line;
      assert s[0] in line;
      assert s[..|line|] == line && s[|line| + 1..] == rest;
    }
  }

  ghost predicate NoNul(s: string) { '\0' !in s }

  /** The answer for one file gives exactly its effective attributes. */
  lemma AttrZExact(name: string, a: Attributes)
    requires NoNul(name) && PrintableAttributes(a)
    ensures ParseAttrZ(CheckAttrZ(name, a), 2, NOTHING) == Attributes(Effective(a.filter), Effective(a.diff))
  {
    hide TakeLine, Effective;
    var s5 := a.diff + "\0";
    var s4 := "diff" + ("\0" + s5);
    var s3 := name + ("\0" + s4);
    var s2 := a.filter + ("\0" + s3);
    var s1 := "filter" + ("\0" + s2);
    assert CheckAttrZ(name, a) == name + ("\0" + s1);
    LineIs(name, '\0', s1);
    LineIs("filter", '\0', s2);
    LineIs(a.filter, '\0', s3);
    LineIs(name, '\0', s4);
    LineIs("diff", '\0', s5);
    assert s5 == a.diff + ("\0" + "");
    LineIs(a.diff, '\0', "");
    var found := Report(NOTHING, "filter", a.filter);
    EffectiveEmpty();
    assert found == NOTHING.(filter := Effective(a.filter));
    assert ParseAttrZ(s3, 1, found) == ParseAttrZ("", 0, Report(found, "diff", a.diff));
    assert ParseAttrZ(name + ("\0" + s1), 2, NOTHING) == ParseAttrZ(s3, 1, found);
  }

  lemma EffectiveEmpty()
    ensures forall v: string :: Effective(v) != v ==> Effective(v) == ""
  {
  }

  function AttrLine(name: string, attrName: string, value: string): string {
    name + ": " + attrName + ": " + value
  }

  lemma LastColonIs(line: string, limit: nat, p: nat)
    requires p <= limit && p + 2 <= |line| && line[p] == ':' && line[p + 1] == ' '
    requires forall q :: p < q <= limit && q + 2 <= |line| ==> !(line[q] == ':' && line[q + 1] == ' ')
    ensures LastColon(line, limit) == Some(p)
  {
  }

  /** A line is taken apart correctly whatever the name holds, because the rest has no ": ". */
  lemma LineParsed(name: string, attrName: string, value: string, found: Attributes)
    requires forall c :: c in attrName ==> c != ':'
    requires forall c :: c in value ==> !Space(c)
    ensures ParseAttrLine(AttrLine(name, attrName, value), found) == Report(found, attrName, value)
  {
    hide Report;
    var line := AttrLine(name, attrName, value);
    var valuePos, namePos := |name| + 2 + |attrName|, |name|;
    assert line[valuePos] == ':' && line[valuePos + 1] == ' ';
    forall q | valuePos < q && q + 2 <= |line|
      ensures !(line[q] == ':' && line[q + 1] == ' ')
    {
      if q > valuePos + 1 {
        assert line[q + 1] == value[q - valuePos - 1];
        assert line[q + 1] in value;
      }
    }
    LastColonIs(line, |line|, valuePos);
    assert line[namePos] == ':' && line[namePos + 1] == ' ';
    forall q | namePos < q < valuePos
      ensures !(line[q] == ':' && line[q + 1] == ' ')
    {
      if q > namePos + 1 {
        assert line[q] == attrName[q - namePos - 2];
        assert line[q] in attrName;
      }
    }
    LastColonIs(line, valuePos - 1, namePos);
    assert line[namePos + 2..valuePos] == attrName;
    assert line[valuePos + 2..] == value;
  }

  /** The lines for one file give exactly its effective attributes, even if the printed name holds ": ". */
  lemma AttrLinesExact(printed: string, a: Attributes)
    requires '\n' !in printed && PrintableAttributes(a)
    ensures ParseAttrLines(CheckAttrLines(printed, a), NOTHING) == Attributes(Effective(a.filter), Effective(a.diff))
  {
    hide TakeLine, Effective, ParseAttrLine;
    var l1, l2 := AttrLine(printed, "filter", a.filter), AttrLine(printed, "diff", a.diff);
    var s2 := l2 + ("\n" + "");
    assert CheckAttrLines(printed, a) == l1 + ("\n" + s2);
    LineIs(l1, '\n', s2);
    LineIs(l2, '\n', "");
    LineParsed(printed, "filter", a.filter, NOTHING);
    var found := Report(NOTHING, "filter", a.filter);
    LineParsed(printed, "diff", a.diff, found);
    EffectiveEmpty();
    assert found == NOTHING.(filter := Effective(a.filter));
    assert ParseAttrLines(s2, found) == ParseAttrLines("", Report(found, "diff", a.diff));
  }

  /** The listing as it is read back: blanks in front of a name are lost. */
  function Trimmed(index: seq<IndexEntry>): seq<IndexEntry> {
    if index == [] then [] else [index[0].(name := SkipSpace(index[0].name))] + Trimmed(index[1..])
  }

  lemma {:induction false} WordIs(w: string, t: string)
    requires IsToken(w) && t != "" && Space(t[0])
    ensures WordLen(w + t) == |w|
  {
    assert w[0] in w;
    if |w| > 1 {
      assert (w + t)[1..] == w[1..] + t;
      WordIs(w[1..], t);
    } else {
      assert (w + t)[1..] == t;
    }
  }

  /** A word is read back from behind at most one separator. */
  lemma TokenIs(separator: string, w: string, t: string)
    requires separator == "" || (|separator| == 1 && Space(separator[0]))
    requires IsToken(w) && t != "" && Space(t[0])
    ensures TakeWord(separator + (w + t)) == (w, t)
  {
    var u := w + t;
    assert w[0] in w && u[0] == w[0];
    assert SkipSpace(u) == u;
    if separator != "" {
      assert (separator + u)[1..] == u;
    } else {
      assert separator + u == u;
    }
    WordIs(w, t);
    assert u[..|w|] == w && u[|w|..] == t;
  }

  lemma {:induction false} SkipSpaceBefore(name: string, rest: string)
    ensures SkipSpace(name + ("\0" + rest)) == SkipSpace(name) + ("\0" + rest)
  {
    var s := name + ("\0" + rest);
    if name != "" && Space(name[0]) {
      SkipSpaceBefore(name[1..], rest);
      assert s[1..] == name[1..] + ("\0" + rest);
    }
  }

  lemma {:induction false} SkipSpaceNoNul(s: string)
    requires NoNul(s)
    ensures NoNul(SkipSpace(s))
  {
    if s != "" && Space(s[0]) {
      SkipSpaceNoNul(s[1..]);
    }
  }

  lemma EntryIs(e: IndexEntry, rest: string)
    requires Printable(e)
    ensures ParseEntry(PrintEntry(e) + rest) == (e.(name := SkipSpace(e.name)), rest)
  {
    hide TakeWord, TakeLine, SkipSpace;
    var s4 := e.name + ("\0" + rest);
    var s3 := e.stage + ("\t" + s4);
    var s2 := e.objectId + (" " + s3);
    assert PrintEntry(e) + rest == "" + (e.mode + (" " + s2));
    TokenIs("", e.mode, " " + s2);
    TokenIs(" ", e.objectId, " " + s3);
    TokenIs(" ", e.stage, "\t" + s4);
    SkipTab(s4);
    SkipSpaceBefore(e.name, rest);
    SkipSpaceNoNul(e.name);
    LineIs(SkipSpace(e.name), '\0', rest);
  }

  lemma SkipTab(s: string)
    ensures SkipSpace("\t" + s) == SkipSpace(s)
  {
    assert ("\t" + s)[1..] == s;
  }

  lemma {:induction false} ListingIs(index: seq<IndexEntry>)
    requires forall e :: e in index ==> Printable(e)
    ensures ParseListing(LsFiles(index)) == Trimmed(index)
  {
    if index != [] {
      hide ParseEntry, PrintEntry, SkipSpace, Printable;
      EntryIs(index[0], LsFiles(index[1..]));
      ListingIs(index[1..]);
      EntryNotEmpty(index[0]);
      ListingStep(LsFiles(index));
    }
  }

  lemma EntryNotEmpty(e: IndexEntry)
    ensures PrintEntry(e) != ""
  {
  }

  /** It starts with a blank as the C library knows them: space, tab, line feed, \v, \f or carriage return. */
  predicate LeadingBlank(name: string) {
    name != "" && name[0] as int in {9, 10, 11, 12, 13, 32}
  }

  /** What is read back is the index exactly if no name starts with a blank. */
  lemma {:induction false} ListingExactly(index: seq<IndexEntry>)
    requires forall e :: e in index ==> Printable(e)
    ensures ParseListing(LsFiles(index)) == index <==> forall e :: e in index ==> !LeadingBlank(e.name)
  {
    ListingIs(index);
    TrimmedExactly(index);
  }

  lemma {:induction false} TrimmedExactly(index: seq<IndexEntry>)
    ensures Trimmed(index) == index <==> forall e :: e in index ==> !LeadingBlank(e.name)
  {
    if index != [] {
      TrimmedExactly(index[1..]);
      var first := index[0];
      assert first in index;
      assert index == [first] + index[1..];
      assert Trimmed(index)[0].name == SkipSpace(first.name);
      assert Trimmed(index)[1..] == Trimmed(index[1..]);
    }
  }
}
