/**
 The key-file format as a grammar, with every byte written out: which files load, to what, and how
 all others are refused. Nothing here uses the parser's own constants or tests.
 */
module KeyGrammar {
  import opened Basics
  import opened Bytes
  import opened Crypto
  import opened KeyFormat
  import opened KeyTheorems

  // ------------------------------------------------------------ the grammar

  /** A field as it stands in a file. */
  datatype FieldText = FieldText(id: Word32, payload: seq<Byte>)

  /** "\0GITCRYPTKEY" and the number 2 */
  function Preamble(): seq<Byte> {
    [0, 71, 73, 84, 67, 82, 89, 80, 84, 75, 69, 89, 0, 0, 0, 2]
  }

  function End(): seq<Byte> {
    [0, 0, 0, 0]
  }

  /** Four bytes, most significant first. */
  function Four(w: Word32): (b: seq<Byte>)
    ensures |b| == 4
  {
    [w / 256 / 256 / 256, w / 256 / 256 % 256, w / 256 % 256, w % 256]
  }

  /** The number that four bytes stand for. */
  function Number(b: seq<Byte>): Word32
    requires |b| == 4
  {
    var b0: int, b1: int, b2: int, b3: int := b[0], b[1], b[2], b[3];
    b0 * 0x100_0000 + b1 * 0x1_0000 + b2 * 0x100 + b3
  }

  function PrintField(f: FieldText): seq<Byte>
    requires |f.payload| < 0x1_0000_0000
  {
    Four(f.id) + Four(|f.payload|) + f.payload
  }

  /** Letters, digits, '-' and '_', by their codes. */
  predicate NameCode(c: int) {
    48 <= c <= 57 || 65 <= c <= 90 || 97 <= c <= 122 || c == 45 || c == 95
  }

  predicate NameText(name: string) {
    0 < |name| <= 128 && name != "default" && forall c :: c in name ==> NameCode(c as int)
  }

  /** This field may stand in the header of a file, or else in one of its entries. */
  predicate Good(header: bool, f: FieldText) {
    if f.id == 0 then false
    else if header && f.id == 1 then |f.payload| <= 128 && NameText(CStr(FromBytes(f.payload)))
    else if !header && f.id == 1 then |f.payload| == 4
    else if !header && f.id == 3 then |f.payload| == 32
    else if !header && f.id == 5 then |f.payload| == 64
    else f.id % 2 == 0 && |f.payload| <= 1048576
  }

  predicate AllGood(header: bool, fields: seq<FieldText>) {
    forall f :: f in fields ==> Good(header, f)
  }

  lemma GoodSize(header: bool, f: FieldText)
    requires Good(header, f)
    ensures |f.payload| <= 1048576
  {
  }

  function PrintFields(header: bool, fields: seq<FieldText>): seq<Byte>
    requires AllGood(header, fields)
  {
    if fields == [] then []
    else
      assert Good(header, fields[0]);
      GoodSize(header, fields[0]);
      PrintField(fields[0]) + PrintFields(header, fields[1..])
  }

  function NameWith(name: Text, f: FieldText): Text {
    if f.id == 1 then FromBytes(f.payload) else name
  }

  function EntryWith(e: Entry, f: FieldText): Entry
    requires Good(false, f)
  {
    if f.id == 1 then e.(version := Number(f.payload))
    else if f.id == 3 then e.(aesKey := f.payload)
    else if f.id == 5 then e.(hmacKey := f.payload)
    else e
  }

  /** The fields take effect in order, so the last one of a kind wins. */
  function NameAfter(name: Text, fields: seq<FieldText>): Text
    decreases |fields|
  {
    if fields == [] then name else NameAfter(NameWith(name, fields[0]), fields[1..])
  }

  function EntryAfter(e: Entry, fields: seq<FieldText>): Entry
    requires AllGood(false, fields)
    decreases |fields|
  {
    if fields == [] then e
    else
      assert Good(false, fields[0]);
      EntryAfter(EntryWith(e, fields[0]), fields[1..])
  }

  /** An entry without any fields. */
  function BlankEntry(): Entry {
    Entry(0, seq(32, _ => 0), seq(64, _ => 0))
  }

  predicate AllGoodEntries(entries: seq<seq<FieldText>>) {
    forall fields :: fields in entries ==> AllGood(false, fields)
  }

  function PrintEntries(entries: seq<seq<FieldText>>): seq<Byte>
    requires AllGoodEntries(entries)
  {
    if entries == [] then []
    else
      assert AllGood(false, entries[0]);
      PrintFields(false, entries[0]) + End() + PrintEntries(entries[1..])
  }

  function EntriesAfter(acc: map<Word32, Entry>, entries: seq<seq<FieldText>>): map<Word32, Entry>
    requires AllGoodEntries(entries)
    decreases |entries|
  {
    if entries == [] then acc
    else
      assert AllGood(false, entries[0]);
      var e := EntryAfter(BlankEntry(), entries[0]);
      EntriesAfter(acc[e.version := e], entries[1..])
  }

  function FileText(header: seq<FieldText>, entries: seq<seq<FieldText>>): seq<Byte>
    requires AllGood(true, header) && AllGoodEntries(entries)
  {
    Preamble() + (PrintFields(true, header) + (End() + PrintEntries(entries)))
  }

  /** How an offending field is refused: an odd one that is not known may matter, so the file is incompatible. */
  function Verdict(header: bool, id: Word32): Outcome {
    if id % 2 == 1 && id != 1 && (header || (id != 3 && id != 5)) then Incompatible else Malformed
  }

  /** These bytes begin neither with the end mark nor with a good field that is all there. */
  predicate Offends(header: bool, rest: seq<Byte>) {
    || |rest| < 4
    || (rest[..4] != End() && (|rest| < 8 || !StartsGood(header, rest)))
  }

  predicate StartsGood(header: bool, rest: seq<Byte>)
    requires |rest| >= 8
  {
    var len: int := Number(rest[4..8]);
    8 + len <= |rest| && Good(header, FieldText(Number(rest[..4]), rest[8..8 + len]))
  }

  function RefusedAs(header: bool, rest: seq<Byte>): Outcome {
    if |rest| < 8 then Malformed else Verdict(header, Number(rest[..4]))
  }

  // -------------------------------------------------- fields and sections

  lemma FourIs(w: Word32)
    ensures Four(w) == Be32(w)
  {
    BytesOfFour(w);
  }

  lemma NumberIs(b: seq<Byte>)
    requires |b| == 4
    ensures Number(b) == LoadBe32(b)
  {
    JoinedFour(b);
  }

  lemma ValidNames(name: string)
    ensures ValidKeyName(name) <==> NameText(name)
  {
    assert forall c: char :: KeyNameChar(c) <==> NameCode(c as int);
  }

  /** What a field does to a section. */
  function Filled(section: Section, f: FieldText): Section
    requires Good(section.Header?, f)
  {
    match section
    case Header(name) => Header(NameWith(name, f))
    case Body(e) => Body(EntryWith(e, f))
  }

  /** A field that may stand there is accepted, with this effect, whatever follows. */
  lemma GoodAccepted(section: Section, f: FieldText, t: seq<Byte>)
    requires Good(section.Header?, f)
    ensures f.id != 0 && |f.payload| < WORDS
    ensures Accept(section, f.id, |f.payload|, f.payload + t) == (Ok, Filled(section, f))
  {
    hide NameText, ValidKeyName, Number, LoadBe32;
    assert (f.payload + t)[..|f.payload|] == f.payload;
    ValidNames(CStr(FromBytes(f.payload)));
    if section.Body? && f.id == 1 {
      NumberIs(f.payload);
    }
  }

  /** Only such a field is accepted. */
  lemma OnlyGoodAccepted(section: Section, id: Word32, len: Word32, rest: seq<Byte>)
    requires id != 0
    ensures Accept(section, id, len, rest).0.Ok? <==> len <= |rest| && Good(section.Header?, FieldText(id, rest[..len]))
    ensures !Accept(section, id, len, rest).0.Ok? ==> Accept(section, id, len, rest).0 == Verdict(section.Header?, id)
  {
    hide NameText, ValidKeyName;
    if len <= |rest| {
      ValidNames(CStr(FromBytes(rest[..len])));
    }
  }

  /** What a run of fields does to a section. */
  function FilledAll(section: Section, fields: seq<FieldText>): Section
    requires AllGood(section.Header?, fields)
  {
    match section
    case Header(name) => Header(NameAfter(name, fields))
    case Body(e) => Body(EntryAfter(e, fields))
  }

  lemma FilledStep(section: Section, fields: seq<FieldText>)
    requires AllGood(section.Header?, fields) && fields != []
    ensures Good(section.Header?, fields[0]) && AllGood(section.Header?, fields[1..])
    ensures Filled(section, fields[0]).Header? == section.Header?
    ensures FilledAll(section, fields) == FilledAll(Filled(section, fields[0]), fields[1..])
  {
    hide Good, EntryWith, NameWith;
    assert fields[0] in fields;
  }

  /** The parser gets past any run of good fields, with this effect, whatever follows. */
  lemma {:induction false} GoodRun(section: Section, fields: seq<FieldText>, t: seq<Byte>)
    requires AllGood(section.Header?, fields)
    ensures ParseSection(section, PrintFields(section.Header?, fields) + t)
            == ParseSection(FilledAll(section, fields), t)
    decreases |fields|
  {
    hide ParseSection, Accept, Good, Four, Filled, Field;
    if fields == [] {
      assert PrintFields(section.Header?, fields) + t == t;
    } else {
      var f, next := fields[0], Filled(section, fields[0]);
      FilledStep(section, fields);
      var more := PrintFields(section.Header?, fields[1..]) + t;
      GoodSize(section.Header?, f);
      PrintedIs(f);
      Assoc(PrintField(f), PrintFields(section.Header?, fields[1..]), t);
      GoodAccepted(section, f, more);
      ParseField(section, f.id, f.payload, more);
      GoodRun(next, fields[1..], t);
    }
  }

  lemma PrintedIs(f: FieldText)
    requires |f.payload| < WORDS
    ensures PrintField(f) == Field(f.id, f.payload)
  {
    hide Be32;
    FourIs(f.id);
    FourIs(|f.payload|);
  }

  lemma GoodSection(section: Section, fields: seq<FieldText>, t: seq<Byte>)
    requires AllGood(section.Header?, fields)
    ensures ParseSection(section, PrintFields(section.Header?, fields) + (End() + t))
         == Parsed(Ok, FilledAll(section, fields), t)
  {
    hide ParseSection, AllGood, PrintFields, FilledAll, Be32;
    GoodRun(section, fields, End() + t);
    FourIs(0);
    ParseEnd(FilledAll(section, fields), t);
  }

  /** Whatever is accepted as a section is a run of good fields and the end mark. */
  lemma {:induction false} SectionForm(section: Section, s: seq<Byte>) returns (fields: seq<FieldText>)
    requires ParseSection(section, s).outcome.Ok?
    ensures AllGood(section.Header?, fields)
    ensures s == PrintFields(section.Header?, fields) + (End() + ParseSection(section, s).rest)
    decreases |s|
  {
    hide ParseSection, Accept, Good, Four, Be32, Field, LoadBe32;
    var header, rest := section.Header?, ParseSection(section, s).rest;
    Unfold(section, s);
    if Word(s) == FIELD_END {
      WordText(s);
      FourIs(0);
      FourZero();
      fields := [];
      assert s == s[..4] + s[4..];
      assert PrintFields(header, fields) + (End() + rest) == End() + rest;
    } else {
      var id, len: int := Word(s), Word(s[4..]);
      var payload := s[8..][..len];
      var f := FieldText(id, payload);
      OnlyGoodAccepted(section, id, len, s[8..]);
      AcceptKind(section, id, len, s[8..]);
      var more := SectionForm(Accept(section, id, len, s[8..]).1, s[8 + len..]);
      fields := [f] + more;
      assert fields[1..] == more;
      GoodSize(header, f);
      FieldAtFront(s);
      Assoc(PrintField(f), PrintFields(header, more), End() + rest);
    }
  }

  lemma FourZero()
    ensures Four(0) == End()
  {
  }

  lemma WordText(s: seq<Byte>)
    requires |s| >= 4
    ensures s[..4] == Four(Word(s))
  {
    hide Be32, LoadBe32;
    StoreLoadBe32(s[..4]);
    FourIs(Word(s));
  }

  lemma FieldAtFront(s: seq<Byte>)
    requires |s| >= 8 && 8 + Word(s[4..]) as int <= |s|
    ensures var len: int := Word(s[4..]);
            s == PrintField(FieldText(Word(s), s[8..][..len])) + s[8 + len..]
  {
    hide Four, Word;
    WordText(s);
    WordText(s[4..]);
    assert s[4..][..4] == s[4..8];
    assert s == s[..4] + s[4..8] + s[8..];
  }

  lemma WordIsNumber(s: seq<Byte>)
    requires |s| >= 4
    ensures Word(s) == Number(s[..4])
    ensures Word(s) == 0 <==> s[..4] == End()
  {
    NumberIs(s[..4]);
  }

  /** Bytes that offend are refused at once, as their first field says. */
  lemma RefusedAtOnce(section: Section, rest: seq<Byte>)
    ensures Offends(section.Header?, rest) ==>
              ParseSection(section, rest).outcome == RefusedAs(section.Header?, rest) != Ok
    ensures !Offends(section.Header?, rest) && rest[..4] != End() ==>
              Word(rest) != 0 && Word(rest[4..]) as int + 8 <= |rest|
  {
    hide ParseSection, Accept, Good, Number, Word;
    Unfold(section, rest);
    if |rest| >= 4 {
      WordIsNumber(rest);
    }
    if |rest| >= 8 {
      WordIsNumber(rest[4..]);
      assert rest[4..][..4] == rest[4..8];
      if Word(rest) != 0 {
        var len: int := Word(rest[4..]);
        OnlyGoodAccepted(section, Word(rest), len, rest[8..]);
        assert 8 + len <= |rest| ==> rest[8..][..len] == rest[8..8 + len];
      }
    }
  }

  /** After any run of good fields, too. */
  lemma SectionRefused(section: Section, fields: seq<FieldText>, rest: seq<Byte>)
    requires AllGood(section.Header?, fields) && Offends(section.Header?, rest)
    ensures ParseSection(section, PrintFields(section.Header?, fields) + rest).outcome
         == RefusedAs(section.Header?, rest) != Ok
  {
    hide ParseSection, AllGood, PrintFields, Offends, RefusedAs;
    GoodRun(section, fields, rest);
    RefusedAtOnce(FilledAll(section, fields), rest);
  }

  /** Whatever is refused as a section is a run of good fields and bytes that offend. */
  lemma {:induction false} RefusedForm(section: Section, s: seq<Byte>) returns (fields: seq<FieldText>, rest: seq<Byte>)
    requires !ParseSection(section, s).outcome.Ok?
    ensures AllGood(section.Header?, fields) && Offends(section.Header?, rest)
    ensures s == PrintFields(section.Header?, fields) + rest
    decreases |s|
  {
    hide ParseSection, Accept, Good, Four, Be32, Field, LoadBe32, Offends, RefusedAs;
    RefusedAtOnce(section, s);
    if Offends(section.Header?, s) {
      fields, rest := [], s;
      assert PrintFields(section.Header?, fields) + rest == s;
    } else {
      StartsGoodIs(section, s);
      var id, len: int := Word(s), Word(s[4..]);
      var f := FieldText(id, s[8..][..len]);
      var more;
      more, rest := RefusedForm(Accept(section, id, len, s[8..]).1, s[8 + len..]);
      fields := [f] + more;
      assert fields[1..] == more;
      GoodSize(section.Header?, f);
      FieldAtFront(s);
      Assoc(PrintField(f), PrintFields(section.Header?, more), rest);
    }
  }

  /** Where the parser neither ends nor refuses, it takes a good field. */
  lemma StartsGoodIs(section: Section, s: seq<Byte>)
    requires !Offends(section.Header?, s) && !ParseSection(section, s).outcome.Ok?
    ensures |s| >= 8 && Word(s) != 0 && Word(s[4..]) as int + 8 <= |s|
    ensures var id, len: int := Word(s), Word(s[4..]); var next := Accept(section, id, len, s[8..]).1;
            && Good(section.Header?, FieldText(id, s[8..][..len])) && next.Header? == section.Header?
            && ParseSection(section, s) == ParseSection(next, s[8 + len..])
  {
    hide ParseSection, Accept, Good, Number, Word;
    Unfold(section, s);
    WordIsNumber(s);
    if Word(s) != 0 {
      WordIsNumber(s[4..]);
      var id, len: int := Word(s), Word(s[4..]);
      assert s[4..][..4] == s[4..8];
      assert s[8..][..len] == s[8..8 + len];
      OnlyGoodAccepted(section, id, len, s[8..]);
      AcceptKind(section, id, len, s[8..]);
    }
  }

  // --------------------------------------------------------------- entries

  lemma BlankIs()
    ensures BlankEntry() == EMPTY_ENTRY
  {
  }

  lemma OneMoreEntry(fields: seq<FieldText>, acc: map<Word32, Entry>, t: seq<Byte>)
    requires AllGood(false, fields)
    ensures var e := EntryAfter(BlankEntry(), fields);
            ParseEntries(PrintFields(false, fields) + (End() + t), acc).outcome
            == ParseEntries(t, acc[e.version := e]).outcome
    ensures var e := EntryAfter(BlankEntry(), fields);
            ParseEntries(t, acc[e.version := e]).outcome.Ok? ==>
              ParseEntries(PrintFields(false, fields) + (End() + t), acc) == ParseEntries(t, acc[e.version := e])
  {
    hide ParseSection, AllGood, PrintFields, EntryAfter;
    BlankIs();
    GoodSection(Body(EMPTY_ENTRY), fields, t);
  }

  lemma {:induction false} GoodEntries(entries: seq<seq<FieldText>>, acc: map<Word32, Entry>, t: seq<Byte>)
    requires AllGoodEntries(entries)
    ensures ParseEntries(PrintEntries(entries) + t, acc).outcome == ParseEntries(t, EntriesAfter(acc, entries)).outcome
    ensures ParseEntries(t, EntriesAfter(acc, entries)).outcome.Ok? ==>
              ParseEntries(PrintEntries(entries) + t, acc) == ParseEntries(t, EntriesAfter(acc, entries))
    decreases |entries|
  {
    hide ParseEntries, AllGood, PrintFields, EntryAfter, BlankEntry;
    if entries == [] {
      assert PrintEntries(entries) + t == t;
    } else {
      assert AllGood(false, entries[0]);
      var e, more := EntryAfter(BlankEntry(), entries[0]), PrintEntries(entries[1..]) + t;
      OneMoreEntry(entries[0], acc, more);
      GoodEntries(entries[1..], acc[e.version := e], t);
      Assoc(PrintFields(false, entries[0]) + End(), PrintEntries(entries[1..]), t);
      Assoc(PrintFields(false, entries[0]), End(), more);
    }
  }

  lemma {:induction false} EntriesForm(s: seq<Byte>, acc: map<Word32, Entry>) returns (entries: seq<seq<FieldText>>)
    requires ParseEntries(s, acc).outcome.Ok?
    ensures AllGoodEntries(entries) && s == PrintEntries(entries)
    decreases |s|
  {
    hide ParseSection, AllGood, PrintFields;
    if s == [] {
      entries := [];
    } else {
      var p := ParseSection(Body(EMPTY_ENTRY), s);
      var fields := SectionForm(Body(EMPTY_ENTRY), s);
      var more := EntriesForm(p.rest, acc[p.value.entry.version := p.value.entry]);
      entries := [fields] + more;
      assert entries[1..] == more;
      Assoc(PrintFields(false, fields), End(), p.rest);
    }
  }

  /** Whatever is refused as a run of entries is some good ones, good fields of one more, and bytes that offend. */
  lemma {:induction false} RefusedEntriesForm(s: seq<Byte>, acc: map<Word32, Entry>)
    returns (entries: seq<seq<FieldText>>, fields: seq<FieldText>, rest: seq<Byte>)
    requires !ParseEntries(s, acc).outcome.Ok?
    ensures AllGoodEntries(entries) && AllGood(false, fields) && Offends(false, rest) && (fields != [] || rest != [])
    ensures s == PrintEntries(entries) + (PrintFields(false, fields) + rest)
    decreases |s|
  {
    hide ParseSection, AllGood, Offends;
    var p := ParseSection(Body(EMPTY_ENTRY), s);
    if p.outcome.Ok? {
      var first := SectionForm(Body(EMPTY_ENTRY), s);
      hide PrintFields;
      var more;
      more, fields, rest := RefusedEntriesForm(p.rest, acc[p.value.entry.version := p.value.entry]);
      entries := [first] + more;
      assert entries[1..] == more;
      Assoc(PrintFields(false, first), End(), p.rest);
      Assoc(PrintFields(false, first) + End(), PrintEntries(more), PrintFields(false, fields) + rest);
    } else {
      entries := [];
      fields, rest := RefusedForm(Body(EMPTY_ENTRY), s);
      assert PrintEntries(entries) + (PrintFields(false, fields) + rest) == s;
    }
  }

  // ----------------------------------------------------------------- files

  lemma PreambleIs(t: seq<Byte>)
    ensures var s := Preamble() + t;
            |s| >= 16 && s[..12] == MAGIC && Word(s[12..]) == FORMAT_VERSION && s[16..] == t
  {
    var s := Preamble() + t;
    assert s[12..][..4] == [0, 0, 0, 2];
    NumberIs(s[12..][..4]);
  }

  /** Other bytes in the first twelve, or too few: malformed. Another number in the next four: incompatible. */
  lemma RefusedPreamble(s: seq<Byte>)
    ensures |s| < 16 || s[..12] != [0, 71, 73, 84, 67, 82, 89, 80, 84, 75, 69, 89] ==> LoadKeys(s).outcome == Malformed
    ensures |s| >= 16 && s[..12] == [0, 71, 73, 84, 67, 82, 89, 80, 84, 75, 69, 89] && s[12..16] != [0, 0, 0, 2] ==>
              LoadKeys(s).outcome == Incompatible
    ensures LoadKeys(s).outcome.Ok? ==> |s| >= 16 && s[..16] == Preamble()
  {
    hide ParseSection, ParseEntries;
    if |s| >= 16 {
      assert s[12..][..4] == s[12..16];
      WordText(s[12..]);
      if s[12..16] == [0, 0, 0, 2] {
        assert s[..16] == s[..12] + s[12..16];
      }
    }
  }

  /** What a file with this preamble loads to is what its header and its entries parse to. */
  lemma AfterPreamble(t: seq<Byte>)
    ensures var p, h := LoadKeys(Preamble() + t), ParseSection(Header(""), t);
            && (!h.outcome.Ok? ==> p.outcome == h.outcome)
            && (h.outcome.Ok? ==>
                  var b := ParseEntries(h.rest, map[]);
                  p == Parsed(b.outcome, Keys(h.value.name, b.value), b.rest))
  {
    hide ParseSection, ParseEntries, Word;
    PreambleIs(t);
  }

  /** Good fields and entries load, to what the last field of each kind and the last entry of each version say. */
  lemma GoodFile(header: seq<FieldText>, entries: seq<seq<FieldText>>)
    requires AllGood(true, header) && AllGoodEntries(entries)
    ensures LoadKeys(FileText(header, entries))
         == Parsed(Ok, Keys(NameAfter("", header), EntriesAfter(map[], entries)), [])
  {
    hide ParseSection, ParseEntries, AllGood, AllGoodEntries, PrintFields, PrintEntries, Preamble, LoadKeys;
    AfterPreamble(PrintFields(true, header) + (End() + PrintEntries(entries)));
    GoodSection(Header(""), header, PrintEntries(entries));
    GoodEntries(entries, map[], []);
    assert PrintEntries(entries) + [] == PrintEntries(entries);
    NoEntries(EntriesAfter(map[], entries));
  }

  lemma NoEntries(acc: map<Word32, Entry>)
    ensures ParseEntries([], acc) == Parsed(Ok, acc, [])
  {
  }

  ghost predicate IsFile(s: seq<Byte>, header: seq<FieldText>, entries: seq<seq<FieldText>>) {
    AllGood(true, header) && AllGoodEntries(entries) && s == FileText(header, entries)
  }

  /** The files that load are exactly the printed forms of good fields and entries. */
  lemma AcceptedExactly(s: seq<Byte>)
    ensures LoadKeys(s).outcome.Ok? <==> exists header, entries :: IsFile(s, header, entries)
  {
    hide LoadKeys, ParseSection, ParseEntries, AllGood, AllGoodEntries, PrintFields, PrintEntries, Preamble;
    if LoadKeys(s).outcome.Ok? {
      RefusedPreamble(s);
      assert s == s[..16] + s[16..];
      AfterPreamble(s[16..]);
      var h := ParseSection(Header(""), s[16..]);
      var header := SectionForm(Header(""), s[16..]);
      var entries := EntriesForm(h.rest, map[]);
      assert IsFile(s, header, entries);
    }
    forall header, entries | IsFile(s, header, entries)
      ensures LoadKeys(s).outcome.Ok?
    {
      GoodFile(header, entries);
    }
  }

  /** Bytes that offend in the header, or in an entry, decide how a file is refused, whatever follows. */
  lemma RefusedFile(header: seq<FieldText>, entries: seq<seq<FieldText>>, fields: seq<FieldText>, rest: seq<Byte>)
    requires AllGood(true, header) && AllGoodEntries(entries) && AllGood(false, fields)
    ensures Offends(true, rest) ==>
              LoadKeys(Preamble() + (PrintFields(true, header) + rest)).outcome == RefusedAs(true, rest)
    ensures Offends(false, rest) && (fields != [] || rest != []) ==>
              LoadKeys(FileText(header, entries) + (PrintFields(false, fields) + rest)).outcome
              == RefusedAs(false, rest)
  {
    hide LoadKeys, ParseSection, ParseEntries, AllGood, AllGoodEntries, PrintFields, PrintEntries, Preamble, Offends,
         RefusedAs;
    AfterPreamble(PrintFields(true, header) + rest);
    if Offends(true, rest) {
      SectionRefused(Header(""), header, rest);
    }
    if Offends(false, rest) && (fields != [] || rest != []) {
      var last := PrintFields(false, fields) + rest;
      FileAndMore(header, entries, last);
      AfterPreamble(PrintFields(true, header) + (End() + (PrintEntries(entries) + last)));
      GoodSection(Header(""), header, PrintEntries(entries) + last);
      GoodEntries(entries, map[], last);
      SectionRefused(Body(EMPTY_ENTRY), fields, rest);
      SomeBytes(fields, rest);
      LastEntry(last, EntriesAfter(map[], entries));
    }
  }

  lemma FileAndMore(header: seq<FieldText>, entries: seq<seq<FieldText>>, t: seq<Byte>)
    requires AllGood(true, header) && AllGoodEntries(entries)
    ensures FileText(header, entries) + t
         == Preamble() + (PrintFields(true, header) + (End() + (PrintEntries(entries) + t)))
  {
    hide AllGood, AllGoodEntries, PrintFields, PrintEntries, Preamble, End;
    var a, b, c, d := Preamble(), PrintFields(true, header), End(), PrintEntries(entries);
    Assoc(a, b + (c + d), t);
    Assoc(b, c + d, t);
    Assoc(c, d, t);
  }

  lemma SomeBytes(fields: seq<FieldText>, rest: seq<Byte>)
    requires AllGood(false, fields) && (fields != [] || rest != [])
    ensures PrintFields(false, fields) + rest != []
  {
    hide Good;
  }

  lemma LastEntry(s: seq<Byte>, acc: map<Word32, Entry>)
    requires s != [] && !ParseSection(Body(EMPTY_ENTRY), s).outcome.Ok?
    ensures ParseEntries(s, acc).outcome == ParseSection(Body(EMPTY_ENTRY), s).outcome
  {
    hide ParseSection;
  }

  ghost predicate RefusedInHeader(s: seq<Byte>, header: seq<FieldText>, rest: seq<Byte>) {
    AllGood(true, header) && Offends(true, rest) && s == Preamble() + (PrintFields(true, header) + rest)
  }

  ghost predicate RefusedInEntry(s: seq<Byte>, header: seq<FieldText>, entries: seq<seq<FieldText>>,
                                 fields: seq<FieldText>, rest: seq<Byte>)
  {
    && AllGood(true, header) && AllGoodEntries(entries) && AllGood(false, fields) && Offends(false, rest)
    && (fields != [] || rest != []) && s == FileText(header, entries) + (PrintFields(false, fields) + rest)
  }

  /** There are no other files: every byte string with the right preamble loads or offends in one of these places. */
  lemma EveryFile(s: seq<Byte>)
    requires |s| >= 16 && s[..16] == Preamble() && !LoadKeys(s).outcome.Ok?
    ensures (exists header, rest :: RefusedInHeader(s, header, rest))
         || exists header, entries, fields, rest :: RefusedInEntry(s, header, entries, fields, rest)
  {
    hide LoadKeys, ParseSection, ParseEntries, AllGood, AllGoodEntries, PrintFields, PrintEntries, Preamble, Offends;
    assert s == s[..16] + s[16..];
    AfterPreamble(s[16..]);
    var h := ParseSection(Header(""), s[16..]);
    if h.outcome.Ok? {
      var header := SectionForm(Header(""), s[16..]);
      var entries, fields, rest := RefusedEntriesForm(h.rest, map[]);
      FileAndMore(header, entries, PrintFields(false, fields) + rest);
      assert RefusedInEntry(s, header, entries, fields, rest);
    } else {
      var header, rest := RefusedForm(Header(""), s[16..]);
      assert RefusedInHeader(s, header, rest);
    }
  }

  // -------------------------------------------------------- what is stored

  function NameFields(name: Text): seq<FieldText> {
    if name == "" then [] else [FieldText(1, ToBytes(name))]
  }

  function EntryFields(e: Entry): seq<FieldText> {
    [FieldText(1, Four(e.version)), FieldText(3, e.aesKey), FieldText(5, e.hmacKey)]
  }

  lemma EntryFieldsGood(e: Entry)
    ensures AllGood(false, EntryFields(e))
  {
  }

  /** A stored entry is three fields and the end mark. */
  lemma StoredEntryText(e: Entry)
    ensures AllGood(false, EntryFields(e))
    ensures StoreEntry(e) == PrintFields(false, EntryFields(e)) + End()
  {
    hide Be32, Four;
    EntryFieldsGood(e);
    var fs := EntryFields(e);
    PrintedIs(fs[0]);
    PrintedIs(fs[1]);
    PrintedIs(fs[2]);
    FourIs(e.version);
    FourIs(0);
    FourZero();
    hide Field, PrintField;
    assert fs[1..][1..] == [fs[2]] && fs[1..][0] == fs[1] && fs[2..] == [fs[2]];
    assert PrintFields(false, [fs[2]]) == PrintField(fs[2]) + [];
    assert PrintFields(false, fs[1..]) == PrintField(fs[1]) + PrintFields(false, fs[1..][1..]);
    assert PrintFields(false, fs) == PrintField(fs[0]) + (PrintField(fs[1]) + PrintField(fs[2]));
  }

  /** The stored header is the preamble, a field for the name if there is one, and the end mark. */
  lemma StoredHeaderText(name: Text)
    requires |name| < WORDS
    ensures StoreHeader(name)
         == Preamble() + ((if name == "" then [] else PrintField(FieldText(1, ToBytes(name)))) + End())
  {
    hide Be32, Four, PrintField;
    FourIs(2);
    FourIs(0);
    FourZero();
    FourTwo();
    if name != "" {
      PrintedIs(FieldText(1, ToBytes(name)));
    }
    assert MAGIC + Be32(FORMAT_VERSION) == Preamble();
  }

  lemma FourTwo()
    ensures Four(2) == [0, 0, 0, 2]
  {
  }
}
