/** What the key-file parser and printer guarantee about each other. */
module KeyTheorems {
  import opened Basics
  import opened Bytes
  import opened KeyFormat

  // --------------------------------------------------- one field at a time

  /** A printed field in front of other bytes: the parser's next step sees exactly its parts. */
  lemma FieldParts(id: Word32, payload: seq<Byte>, t: seq<Byte>)
    requires |payload| < WORDS
    ensures var s := Field(id, payload) + t;
            |s| >= 8 && Word(s) == id && Word(s[4..]) == |payload| && s[8..] == payload + t
            && s[8 + |payload|..] == t
  {
    var s := Field(id, payload) + t;
    hide Be32, LoadBe32;
    LoadStoreBe32(id);
    LoadStoreBe32(|payload|);
    assert s[..4] == Be32(id);
    assert s[4..][..4] == Be32(|payload|);
  }

  lemma ParseField(section: Section, id: Word32, payload: seq<Byte>, t: seq<Byte>)
    requires |payload| < WORDS && id != FIELD_END
    ensures var (outcome, next) := Accept(section, id, |payload|, payload + t);
            outcome.Ok? ==> ParseSection(section, Field(id, payload) + t) == ParseSection(next, t)
  {
    FieldParts(id, payload, t);
  }

  lemma ParseEnd(section: Section, t: seq<Byte>)
    ensures ParseSection(section, Be32(FIELD_END) + t) == Parsed(Ok, section, t)
  {
    var s := Be32(FIELD_END) + t;
    LoadStoreBe32(FIELD_END);
    assert s[..4] == Be32(FIELD_END);
    assert s[4..] == t;
  }

  /** A field is accepted or refused by what it holds, not by the bytes after it. */
  lemma AcceptLocal(section: Section, id: Word32, len: Word32, a: seq<Byte>, b: seq<Byte>)
    requires id != FIELD_END && Accept(section, id, len, a).0.Ok?
    requires len <= |a| ==> len <= |b| && a[..len] == b[..len]
    ensures len <= |a| && Accept(section, id, len, b) == Accept(section, id, len, a)
  {
  }

  /** Cut inside its contents, a field that would be accepted is malformed. */
  lemma AcceptShort(section: Section, id: Word32, len: Word32, body: seq<Byte>, k: nat)
    requires id != FIELD_END && Accept(section, id, len, body).0.Ok? && k < len
    ensures k <= |body| && Accept(section, id, len, body[..k]).0 == Malformed
  {
  }

  // ----------------------------------------------------------- whole sections

  /** One step of the parser. */
  lemma Unfold(section: Section, s: seq<Byte>)
    ensures |s| < 4 ==> ParseSection(section, s) == Parsed(Malformed, section, s)
    ensures |s| >= 4 && Word(s) == FIELD_END ==> ParseSection(section, s) == Parsed(Ok, section, s[4..])
    ensures 4 <= |s| < 8 && Word(s) != FIELD_END ==> ParseSection(section, s) == Parsed(Malformed, section, s)
    ensures |s| >= 8 && Word(s) != FIELD_END ==>
              var len := Word(s[4..]);
              var (outcome, next) := Accept(section, Word(s), len, s[8..]);
              && (outcome.Ok? ==> 8 + len <= |s| && ParseSection(section, s) == ParseSection(next, s[8 + len..]))
              && (!outcome.Ok? ==> ParseSection(section, s) == Parsed(outcome, next, s))
  {
  }

  /** The first n bytes of s with other bytes t behind them, seen from position m. */
  lemma Replaced(s: seq<Byte>, n: nat, t: seq<Byte>, m: nat)
    requires m <= n <= |s|
    ensures var u := s[..n] + t;
            && (n >= 4 ==> Word(u) == Word(s))
            && (n >= 8 ==> Word(u[4..]) == Word(s[4..]))
            && u[m..] == s[m..][..n - m] + t
  {
    var u := s[..n] + t;
    if n >= 4 {
      assert u[..4] == s[..4];
      if n >= 8 {
        assert u[4..][..4] == s[4..][..4];
      }
    }
  }

  /** How many bytes a section takes up. */
  ghost function Extent(section: Section, s: seq<Byte>): nat
    requires ParseSection(section, s).outcome.Ok?
  {
    |s| - |ParseSection(section, s).rest|
  }

  /** What follows a section has no influence on it: the rest can be replaced by anything. */
  lemma {:induction false} SectionLocal(section: Section, s: seq<Byte>, t: seq<Byte>)
    requires ParseSection(section, s).outcome.Ok?
    ensures ParseSection(section, s[..Extent(section, s)] + t) == Parsed(Ok, ParseSection(section, s).value, t)
    decreases |s|
  {
    hide ParseSection, Accept, Word;
    var n := Extent(section, s);
    Unfold(section, s);
    Unfold(section, s[..n] + t);
    if Word(s) == FIELD_END {
      Replaced(s, n, t, 4);
    } else {
      var len: int := Word(s[4..]);
      Replaced(s, n, t, 8);
      AcceptLocal(section, Word(s), len, s[8..], s[8..][..n - 8] + t);
      var next := Accept(section, Word(s), len, s[8..]).1;
      SectionLocal(next, s[8 + len..], t);
      Replaced(s, n, t, 8 + len);
    }
  }

  /** A section cut anywhere before its end is malformed, whatever it was going to hold. */
  lemma {:induction false} SectionTruncated(section: Section, s: seq<Byte>, k: nat)
    requires ParseSection(section, s).outcome.Ok? && k < Extent(section, s)
    ensures ParseSection(section, s[..k]).outcome == Malformed
    decreases |s|
  {
    hide ParseSection, Accept, Word;
    Unfold(section, s);
    Unfold(section, s[..k]);
    assert s[..k] + [] == s[..k];
    Replaced(s, k, [], 0);
    if k >= 8 {
      var len: int := Word(s[4..]);
      assert s[..k][8..] == s[8..][..k - 8];
      if k < 8 + len {
        AcceptShort(section, Word(s), len, s[8..], k - 8);
      } else {
        AcceptLocal(section, Word(s), len, s[8..], s[8..][..k - 8]);
        assert s[..k][8 + len..] == s[8 + len..][..k - 8 - len];
        SectionTruncated(Accept(section, Word(s), len, s[8..]).1, s[8 + len..], k - 8 - len);
      }
    }
  }

  // ------------------------------------------------------ fields put in between

  function Insert(s: seq<Byte>, k: nat, f: seq<Byte>): seq<Byte>
    requires k <= |s|
  {
    s[..k] + f + s[k..]
  }

  /** Position k of the bytes s of a section is the start of one of its fields or of its end marker. */
  ghost predicate FieldBoundary(s: seq<Byte>, k: nat)
    requires k <= |s|
    decreases |s|
  {
    k == 0 ||
    (|s| >= 8 && Word(s) != FIELD_END &&
     var next: int := 8 + Word(s[4..]) as int;
     next <= k && FieldBoundary(s[next..], k - next))
  }

  /**
   What one unknown field does to a parse: an even one of at most 2^20 bytes changes nothing, an
   odd one makes the result incompatible, and a longer even one makes it malformed.
   */
  ghost predicate UnknownEffect<T>(id: Word32, payload: seq<Byte>, before: Parsed<T>, after: Parsed<T>) {
    if id % 2 == 1 then after.outcome == Incompatible
    else if |payload| <= MAX_FIELD_LEN then after == before
    else after.outcome == Malformed
  }

  lemma InsertAtStart(section: Section, s: seq<Byte>, id: Word32, payload: seq<Byte>)
    requires id != FIELD_END && !section.Known(id) && |payload| < WORDS
    ensures UnknownEffect(id, payload, ParseSection(section, s), ParseSection(section, Field(id, payload) + s))
  {
    hide ParseSection, Accept, Word, Field;
    FieldParts(id, payload, s);
    AcceptUnknown(section, id, payload, s);
    Unfold(section, Field(id, payload) + s);
  }

  lemma InsertIs(s: seq<Byte>, k: nat, f: seq<Byte>)
    requires k <= |s|
    ensures Insert(s, k, f) == s[..k] + (f + s[k..])
  {
    Assoc(s[..k], f, s[k..]);
  }

  /** Bytes put in after the first field leave that field to be read as before. */
  lemma InsertLater(section: Section, s: seq<Byte>, k: nat, f: seq<Byte>)
    requires ParseSection(section, s).outcome.Ok? && |s| >= 8 && Word(s) != FIELD_END
    requires 8 + Word(s[4..]) as int <= k <= |s|
    ensures var len: int := Word(s[4..]); var next := Accept(section, Word(s), len, s[8..]).1;
            && ParseSection(section, s) == ParseSection(next, s[8 + len..])
            && ParseSection(section, Insert(s, k, f)) == ParseSection(next, Insert(s[8 + len..], k - 8 - len, f))
  {
    hide ParseSection, Accept, Word, Insert;
    var len: int := Word(s[4..]);
    var t := f + s[k..];
    InsertIs(s, k, f);
    Unfold(section, s);
    Unfold(section, s[..k] + t);
    Replaced(s, k, t, 8);
    AcceptLocal(section, Word(s), len, s[8..], s[8..][..k - 8] + t);
    Replaced(s, k, t, 8 + len);
    InsertIs(s[8 + len..], k - 8 - len, f);
    assert s[8 + len..][k - 8 - len..] == s[k..];
  }

  lemma {:induction false} InsertInSection(section: Section, s: seq<Byte>, k: nat, id: Word32, payload: seq<Byte>)
    requires ParseSection(section, s).outcome.Ok? && k <= |s| && FieldBoundary(s, k)
    requires id != FIELD_END && !section.Known(id) && |payload| < WORDS
    ensures UnknownEffect(id, payload, ParseSection(section, s),
                          ParseSection(section, Insert(s, k, Field(id, payload))))
    decreases |s|
  {
    hide ParseSection, Accept, Word, Field, UnknownEffect;
    if k == 0 {
      assert Insert(s, k, Field(id, payload)) == Field(id, payload) + s;
      InsertAtStart(section, s, id, payload);
    } else {
      InsertLater(section, s, k, Field(id, payload));
      Unfold(section, s);
      var len: int := Word(s[4..]);
      AcceptKind(section, Word(s), len, s[8..]);
      InsertInSection(Accept(section, Word(s), len, s[8..]).1, s[8 + len..], k - 8 - len, id, payload);
    }
  }

  lemma AcceptKind(section: Section, id: Word32, len: Word32, rest: seq<Byte>)
    requires id != FIELD_END
    ensures Accept(section, id, len, rest).1.Header? == section.Header?
  {
  }

  lemma AcceptUnknown(section: Section, id: Word32, payload: seq<Byte>, t: seq<Byte>)
    requires id != FIELD_END && !section.Known(id) && |payload| < WORDS
    ensures Accept(section, id, |payload|, payload + t)
         == (if id % 2 == 1 then (Incompatible, section)
             else if |payload| <= MAX_FIELD_LEN then (Ok, section) else (Malformed, section))
  {
  }

  // ------------------------------------------------------------ printed forms

  /** A printed entry followed by anything parses to that entry and leaves the rest. */
  lemma ParseStoredEntry(e: Entry, t: seq<Byte>)
    ensures ParseSection(Body(EMPTY_ENTRY), StoreEntry(e) + t) == Parsed(Ok, Body(e), t)
  {
    hide Field, ParseSection, Be32, LoadBe32;
    var end := Be32(FIELD_END) + t;
    var hmac := Field(KEY_FIELD_HMAC_KEY, e.hmacKey) + end;
    var aes := Field(KEY_FIELD_AES_KEY, e.aesKey) + hmac;
    assert StoreEntry(e) + t == Field(KEY_FIELD_VERSION, Be32(e.version)) + aes;

    LoadStoreBe32(e.version);
    assert (Be32(e.version) + aes)[..4] == Be32(e.version);
    var e1 := EMPTY_ENTRY.(version := e.version);
    ParseField(Body(EMPTY_ENTRY), KEY_FIELD_VERSION, Be32(e.version), aes);
    assert (e.aesKey + hmac)[..32] == e.aesKey;
    var e2 := e1.(aesKey := e.aesKey);
    ParseField(Body(e1), KEY_FIELD_AES_KEY, e.aesKey, hmac);
    assert (e.hmacKey + end)[..64] == e.hmacKey;
    ParseField(Body(e2), KEY_FIELD_HMAC_KEY, e.hmacKey, end);
    ParseEnd(Body(e), t);
  }

  /** The given entries put into a map one after the other. */
  ghost function AddAll(acc: map<Word32, Entry>, entries: map<Word32, Entry>, versions: seq<Word32>): map<Word32, Entry>
    requires forall v :: v in versions ==> v in entries
    decreases |versions|
  {
    if versions == [] then acc
    else AddAll(acc[versions[0] := entries[versions[0]]], entries, versions[1..])
  }

  lemma {:induction false} AddAllAt(acc: map<Word32, Entry>, entries: map<Word32, Entry>, versions: seq<Word32>,
                                    v: Word32)
    requires forall w :: w in versions ==> w in entries
    ensures v in AddAll(acc, entries, versions) <==> v in versions || v in acc
    ensures v in versions ==> AddAll(acc, entries, versions)[v] == entries[v]
    ensures v !in versions && v in acc ==> AddAll(acc, entries, versions)[v] == acc[v]
    decreases |versions|
  {
    if versions != [] {
      AddAllAt(acc[versions[0] := entries[versions[0]]], entries, versions[1..], v);
    }
  }

  /** The entries of the given versions, printed one after the other, are read back on top of acc. */
  lemma {:induction false} ParseStoredEntries(entries: map<Word32, Entry>, versions: seq<Word32>,
                                              acc: map<Word32, Entry>)
    requires Filed(entries) && forall v :: v in versions ==> v in entries
    ensures ParseEntries(StoreEntries(entries, versions), acc) == Parsed(Ok, AddAll(acc, entries, versions), [])
    decreases |versions|
  {
    hide ParseSection, StoreEntry;
    if versions != [] {
      var e, others := entries[versions[0]], versions[1..];
      ParseStoredEntry(e, StoreEntries(entries, others));
      ParseStoredEntries(entries, others, acc[e.version := e]);
    }
  }

  lemma ParseStoredName(name: Text, t: seq<Byte>)
    requires LoadableName(name)
    ensures ParseSection(Header(""), StoreName(name) + Be32(FIELD_END) + t) == Parsed(Ok, Header(name), t)
  {
    var end := Be32(FIELD_END) + t;
    hide Field, ParseSection, Be32;
    if name == "" {
      assert StoreName(name) + Be32(FIELD_END) + t == end;
      ParseEnd(Header(""), t);
    } else {
      var field := ToBytes(name);
      assert StoreName(name) + Be32(FIELD_END) + t == Field(HEADER_FIELD_KEY_NAME, field) + end;
      TextRoundTrip(name);
      assert (field + end)[..|field|] == field;
      ParseField(Header(""), HEADER_FIELD_KEY_NAME, field, end);
      ParseEnd(Header(name), t);
    }
  }

  /** The preamble of a printed header, and what comes after it. */
  lemma HeaderParts(name: Text, t: seq<Byte>)
    ensures var s := StoreHeader(name) + t;
            && |s| >= 16 && s[..12] == MAGIC && Word(s[12..]) == FORMAT_VERSION
            && s[16..] == StoreName(name) + Be32(FIELD_END) + t
  {
    hide StoreName, Be32, LoadBe32;
    var s := StoreHeader(name) + t;
    LoadStoreBe32(FORMAT_VERSION);
    assert s[12..][..4] == Be32(FORMAT_VERSION);
  }

  /** Loading a printed header followed by anything leaves that to be read as entries. */
  lemma ParseStoredHeader(name: Text, t: seq<Byte>)
    requires LoadableName(name)
    ensures var p := LoadKeys(StoreHeader(name) + t); var b := ParseEntries(t, map[]);
            p == Parsed(b.outcome, Keys(name, b.value), b.rest)
  {
    hide StoreHeader, StoreName, ParseSection, ParseEntries, Be32, Word;
    HeaderParts(name, t);
    ParseStoredName(name, t);
  }

  // ------------------------------------------------------------ the round trip

  lemma StorableLoads(keys: Keys)
    requires LoadableName(keys.name) && Filed(keys.entries)
    ensures LoadKeys(StoreKeys(keys)) == Parsed(Ok, keys, [])
  {
    hide StoreHeader, StoreEntries, Descending, ParseEntries, ParseKeyFile, AddAll;
    var versions := Descending(keys.entries.Keys);
    ParseStoredHeader(keys.name, StoreEntries(keys.entries, versions));
    ParseStoredEntries(keys.entries, versions, map[]);
    forall v: Word32
      ensures v in AddAll(map[], keys.entries, versions) <==> v in keys.entries
      ensures v in keys.entries ==> AddAll(map[], keys.entries, versions)[v] == keys.entries[v]
    {
      AddAllAt(map[], keys.entries, versions, v);
      if v in keys.entries {
        DescendingComplete(keys.entries.Keys, v);
      }
    }
    assert AddAll(map[], keys.entries, versions) == keys.entries;
  }

  lemma {:induction false} ParsedName(section: Section, s: seq<Byte>)
    requires section.Header? && LoadableName(section.name)
    ensures var p := ParseSection(section, s); p.value.Header? && LoadableName(p.value.name)
    decreases |s|
  {
    if |s| >= 8 && Word(s) != FIELD_END {
      var len := Word(s[4..]);
      var (outcome, next) := Accept(section, Word(s), len, s[8..]);
      if outcome.Ok? {
        ParsedName(next, s[8 + len..]);
      }
    }
  }

  lemma {:induction false} ParsedEntriesFiled(s: seq<Byte>, entries: map<Word32, Entry>)
    requires Filed(entries)
    ensures Filed(ParseEntries(s, entries).value)
    decreases |s|
  {
    if s != [] {
      var p := ParseSection(Body(EMPTY_ENTRY), s);
      if p.outcome.Ok? {
        ParsedEntriesFiled(p.rest, entries[p.value.entry.version := p.value.entry]);
      }
    }
  }

  /** Whatever is loaded can be stored again: the name is loadable and every entry properly filed. */
  lemma LoadedIsStorable(s: seq<Byte>)
    ensures var keys := LoadKeys(s).value; LoadableName(keys.name) && Filed(keys.entries)
  {
    if |s| >= 16 {
      ParsedName(Header(""), s[16..]);
      var h := ParseSection(Header(""), s[16..]);
      ParsedEntriesFiled(h.rest, map[]);
    }
  }

  /**
   Loading what was printed gives the same name and the same entries exactly if the name is one that
   the parser accepts and every entry is filed under its version.
   */
  lemma StoreThenLoad(keys: Keys)
    ensures LoadKeys(StoreKeys(keys)) == Parsed(Ok, keys, []) <==> LoadableName(keys.name) && Filed(keys.entries)
  {
    hide StoreKeys, LoadKeys, LoadableName, Filed;
    LoadedIsStorable(StoreKeys(keys));
    if LoadableName(keys.name) && Filed(keys.entries) {
      StorableLoads(keys);
    }
  }

  /** A key file with any other name is malformed, whatever its entries are. */
  lemma UnloadableName(keys: Keys)
    requires !LoadableName(keys.name) && |keys.name| < WORDS
    ensures LoadKeys(StoreKeys(keys)).outcome == Malformed
  {
    hide StoreHeader, StoreEntries, Descending, ParseEntries, ParseSection, Be32, Word, Field;
    var t := StoreEntries(keys.entries, Descending(keys.entries.Keys));
    var field, end := ToBytes(keys.name), Be32(FIELD_END) + t;
    HeaderParts(keys.name, t);
    assert StoreName(keys.name) + Be32(FIELD_END) + t == Field(HEADER_FIELD_KEY_NAME, field) + end;
    NameRefused(keys.name, end);
  }

  lemma NameRefused(name: Text, end: seq<Byte>)
    requires !LoadableName(name) && |name| < WORDS
    ensures ParseSection(Header(""), Field(HEADER_FIELD_KEY_NAME, ToBytes(name)) + end).outcome == Malformed
  {
    hide ParseSection, Field, Word;
    var field := ToBytes(name);
    FieldParts(HEADER_FIELD_KEY_NAME, field, end);
    Unfold(Header(""), Field(HEADER_FIELD_KEY_NAME, field) + end);
    TextRoundTrip(name);
    assert (field + end)[..|field|] == field;
  }

  /** For every byte string the parser accepts, printing the result and loading it again changes nothing. */
  lemma LoadStoreLoad(s: seq<Byte>)
    requires LoadKeys(s).outcome.Ok?
    ensures LoadKeys(StoreKeys(LoadKeys(s).value)) == Parsed(Ok, LoadKeys(s).value, [])
  {
    LoadedIsStorable(s);
    StoreThenLoad(LoadKeys(s).value);
  }

  // --------------------------------------------------- forward compatibility

  /** Position k of a run of entries is a field boundary of one of them. */
  ghost predicate EntriesBoundary(s: seq<Byte>, k: nat)
    requires k <= |s|
    decreases |s|
  {
    var p := ParseSection(Body(EMPTY_ENTRY), s);
    s != [] && p.outcome.Ok? &&
    (FieldBoundary(s, k) ||
     (var n := |s| - |p.rest|; n <= k && EntriesBoundary(p.rest, k - n)))
  }

  lemma InsertInFirst(s: seq<Byte>, entries: map<Word32, Entry>, k: nat, id: Word32, payload: seq<Byte>)
    requires ParseEntries(s, entries).outcome.Ok? && s != [] && k <= |s| && FieldBoundary(s, k)
    requires id != FIELD_END && !Body(EMPTY_ENTRY).Known(id) && |payload| < WORDS
    ensures UnknownEffect(id, payload, ParseEntries(s, entries),
                          ParseEntries(Insert(s, k, Field(id, payload)), entries))
  {
    hide ParseSection, Field, FieldBoundary;
    InsertInSection(Body(EMPTY_ENTRY), s, k, id, payload);
  }

  lemma EntriesStep(s: seq<Byte>, entries: map<Word32, Entry>)
    requires s != [] && ParseSection(Body(EMPTY_ENTRY), s).outcome.Ok?
    ensures var p := ParseSection(Body(EMPTY_ENTRY), s);
            ParseEntries(s, entries) == ParseEntries(p.rest, entries[p.value.entry.version := p.value.entry])
  {
    hide ParseSection;
  }

  lemma InsertBehind(s: seq<Byte>, n: nat, k: nat, f: seq<Byte>)
    requires n <= k <= |s|
    ensures Insert(s, k, f) == s[..n] + Insert(s[n..], k - n, f)
  {
  }

  lemma {:induction false} InsertInEntries(s: seq<Byte>, entries: map<Word32, Entry>, k: nat, id: Word32,
                                           payload: seq<Byte>)
    requires ParseEntries(s, entries).outcome.Ok? && k <= |s| && EntriesBoundary(s, k)
    requires id != FIELD_END && !Body(EMPTY_ENTRY).Known(id) && |payload| < WORDS
    ensures UnknownEffect(id, payload, ParseEntries(s, entries),
                          ParseEntries(Insert(s, k, Field(id, payload)), entries))
    decreases |s|
  {
    hide ParseSection, ParseEntries, Field, FieldBoundary, UnknownEffect, Insert;
    var f := Field(id, payload);
    var p := ParseSection(Body(EMPTY_ENTRY), s);
    if FieldBoundary(s, k) {
      InsertInFirst(s, entries, k, id, payload);
    } else {
      var n := |s| - |p.rest|;
      SectionLocal(Body(EMPTY_ENTRY), s, Insert(p.rest, k - n, f));
      InsertBehind(s, n, k, f);
      EntriesStep(s, entries);
      EntriesStep(Insert(s, k, f), entries);
      InsertInEntries(p.rest, entries[p.value.entry.version := p.value.entry], k - n, id, payload);
    }
  }

  /** Position k of a key file is a field boundary of its header. */
  ghost predicate InHeader(s: seq<Byte>, k: nat)
    requires k <= |s|
  {
    16 <= k && FieldBoundary(s[16..], k - 16)
  }

  /** Position k of a key file is a field boundary of one of its entries. */
  ghost predicate InEntries(s: seq<Byte>, k: nat)
    requires LoadKeys(s).outcome.Ok? && k <= |s|
  {
    var start := 16 + Extent(Header(""), s[16..]);
    start <= k && EntriesBoundary(s[start..], k - start)
  }

  lemma PreambleKept(s: seq<Byte>, k: nat, f: seq<Byte>)
    requires 16 <= k <= |s|
    ensures var inserted := Insert(s, k, f);
            && |inserted| >= 16 && inserted[..12] == s[..12] && Word(inserted[12..]) == Word(s[12..])
            && inserted[16..] == Insert(s[16..], k - 16, f)
  {
    hide Word;
    InsertIs(s, k, f);
    SameWord(s[12..], Insert(s, k, f)[12..]);
    assert s[16..][k - 16..] == s[k..];
  }

  lemma UnknownInHeader(s: seq<Byte>, k: nat, id: Word32, payload: seq<Byte>)
    requires LoadKeys(s).outcome.Ok? && k <= |s| && id != FIELD_END && |payload| < WORDS
    requires InHeader(s, k) && id != HEADER_FIELD_KEY_NAME
    ensures UnknownEffect(id, payload, LoadKeys(s), LoadKeys(Insert(s, k, Field(id, payload))))
  {
    hide ParseSection, ParseEntries, Field, FieldBoundary, Word, Insert;
    PreambleKept(s, k, Field(id, payload));
    InsertInSection(Header(""), s[16..], k - 16, id, payload);
  }

  lemma UnknownInEntries(s: seq<Byte>, k: nat, id: Word32, payload: seq<Byte>)
    requires LoadKeys(s).outcome.Ok? && k <= |s| && id != FIELD_END && |payload| < WORDS
    requires InEntries(s, k) && id !in {KEY_FIELD_VERSION, KEY_FIELD_AES_KEY, KEY_FIELD_HMAC_KEY}
    ensures UnknownEffect(id, payload, LoadKeys(s), LoadKeys(Insert(s, k, Field(id, payload))))
  {
    hide ParseSection, ParseEntries, Field, EntriesBoundary, Word, Insert;
    var f, n, h := Field(id, payload), Extent(Header(""), s[16..]), ParseSection(Header(""), s[16..]);
    PreambleKept(s, k, f);
    assert s[16 + n..] == s[16..][n..] == h.rest;
    SectionLocal(Header(""), s[16..], Insert(h.rest, k - 16 - n, f));
    InsertBehind(s[16..], n, k - 16, f);
    InsertInEntries(h.rest, map[], k - 16 - n, id, payload);
  }

  /** One unknown field put at any field boundary of an accepted file; an odd one never makes it malformed. */
  lemma UnknownFields(s: seq<Byte>, k: nat, id: Word32, payload: seq<Byte>)
    requires LoadKeys(s).outcome.Ok? && k <= |s| && id != FIELD_END && |payload| < WORDS
    requires (InHeader(s, k) && id != HEADER_FIELD_KEY_NAME)
          || (InEntries(s, k) && id !in {KEY_FIELD_VERSION, KEY_FIELD_AES_KEY, KEY_FIELD_HMAC_KEY})
    ensures UnknownEffect(id, payload, LoadKeys(s), LoadKeys(Insert(s, k, Field(id, payload))))
  {
    hide UnknownEffect, LoadKeys, Insert, Field, InHeader, InEntries;
    if InHeader(s, k) && id != HEADER_FIELD_KEY_NAME {
      UnknownInHeader(s, k, id, payload);
    } else {
      UnknownInEntries(s, k, id, payload);
    }
  }

  lemma SameWord(a: seq<Byte>, b: seq<Byte>)
    requires |a| >= 4 && |b| >= 4 && a[..4] == b[..4]
    ensures Word(a) == Word(b)
  {
  }

  // -------------------------------------------------------------- truncation

  lemma {:induction false} EntriesTruncated(entries: map<Word32, Entry>, versions: seq<Word32>,
                                            acc: map<Word32, Entry>, k: nat)
    requires Filed(entries) && (forall v :: v in versions ==> v in entries) && k < 128 * |versions|
    ensures var p := ParseEntries(StoreEntries(entries, versions)[..k], acc);
            if k % 128 == 0 then p == Parsed(Ok, AddAll(acc, entries, versions[..k / 128]), [])
            else p.outcome == Malformed
    decreases |versions|
  {
    hide ParseSection, StoreEntry;
    var e, others := entries[versions[0]], versions[1..];
    var stored, more := StoreEntry(e), StoreEntries(entries, others);
    if 0 < k < 128 {
      assert (stored + more)[..k] == stored[..k];
      assert stored + [] == stored;
      ParseStoredEntry(e, []);
      SectionTruncated(Body(EMPTY_ENTRY), stored, k);
    } else if k >= 128 {
      assert (stored + more)[..k] == stored + more[..k - 128];
      ParseStoredEntry(e, more[..k - 128]);
      assert versions[..k / 128] == [versions[0]] + others[..(k - 128) / 128];
      if others == [] {
        assert false;
      }
      EntriesTruncated(entries, others, acc[e.version := e], k - 128);
    }
  }

  lemma DescendingFrom(versions: set<Word32>, m: Word32)
    requires IsMax(m, versions)
    ensures Descending(versions) == [m] + Descending(versions - {m})
    ensures Descending(versions)[1..] == Descending(versions - {m})
  {
  }

  lemma {:induction false} DescendingComplete(versions: set<Word32>, v: Word32)
    requires v in versions
    ensures v in Descending(versions)
  {
    var m := Max(versions);
    DescendingFrom(versions, m);
    if v != m {
      DescendingComplete(versions - {m}, v);
    }
  }

  lemma {:induction false} DescendingSorted(versions: set<Word32>, i: nat, j: nat)
    requires i < j < |versions|
    ensures Descending(versions)[i] > Descending(versions)[j]
  {
    var m := Max(versions);
    var others := versions - {m};
    DescendingFrom(versions, m);
    hide Descending, Max;
    if i == 0 {
      assert Descending(others)[j - 1] in others;
    } else {
      DescendingSorted(others, i - 1, j - 1);
    }
  }

  ghost function Only(entries: map<Word32, Entry>, versions: seq<Word32>): map<Word32, Entry> {
    map v | v in entries && v in versions :: entries[v]
  }

  /**
   Every proper prefix of a stored key file is malformed, except those that end exactly after the
   header or after an entry: these load the name and the entries of the highest versions.
   */
  lemma Truncation(keys: Keys, k: nat)
    requires LoadableName(keys.name) && Filed(keys.entries) && k < |StoreKeys(keys)|
    ensures var p := LoadKeys(StoreKeys(keys)[..k]); var h := |StoreHeader(keys.name)|;
            if k >= h && (k - h) % 128 == 0 then
              var kept := Descending(keys.entries.Keys)[..(k - h) / 128];
              p == Parsed(Ok, Keys(keys.name, Only(keys.entries, kept)), [])
            else p.outcome == Malformed
  {
    hide ParseSection, ParseEntries, StoreEntries, StoreName, Descending, AddAll;
    var versions := Descending(keys.entries.Keys);
    var header, body := StoreHeader(keys.name), StoreEntries(keys.entries, versions);
    var h := |header|;
    if k >= h {
      assert (header + body)[..k] == header + body[..k - h];
      ParseStoredHeader(keys.name, body[..k - h]);
      EntriesTruncated(keys.entries, versions, map[], k - h);
      if (k - h) % 128 == 0 {
        var kept := versions[..(k - h) / 128];
        forall v: Word32
          ensures v in AddAll(map[], keys.entries, kept) <==> v in kept
          ensures v in kept ==> AddAll(map[], keys.entries, kept)[v] == keys.entries[v]
        {
          AddAllAt(map[], keys.entries, kept, v);
        }
        assert AddAll(map[], keys.entries, kept) == Only(keys.entries, kept);
      }
    } else if k >= 16 {
      HeaderTruncated(keys.name, k);
      assert (header + body)[..k] == header[..k];
    }
  }

  lemma HeaderTruncated(name: Text, k: nat)
    requires LoadableName(name) && 16 <= k < |StoreHeader(name)|
    ensures LoadKeys(StoreHeader(name)[..k]).outcome == Malformed
  {
    hide ParseSection, ParseEntries, StoreName, Be32;
    var header := StoreHeader(name);
    ParseStoredName(name, []);
    assert header[16..] == StoreName(name) + Be32(FIELD_END) + [];
    SectionTruncated(Header(""), header[16..], k - 16);
    assert header[..k][16..] == header[16..][..k - 16];
    LoadStoreBe32(FORMAT_VERSION);
    assert header[..k][12..][..4] == Be32(FORMAT_VERSION);
    assert header[..k][..12] == MAGIC;
  }
}
