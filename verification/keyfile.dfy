/** The key-file object: a name and a map of entries, filled by loading and adding. */
module KeyFiles {
  import opened Basics
  import opened Bytes
  import opened Crypto
  import opened Streams
  import opened KeyFormat
  import opened KeyTheorems

  /** The version that generating a key uses: one more than the latest, in 32 bits. */
  ghost function NextVersion(entries: map<Word32, Entry>): Word32 {
    if entries == map[] then 0 else WrapAdd(Max(entries.Keys))
  }

  /**
   A generated version is larger than every other exactly if the latest was not already the
   largest 32-bit number; otherwise it is 0, and replaces version 0 if there was one. The first
   version of a key is 0, and no number is left out.
   */
  lemma GeneratedIsLatest(entries: map<Word32, Entry>)
    ensures var v := NextVersion(entries);
            && ((forall w :: w in entries ==> w < v) <==> 0xFFFF_FFFF !in entries)
            && (v in entries <==> 0xFFFF_FFFF in entries && 0 in entries)
            && (v == 0 <==> entries == map[] || 0xFFFF_FFFF in entries)
            && (v > 0 ==> v - 1 in entries)
  {
  }

  /** Looks at the characters up to the first NUL, as a C string function does. */
  method ValidateKeyName(keyName: string) returns (valid: bool)
    ensures valid == ValidKeyName(CStr(keyName))
  {
    ghost var name := CStr(keyName);
    if keyName == "" || keyName[0] == '\0' || CStr(keyName) == "default" {
      return false;
    }
    var i := 0;
    while i < |keyName| && keyName[i] != '\0'
      invariant 0 <= i <= |name| && i <= KEY_NAME_MAX_LEN
      invariant forall k :: 0 <= k < i ==> KeyNameChar(name[k])
    {
      var c := keyName[i];
      assert c == name[i];
      if !KeyNameChar(c) {
        return false;
      }
      i := i + 1;
      if i > KEY_NAME_MAX_LEN {
        return false;
      }
    }
    return true;
  }

  lemma Words(s: seq<Byte>)
    ensures |s| >= 4 ==> Word(s) == LoadBe32(s[..4])
    ensures |s| >= 8 ==> Word(s[4..]) == LoadBe32(s[4..][..4]) && s[4..][4..] == s[8..]
    ensures |s| >= 12 ==> Word(s[8..]) == LoadBe32(s[8..][..4])
  {
  }

  class KeyFile {
    var entries: map<Word32, Entry>
    var keyName: Text

    ghost predicate Valid()
      reads this
    {
      Filed(entries)
    }

    ghost function Contents(): Keys
      reads this
    {
      Keys(keyName, entries)
    }

    constructor ()
      ensures Valid() && Contents() == NO_KEYS
    {
      entries, keyName := map[], "";
    }

    /** Key files are copied by value. */
    constructor Copy(keys: Keys)
      requires Filed(keys.entries)
      ensures Valid() && Contents() == keys
    {
      entries, keyName := keys.entries, keys.name;
    }

    // -------------------------------------------------------------- access

    method Get(version: Word32) returns (entry: Option<Entry>)
      ensures entry == if version in entries then Some(entries[version]) else None
    {
      entry := if version in entries then Some(entries[version]) else None;
    }

    /** The first key of the map, which is kept in descending order. */
    method Latest() returns (version: Option<Word32>)
      ensures version.None? <==> entries == map[]
      ensures version.Some? ==> IsMax(version.value, entries.Keys)
    {
      if entries == map[] {
        return None;
      }
      MaxExists(entries.Keys);
      var v: Word32 :| v in entries.Keys && forall w :: w in entries.Keys ==> w <= v;
      return Some(v);
    }

    method GetLatest() returns (entry: Option<Entry>)
      ensures entry.None? <==> entries == map[]
      ensures entry.Some? ==> entry.value == entries[Max(entries.Keys)]
    {
      var version := Latest();
      if version.None? {
        return None;
      }
      entry := Get(version.value);
    }

    method SetKeyName(name: Option<Text>)
      modifies this`keyName
      ensures keyName == KeptName(name)
    {
      keyName := if name.Some? then CStr(name.value) else "";
    }

    /** The name as a C string; none for the default key. */
    method GetKeyName() returns (name: Option<string>)
      ensures name == ReportedName(keyName)
    {
      name := if keyName == "" then None else Some(CStr(keyName));
    }

    // ------------------------------------------------------------- updates

    method Add(entry: Entry)
      requires Valid()
      modifies this`entries
      ensures Valid() && entries == old(entries)[entry.version := entry]
    {
      entries := entries[entry.version := entry];
    }

    /** Adds a new version; the random bytes come from outside. */
    method Generate(randomAes: AesKey, randomHmac: HmacKey)
      requires Valid()
      modifies this`entries
      ensures Valid()
      ensures var v := NextVersion(old(entries)); entries == old(entries)[v := Entry(v, randomAes, randomHmac)]
    {
      var latest := Latest();
      var version := if latest.None? then 0 else WrapAdd(latest.value);
      entries := entries[version := Entry(version, randomAes, randomHmac)];
    }

    // -------------------------------------------------------------- loading

    /** Reads the contents of one field of an entry. */
    static method LoadEntryField(e: Entry, id: Word32, len: Word32, input: Stream)
      returns (outcome: Outcome, entry: Entry)
      requires input.Valid() && input.good && id != FIELD_END
      modifies input
      ensures input.Valid()
      ensures var a := Accept(Body(e), id, len, old(input.Rest()));
              && outcome == a.0
              && (outcome.Ok? ==> Body(entry) == a.1 && input.Rest() == old(input.Rest())[len..] && input.good)
    {
      entry := e;
      if id == KEY_FIELD_VERSION {
        if len != 4 {
          return Malformed, entry;
        }
        var ok, version := input.ReadBe32();
        if !ok {
          return Malformed, entry;
        }
        entry := entry.(version := version);
      } else if id == KEY_FIELD_AES_KEY {
        if len != AES_KEY_LEN {
          return Malformed, entry;
        }
        var bytes := input.Take(AES_KEY_LEN);
        if |bytes| != AES_KEY_LEN {
          return Malformed, entry;
        }
        entry := entry.(aesKey := bytes);
      } else if id == KEY_FIELD_HMAC_KEY {
        if len != HMAC_KEY_LEN {
          return Malformed, entry;
        }
        var bytes := input.Take(HMAC_KEY_LEN);
        if |bytes| != HMAC_KEY_LEN {
          return Malformed, entry;
        }
        entry := entry.(hmacKey := bytes);
      } else if id % 2 == 1 {
        return Incompatible, entry;
      } else {
        if len > MAX_FIELD_LEN {
          return Malformed, entry;
        }
        var ignored := input.Take(len);
        if |ignored| != len {
          return Malformed, entry;
        }
      }
      return Ok, entry;
    }

    static method LoadEntry(input: Stream) returns (outcome: Outcome, entry: Entry)
      requires input.Valid() && input.good
      modifies input
      ensures input.Valid()
      ensures var p := ParseSection(Body(EMPTY_ENTRY), old(input.Rest()));
              && outcome == p.outcome
              && (outcome.Ok? ==> Body(entry) == p.value && input.Rest() == p.rest && input.good)
    {
      hide ParseSection, Accept, Word;
      entry := EMPTY_ENTRY;
      while true
        invariant input.Valid() && input.good
        invariant ParseSection(Body(EMPTY_ENTRY), old(input.Rest())) == ParseSection(Body(entry), input.Rest())
        decreases |input.Rest()|
      {
        ghost var start := input.Rest();
        Unfold(Body(entry), start);
        Words(start);
        var ok, fieldId := input.ReadBe32();
        if !ok {
          return Malformed, entry;
        }
        if fieldId == FIELD_END {
          return Ok, entry;
        }
        var fieldLen;
        ok, fieldLen := input.ReadBe32();
        if !ok {
          return Malformed, entry;
        }
        assert input.Rest() == start[8..];
        outcome, entry := LoadEntryField(entry, fieldId, fieldLen, input);
        if !outcome.Ok? {
          return;
        }
        assert input.Rest() == start[8 + fieldLen as int..];
      }
    }

    /** Reads the contents of one field of the header. */
    method LoadHeaderField(id: Word32, len: Word32, input: Stream) returns (outcome: Outcome)
      requires input.Valid() && input.good && id != FIELD_END
      modifies this`keyName, input
      ensures input.Valid()
      ensures var a := Accept(Header(old(keyName)), id, len, old(input.Rest()));
              && outcome == a.0 && Header(keyName) == a.1
              && (outcome.Ok? ==> input.Rest() == old(input.Rest())[len..] && input.good)
    {
      if id == HEADER_FIELD_KEY_NAME {
        if len > KEY_NAME_MAX_LEN {
          return Malformed;
        }
        if len == 0 {
          keyName := "";
        } else {
          var bytes := input.Take(len);
          if |bytes| != len {
            return Malformed;
          }
          keyName := FromBytes(bytes);
        }
        assert keyName == FromBytes(old(input.Rest())[..len]);
        var valid := ValidateKeyName(keyName);
        if !valid {
          keyName := "";
          return Malformed;
        }
      } else if id % 2 == 1 {
        return Incompatible;
      } else {
        if len > MAX_FIELD_LEN {
          return Malformed;
        }
        var ignored := input.Take(len);
        if |ignored| != len {
          return Malformed;
        }
      }
      return Ok;
    }

    method LoadHeader(input: Stream) returns (outcome: Outcome)
      requires input.Valid() && input.good
      modifies this`keyName, input
      ensures input.Valid()
      ensures var p := ParseSection(Header(old(keyName)), old(input.Rest()));
              && outcome == p.outcome && Header(keyName) == p.value
              && (outcome.Ok? ==> input.Rest() == p.rest && input.good)
    {
      hide ParseSection, Accept, Word;
      while true
        invariant input.Valid() && input.good
        invariant ParseSection(Header(old(keyName)), old(input.Rest())) == ParseSection(Header(keyName), input.Rest())
        decreases |input.Rest()|
      {
        ghost var start := input.Rest();
        Unfold(Header(keyName), start);
        Words(start);
        var ok, fieldId := input.ReadBe32();
        if !ok {
          return Malformed;
        }
        if fieldId == FIELD_END {
          return Ok;
        }
        var fieldLen;
        ok, fieldLen := input.ReadBe32();
        if !ok {
          return Malformed;
        }
        assert input.Rest() == start[8..];
        outcome := LoadHeaderField(fieldId, fieldLen, input);
        if !outcome.Ok? {
          return;
        }
        assert input.Rest() == start[8 + fieldLen as int..];
      }
    }

    /** On failure, what was loaded before the failing part stays in the object. */
    method Load(input: Stream) returns (outcome: Outcome)
      requires Valid() && input.Valid() && input.good
      modifies this, input
      ensures Valid() && input.Valid()
      ensures var p := ParseKeyFile(old(input.Rest()), old(Contents()));
              outcome == p.outcome && Contents() == p.value
    {
      ghost var start := input.Rest();
      var preamble := input.Take(16);
      if |preamble| != 16 {
        return Malformed;
      }
      assert preamble[..12] == start[..12] && preamble[12..] == start[12..][..4];
      if preamble[..12] != MAGIC {
        return Malformed;
      }
      if LoadBe32(preamble[12..]) != FORMAT_VERSION {
        return Incompatible;
      }
      outcome := LoadHeader(input);
      if !outcome.Ok? {
        return;
      }
      ghost var body := input.Rest();
      var eof := input.AtEnd();
      while !eof
        invariant Valid() && input.Valid() && Header(keyName) == ParseSection(Header(old(keyName)), start[16..]).value
        invariant eof == (input.Rest() == []) && input.good == !eof
        invariant ParseEntries(body, old(entries)) == ParseEntries(input.Rest(), entries)
        decreases |input.Rest()|
      {
        var entry;
        outcome, entry := LoadEntry(input);
        if !outcome.Ok? {
          return;
        }
        Add(entry);
        eof := input.AtEnd();
      }
      return Ok;
    }

    // -------------------------------------------------------------- storing

    static method StoreEntryTo(e: Entry, out: Stream)
      requires out.Valid()
      modifies out
      ensures out.Valid() && out.data == old(out.data) + StoreEntry(e)
    {
      hide Be32;
      out.WriteBe32(KEY_FIELD_VERSION);
      out.WriteBe32(4);
      out.WriteBe32(e.version);
      out.WriteBe32(KEY_FIELD_AES_KEY);
      out.WriteBe32(AES_KEY_LEN);
      out.Write(e.aesKey);
      out.WriteBe32(KEY_FIELD_HMAC_KEY);
      out.WriteBe32(HMAC_KEY_LEN);
      out.Write(e.hmacKey);
      out.WriteBe32(FIELD_END);
    }

    /** Stores the entries in the order of the map: the greatest version first. */
    method StoreEntriesTo(out: Stream)
      requires out.Valid()
      modifies out
      ensures out.Valid() && out.data == old(out.data) + StoreEntries(entries, Descending(entries.Keys))
    {
      hide StoreEntry, Descending;
      var left := entries.Keys;
      while left != {}
        invariant out.Valid() && left <= entries.Keys
        invariant out.data + StoreEntries(entries, Descending(left))
               == old(out.data) + StoreEntries(entries, Descending(entries.Keys))
      {
        MaxExists(left);
        var v: Word32 :| v in left && forall w :: w in left ==> w <= v;
        DescendingFrom(left, v);
        StoreEntryTo(entries[v], out);
        left := left - {v};
      }
    }

    method StoreHeaderTo(out: Stream)
      requires out.Valid()
      modifies out
      ensures out.Valid() && out.data == old(out.data) + StoreHeader(keyName)
    {
      hide Be32;
      ghost var base := out.data;
      out.Write(MAGIC);
      out.WriteBe32(FORMAT_VERSION);
      assert out.data == base + (MAGIC + Be32(FORMAT_VERSION));
      if keyName != "" {
        out.WriteBe32(HEADER_FIELD_KEY_NAME);
        out.WriteBe32(|keyName| % 0x1_0000_0000);
        out.Write(ToBytes(keyName));
      }
      assert out.data == base + (MAGIC + Be32(FORMAT_VERSION)) + StoreName(keyName);
      out.WriteBe32(FIELD_END);
    }

    method Store(out: Stream)
      requires out.Valid()
      modifies out
      ensures out.Valid() && out.data == old(out.data) + StoreKeys(Contents())
    {
      hide StoreHeader, StoreEntries, Descending;
      StoreHeaderTo(out);
      StoreEntriesTo(out);
    }
  }
}
