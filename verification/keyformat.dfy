/** The key-file format: what its printer writes and what its parser makes of any bytes. */
module KeyFormat {
  import opened Basics
  import opened Bytes
  import opened Crypto

  datatype Entry = Entry(version: Word32, aesKey: AesKey, hmacKey: HmacKey)

  function Zeros(n: nat): (z: seq<Byte>)
    ensures |z| == n
  {
    seq(n, _ => 0)
  }

  /** A freshly constructed entry. */
  const EMPTY_ENTRY := Entry(0, Zeros(AES_KEY_LEN), Zeros(HMAC_KEY_LEN))

  datatype Outcome = Ok | Malformed | Incompatible

  // ------------------------------------------------------------- constants

  const FIELD_END: Word32 := 0
  const HEADER_FIELD_KEY_NAME: Word32 := 1
  const KEY_FIELD_VERSION: Word32 := 1
  const KEY_FIELD_AES_KEY: Word32 := 3
  const KEY_FIELD_HMAC_KEY: Word32 := 5
  const FORMAT_VERSION: Word32 := 2
  const MAX_FIELD_LEN := 0x10_0000
  const KEY_NAME_MAX_LEN := 128

  /** "\0GITCRYPTKEY" */
  const MAGIC: seq<Byte> := [0, 71, 73, 84, 67, 82, 89, 80, 84, 75, 69, 89]

  // ------------------------------------------------------------- key names

  predicate KeyNameChar(c: char) {
    '0' <= c <= '9' || 'A' <= c <= 'Z' || 'a' <= c <= 'z' || c == '-' || c == '_'
  }

  predicate ValidKeyName(name: string) {
    && name != "" && name != "default" && |name| <= KEY_NAME_MAX_LEN
    && forall c :: c in name ==> KeyNameChar(c)
  }

  /** The name kept in a key file that is given a C string, and what it reports its name to be. */
  function KeptName(name: Option<Text>): Text {
    if name.Some? then CStr(name.value) else ""
  }

  function ReportedName(name: Text): Option<string> {
    if name == "" then None else Some(CStr(name))
  }

  /** A name given to a key file comes back exactly if it is not empty and is all of a C string. */
  lemma NameComesBack(name: Option<Text>)
    ensures ReportedName(KeptName(name)) == name <==> name.Some? ==> name.value != "" && '\0' !in name.value
  {
    if name.Some? && name.value != "" && name.value[0] != '\0' {
      assert CStr(name.value) != "";
    }
  }

  // ---------------------------------------------------- fields and sections

  /** The printed form of one field: a tag, a length (cut to 32 bits), and the contents. */
  function Field(id: Word32, payload: seq<Byte>): seq<Byte> {
    Be32(id) + Be32(|payload| % 0x1_0000_0000) + payload
  }

  function Word(s: seq<Byte>): Word32
    requires |s| >= 4
  {
    LoadBe32(s[..4])
  }

  /** What a run of fields fills in: the header has a key name, an entry has its three members. */
  datatype Section = Header(name: Text) | Body(entry: Entry) {
    predicate Known(id: Word32) {
      match this
      case Header(_) => id == HEADER_FIELD_KEY_NAME
      case Body(_) => id in {KEY_FIELD_VERSION, KEY_FIELD_AES_KEY, KEY_FIELD_HMAC_KEY}
    }
  }

  /** How the field (id, len) with the remaining bytes `rest` behind it changes a section. */
  function Accept(section: Section, id: Word32, len: Word32, rest: seq<Byte>): (Outcome, Section)
    requires id != FIELD_END
  {
    if section.Known(id) then
      match section
      case Header(_) =>
        if len > KEY_NAME_MAX_LEN || |rest| < len then (Malformed, section)
        else
          if ValidKeyName(CStr(FromBytes(rest[..len]))) then (Ok, Header(FromBytes(rest[..len])))
          else (Malformed, Header(""))
      case Body(e) =>
        var expected := if id == KEY_FIELD_VERSION then 4 else if id == KEY_FIELD_AES_KEY then 32 else 64;
        if len != expected || |rest| < len then
          (Malformed, section)
        else if id == KEY_FIELD_VERSION then (Ok, Body(e.(version := Word(rest))))
        else if id == KEY_FIELD_AES_KEY then (Ok, Body(e.(aesKey := rest[..32])))
        else (Ok, Body(e.(hmacKey := rest[..64])))
    else if id % 2 == 1 then (Incompatible, section)
    else if len > MAX_FIELD_LEN || |rest| < len then (Malformed, section)
    else (Ok, section)
  }

  datatype Parsed<+T> = Parsed(outcome: Outcome, value: T, rest: seq<Byte>)

  /** Reads fields up to and including the end marker. */
  function ParseSection(section: Section, s: seq<Byte>): (p: Parsed<Section>)
    ensures p.outcome.Ok? ==> |p.rest| < |s| && s[|s| - |p.rest|..] == p.rest
    ensures p.value.Header? == section.Header?
    decreases |s|
  {
    if |s| < 4 then Parsed(Malformed, section, s)
    else if Word(s) == FIELD_END then Parsed(Ok, section, s[4..])
    else if |s| < 8 then Parsed(Malformed, section, s)
    else
      var len := Word(s[4..]);
      var (outcome, next) := Accept(section, Word(s), len, s[8..]);
      if outcome.Ok? then ParseSection(next, s[8 + len..]) else Parsed(outcome, next, s)
  }

  /** Reads entries until there are no more bytes; an entry replaces an earlier one of its version. */
  function ParseEntries(s: seq<Byte>, entries: map<Word32, Entry>): Parsed<map<Word32, Entry>>
    decreases |s|
  {
    if s == [] then Parsed(Ok, entries, [])
    else
      var p := ParseSection(Body(EMPTY_ENTRY), s);
      if p.outcome.Ok? then ParseEntries(p.rest, entries[p.value.entry.version := p.value.entry])
      else Parsed(p.outcome, entries, s)
  }

  /** The contents of a key file: its name ("" for the default key) and its entries by version. */
  datatype Keys = Keys(name: Text, entries: map<Word32, Entry>)

  const NO_KEYS := Keys("", map[])

  /** Loading the bytes s on top of the given contents. */
  function ParseKeyFile(s: seq<Byte>, keys: Keys): Parsed<Keys> {
    if |s| < 16 || s[..12] != MAGIC then Parsed(Malformed, keys, s)
    else if Word(s[12..]) != FORMAT_VERSION then Parsed(Incompatible, keys, s)
    else
      var h := ParseSection(Header(keys.name), s[16..]);
      if !h.outcome.Ok? then Parsed(h.outcome, Keys(h.value.name, keys.entries), s)
      else
        var b := ParseEntries(h.rest, keys.entries);
        Parsed(b.outcome, Keys(h.value.name, b.value), b.rest)
  }

  /** Loading into a fresh object, as every caller does. */
  function LoadKeys(s: seq<Byte>): Parsed<Keys> {
    ParseKeyFile(s, NO_KEYS)
  }

  // --------------------------------------------------------------- printing

  function StoreEntry(e: Entry): (s: seq<Byte>)
    ensures |s| == 128
  {
    Field(KEY_FIELD_VERSION, Be32(e.version)) + Field(KEY_FIELD_AES_KEY, e.aesKey)
    + Field(KEY_FIELD_HMAC_KEY, e.hmacKey) + Be32(FIELD_END)
  }

  ghost predicate IsMax(v: Word32, versions: set<Word32>) {
    v in versions && forall w :: w in versions ==> w <= v
  }

  lemma {:induction false} MaxExists(versions: set<Word32>)
    requires versions != {}
    ensures exists v :: IsMax(v, versions)
  {
    var v :| v in versions;
    var others := versions - {v};
    assert versions == others + {v};
    if others == {} {
      assert IsMax(v, versions);
    } else {
      MaxExists(others);
      var m :| IsMax(m, others);
      var top := if m < v then v else m;
      assert IsMax(top, versions);
    }
  }

  ghost function Max(versions: set<Word32>): (v: Word32)
    requires versions != {}
    ensures IsMax(v, versions)
  {
    MaxExists(versions);
    var v :| IsMax(v, versions);
    v
  }

  /** The versions in the order the map keeps them: greatest first. */
  ghost function Descending(versions: set<Word32>): (vs: seq<Word32>)
    ensures |vs| == |versions| && forall v :: v in vs ==> v in versions
  {
    if versions == {} then [] else [Max(versions)] + Descending(versions - {Max(versions)})
  }

  ghost function StoreEntries(entries: map<Word32, Entry>, versions: seq<Word32>): (s: seq<Byte>)
    requires forall v :: v in versions ==> v in entries
    ensures |s| == 128 * |versions|
  {
    if versions == [] then [] else StoreEntry(entries[versions[0]]) + StoreEntries(entries, versions[1..])
  }

  function StoreName(name: Text): seq<Byte> {
    if name == "" then [] else Field(HEADER_FIELD_KEY_NAME, ToBytes(name))
  }

  function StoreHeader(name: Text): seq<Byte> {
    MAGIC + Be32(FORMAT_VERSION) + (StoreName(name) + Be32(FIELD_END))
  }

  ghost function StoreKeys(keys: Keys): seq<Byte> {
    StoreHeader(keys.name) + StoreEntries(keys.entries, Descending(keys.entries.Keys))
  }

  /** Every entry is filed under its own version. */
  ghost predicate Filed(entries: map<Word32, Entry>) {
    forall v :: v in entries ==> entries[v].version == v
  }

  /** A name that the parser accepts; only the part before a NUL has to be valid. */
  ghost predicate LoadableName(name: Text) {
    name == "" || (|name| <= KEY_NAME_MAX_LEN && ValidKeyName(CStr(name)))
  }
}
