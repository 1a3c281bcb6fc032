/** Sharing a key through GPG-encrypted copies of it in the repository. */
module Sharing {
  import opened Basics
  import opened Bytes
  import opened Crypto
  import opened Streams
  import opened KeyFormat
  import opened KeyTheorems
  import opened KeyFiles
  import opened FilterCommands

  /** What GPG made of some contents: only the recipient's secret key opens it. */
  datatype GpgFile = GpgFile(recipient: string, contents: seq<Byte>)

  /** keys/DIR/VERSION/FINGERPRINT.gpg in the repository. */
  datatype Path = Path(dir: string, version: Word32, fingerprint: string)

  function DirName(key: KeyRef): string {
    if key.Some? then key.value else "default"
  }

  function RefOfDir(dir: string): KeyRef {
    if dir == "default" then None else Some(dir)
  }

  lemma KeyNameIsText(name: string)
    requires ValidKeyName(name)
    ensures (forall c :: c in name ==> c as int < 0x100) && CStr(name) == name && LoadableName(name)
  {
    forall c | c in name
      ensures c as int < 0x100 && c != '\0'
    {
      assert KeyNameChar(c);
    }
  }

  /** The name that a key file of this key carries. */
  function FileNameOf(key: KeyRef): Text
    requires ArgumentRef(key)
  {
    if key.Some? then key.value else ""
  }

  /** A key with a single version. */
  function OneEntry(key: KeyRef, entry: Entry): Keys
    requires ArgumentRef(key)
  {
    Keys(FileNameOf(key), map[entry.version := entry])
  }

  /** The one-entry key file that is encrypted for every collaborator. */
  ghost function SharedFile(key: KeyRef, entry: Entry): seq<Byte>
    requires ArgumentRef(key)
  {
    StoreKeys(OneEntry(key, entry))
  }

  // --------------------------------------------------------- encrypting

  /** The repository's files after sharing with the given recipients; existing files are left alone. */
  ghost function ShareAll(files: map<Path, GpgFile>, key: KeyRef, entry: Entry, recipients: seq<string>)
    : map<Path, GpgFile>
    requires ArgumentRef(key)
    decreases |recipients|
  {
    if recipients == [] then files
    else
      var path := Path(DirName(key), entry.version, recipients[0]);
      var next := if path in files then files else files[path := GpgFile(recipients[0], SharedFile(key, entry))];
      ShareAll(next, key, entry, recipients[1..])
  }

  class KeysDirectory {
    var files: map<Path, GpgFile>

    constructor (files: map<Path, GpgFile>)
      ensures this.files == files
    {
      this.files := files;
    }
  }

  /** Serializes the key into a key file of its own. */
  method OneEntryFile(key: KeyRef, entry: Entry) returns (data: seq<Byte>)
    requires ArgumentRef(key)
    ensures data == SharedFile(key, entry)
  {
    var keyFile := new KeyFile();
    if key.Some? {
      keyFile.SetKeyName(Some(key.value));
    }
    keyFile.Add(entry);
    assert keyFile.Contents() == Keys(FileNameOf(key), map[entry.version := entry]);
    var out := new Stream([]);
    keyFile.Store(out);
    data := out.data;
    assert data == [] + SharedFile(key, entry);
  }

  /** Encrypts the key for every recipient that does not have it yet; GPG may fail for any of them. */
  method EncryptRepoKey(key: KeyRef, entry: Entry, recipients: seq<string>, dir: KeysDirectory)
    returns (ok: bool, newFiles: seq<Path>)
    requires ArgumentRef(key)
    modifies dir
    ensures ok ==> dir.files == ShareAll(old(dir.files), key, entry, recipients)
    ensures exists n :: 0 <= n <= |recipients| && dir.files == ShareAll(old(dir.files), key, entry, recipients[..n])
    ensures forall p :: p in newFiles <==> p in dir.files && p !in old(dir.files)
  {
    hide SharedFile, ArgumentRef;
    var data := OneEntryFile(key, entry);
    newFiles := [];
    ghost var before := dir.files;
    assert recipients[..0] == [];
    var i := 0;
    while i < |recipients|
      invariant 0 <= i <= |recipients| && dir.files == ShareAll(before, key, entry, recipients[..i])
      invariant forall p :: p in before ==> p in dir.files
      invariant forall p :: p in newFiles <==> p in dir.files && p !in before
    {
      var path := Path(DirName(key), entry.version, recipients[i]);
      ShareOneMore(before, key, entry, recipients, i);
      if path !in dir.files {
        var encrypted: bool := *;
        if !encrypted {
          return false, newFiles;
        }
        dir.files := dir.files[path := GpgFile(recipients[i], data)];
        newFiles := newFiles + [path];
      }
      i := i + 1;
    }
    assert recipients[..i] == recipients;
    ok := true;
  }

  lemma {:induction false} ShareOneMore(files: map<Path, GpgFile>, key: KeyRef, entry: Entry, recipients: seq<string>,
                                        i: nat)
    requires ArgumentRef(key) && i < |recipients|
    ensures var before := ShareAll(files, key, entry, recipients[..i]);
            var path := Path(DirName(key), entry.version, recipients[i]);
            ShareAll(files, key, entry, recipients[..i + 1])
            == (if path in before then before else before[path := GpgFile(recipients[i], SharedFile(key, entry))])
    decreases i
  {
    hide SharedFile;
    var path := Path(DirName(key), entry.version, recipients[0]);
    var next := if path in files then files else files[path := GpgFile(recipients[0], SharedFile(key, entry))];
    if i == 0 {
      assert recipients[..1] == [recipients[0]] && recipients[..0] == [];
      assert ShareAll(next, key, entry, []) == next;
    } else {
      assert recipients[..i][1..] == recipients[1..][..i - 1];
      assert recipients[..i + 1][1..] == recipients[1..][..i];
      ShareOneMore(next, key, entry, recipients[1..], i - 1);
    }
  }

  // --------------------------------------------------------- decrypting

  datatype Found =
    | Recovered(keys: Keys)      // decrypted and checked
    | NotShared                  // no file for any of the secret keys
    | GpgFailed                  // there were such files, but GPG could open none
    | BadKeyFile(outcome: Outcome)
    | WrongVersion
    | WrongName

  /** What the contents of a decrypted file lead to. */
  function CheckContents(contents: seq<Byte>, key: KeyRef, version: Word32): Found
    requires ValidRef(key)
  {
    var p := LoadKeys(contents);
    if !p.outcome.Ok? then BadKeyFile(p.outcome)
    else if version !in p.value.entries then WrongVersion
    else if key != ReportedName(p.value.name) then WrongName
    else Recovered(Keys(FileNameOf(key), map[p.value.entries[version].version := p.value.entries[version]]))
  }

  /** Tries the secret keys in order: the first file that GPG opens decides. */
  function Decrypt(files: map<Path, GpgFile>, usable: set<string>, key: KeyRef, version: Word32,
                   secretKeys: seq<string>, failed: bool): Found
    requires ValidRef(key)
    decreases |secretKeys|
  {
    if secretKeys == [] then (if failed then GpgFailed else NotShared)
    else
      var path := Path(DirName(key), version, secretKeys[0]);
      if path !in files then Decrypt(files, usable, key, version, secretKeys[1..], failed)
      else if files[path].recipient !in usable then Decrypt(files, usable, key, version, secretKeys[1..], true)
      else CheckContents(files[path].contents, key, version)
  }

  /** Loads what GPG gave and takes the wanted version from it. */
  method TakeVersion(contents: seq<Byte>, key: KeyRef, version: Word32) returns (found: Found)
    requires ValidRef(key)
    ensures found == CheckContents(contents, key, version)
  {
    hide ParseKeyFile;
    var keyFile := new KeyFile();
    var input := new Stream(contents);
    var outcome := keyFile.Load(input);
    if !outcome.Ok? {
      return BadKeyFile(outcome);
    }
    var entry := keyFile.Get(version);
    if entry.None? {
      return WrongVersion;
    }
    var name := keyFile.GetKeyName();
    if key != name {
      return WrongName;
    }
    var result := new KeyFile();
    if key.Some? {
      KeyNameIsText(key.value);
      result.SetKeyName(Some(key.value));
    }
    result.Add(entry.value);
    found := Recovered(Keys(result.keyName, result.entries));
  }

  method DecryptRepoKey(key: KeyRef, version: Word32, secretKeys: seq<string>, usable: set<string>, dir: KeysDirectory)
    returns (found: Found)
    requires ValidRef(key)
    ensures found == Decrypt(dir.files, usable, key, version, secretKeys, false)
  {
    hide CheckContents;
    var gpgError := false;
    var i := 0;
    while i < |secretKeys|
      invariant 0 <= i <= |secretKeys|
      invariant Decrypt(dir.files, usable, key, version, secretKeys, false)
             == Decrypt(dir.files, usable, key, version, secretKeys[i..], gpgError)
    {
      var path := Path(DirName(key), version, secretKeys[i]);
      assert secretKeys[i..][1..] == secretKeys[i + 1..];
      if path in dir.files {
        if dir.files[path].recipient in usable {
          found := TakeVersion(dir.files[path].contents, key, version);
          return;
        }
        gpgError := true;
      }
      i := i + 1;
    }
    found := if gpgError then GpgFailed else NotShared;
  }

  /** All keys of the repository that can be recovered, or the first error that is not just a missing share. */
  datatype FoundAll = AllRecovered(keys: seq<Keys>) | FirstError(error: Found)

  function DecryptAll(files: map<Path, GpgFile>, usable: set<string>, version: Word32, secretKeys: seq<string>,
                      dirents: seq<string>): FoundAll
    decreases |dirents|
  {
    if dirents == [] then AllRecovered([])
    else if !ValidRef(RefOfDir(dirents[0])) then DecryptAll(files, usable, version, secretKeys, dirents[1..])
    else
      var found := Decrypt(files, usable, RefOfDir(dirents[0]), version, secretKeys, false);
      if !found.Recovered? && !found.NotShared? then FirstError(found)
      else
        match DecryptAll(files, usable, version, secretKeys, dirents[1..])
        case FirstError(error) => FirstError(error)
        case AllRecovered(keys) => AllRecovered((if found.Recovered? then [found.keys] else []) + keys)
  }

  /** Goes through the directories; names that cannot belong to a key are skipped. */
  method DecryptRepoKeys(version: Word32, secretKeys: seq<string>, usable: set<string>, dirents: seq<string>,
                         dir: KeysDirectory)
    returns (keyFiles: seq<Keys>, error: Option<Found>)
    requires forall d :: d in dirents ==> '\0' !in d
    ensures var all := DecryptAll(dir.files, usable, version, secretKeys, dirents);
            if error.None? then all == AllRecovered(keyFiles) else all == FirstError(error.value)
  {
    hide Decrypt, DecryptAll, Prepend;
    keyFiles, error := [], None;
    ghost var goal := DecryptAll(dir.files, usable, version, secretKeys, dirents);
    assert dirents[0..] == dirents;
    PrependNothing(goal);
    var i := 0;
    while i < |dirents|
      invariant 0 <= i <= |dirents| && error.None?
      invariant goal == Prepend(keyFiles, DecryptAll(dir.files, usable, version, secretKeys, dirents[i..]))
    {
      var keyName: KeyRef := None;
      ghost var rest := DecryptAll(dir.files, usable, version, secretKeys, dirents[i + 1..]);
      DecryptOneMore(dir.files, usable, version, secretKeys, dirents, i);
      var skip := false;
      if dirents[i] != "default" {
        var valid := ValidateKeyName(dirents[i]);
        skip := !valid;
        keyName := Some(dirents[i]);
      }
      if !skip {
        var found := DecryptRepoKey(keyName, version, secretKeys, usable, dir);
        if found.Recovered? {
          PrependTwice(keyFiles, [found.keys], rest);
          keyFiles := keyFiles + [found.keys];
        } else if !found.NotShared? {
          PrependError(keyFiles, found);
          return keyFiles, Some(found);
        }
      }
      i := i + 1;
    }
    assert dirents[i..] == [];
    NoneLeft(dir.files, usable, version, secretKeys, keyFiles);
  }

  lemma NoneLeft(files: map<Path, GpgFile>, usable: set<string>, version: Word32, secretKeys: seq<string>,
                 keys: seq<Keys>)
    ensures Prepend(keys, DecryptAll(files, usable, version, secretKeys, [])) == AllRecovered(keys)
  {
    assert keys + [] == keys;
  }

  lemma PrependNothing(all: FoundAll)
    ensures Prepend([], all) == all
  {
    if all.AllRecovered? {
      assert [] + all.keys == all.keys;
    }
  }

  lemma PrependTwice(a: seq<Keys>, b: seq<Keys>, all: FoundAll)
    ensures Prepend(a, Prepend(b, all)) == Prepend(a + b, all)
  {
    if all.AllRecovered? {
      Assoc(a, b, all.keys);
    }
  }

  lemma PrependError(keys: seq<Keys>, error: Found)
    ensures Prepend(keys, FirstError(error)) == FirstError(error)
  {
  }

  lemma DecryptOneMore(files: map<Path, GpgFile>, usable: set<string>, version: Word32, secretKeys: seq<string>,
                       dirents: seq<string>, i: nat)
    requires i < |dirents|
    ensures var key := RefOfDir(dirents[i]);
            var rest := DecryptAll(files, usable, version, secretKeys, dirents[i + 1..]);
            DecryptAll(files, usable, version, secretKeys, dirents[i..])
            == if !ValidRef(key) then rest
               else var found := Decrypt(files, usable, key, version, secretKeys, false);
                 if found.Recovered? then Prepend([found.keys], rest)
                 else if found.NotShared? then rest else FirstError(found)
  {
    hide Decrypt, ValidRef;
    assert dirents[i..][1..] == dirents[i + 1..];
  }

  function Prepend(keys: seq<Keys>, all: FoundAll): FoundAll {
    match all
    case AllRecovered(more) => AllRecovered(keys + more)
    case FirstError(error) => all
  }

  ghost predicate Present(files: map<Path, GpgFile>, dir: string, version: Word32, secretKeys: seq<string>) {
    exists s :: s in secretKeys && Path(dir, version, s) in files
  }

  // ------------------------------------------- what recovering demands of any files

  /** These bytes are a key file with exactly this name, and this is its entry of the version. */
  ghost predicate Genuine(contents: seq<Byte>, key: KeyRef, version: Word32, entry: Entry) {
    var p := LoadKeys(contents);
    && p.outcome == Ok
    && (key.None? <==> p.value.name == "") && (key.Some? ==> CStr(p.value.name) == key.value)
    && version in p.value.entries && p.value.entries[version] == entry
  }

  /** The three checks: the file loads, holds the version, and carries the name; only that version is taken. */
  lemma CheckedExactly(contents: seq<Byte>, key: KeyRef, version: Word32)
    requires ValidRef(key)
    ensures var found, p := CheckContents(contents, key, version), LoadKeys(contents);
            && (p.outcome != Ok ==> found == BadKeyFile(p.outcome))
            && (p.outcome == Ok && version !in p.value.entries ==> found == WrongVersion)
            && (p.outcome == Ok && version in p.value.entries ==>
                  var entry := p.value.entries[version];
                  && entry.version == version
                  && found == if Genuine(contents, key, version, entry)
                              then Recovered(Keys(if key.Some? then key.value else "", map[version := entry]))
                              else WrongName)
  {
    hide ParseKeyFile;
    LoadedIsStorable(contents);
  }

  /** A share of one key in the place of another is refused, and so is one that lacks the version. */
  lemma MisplacedShare(key: KeyRef, other: KeyRef, entry: Entry, version: Word32)
    requires ValidRef(key) && ValidRef(other)
    ensures other != key ==> CheckContents(SharedFile(other, entry), key, entry.version) == WrongName
    ensures version != entry.version ==> CheckContents(SharedFile(other, entry), key, version) == WrongVersion
  {
    hide StoreKeys, LoadKeys;
    if other.Some? {
      KeyNameIsText(other.value);
    }
    StoreThenLoad(OneEntry(other, entry));
  }

  /** GPG can open the share for this secret key. */
  ghost predicate Opens(files: map<Path, GpgFile>, usable: set<string>, key: KeyRef, version: Word32, s: string) {
    var path := Path(DirName(key), version, s);
    path in files && files[path].recipient in usable
  }

  /** The first secret key for which there is a share that GPG opens decides. */
  lemma {:induction false} FirstOpenDecides(files: map<Path, GpgFile>, usable: set<string>, key: KeyRef,
                                            version: Word32, secretKeys: seq<string>, n: nat, failed: bool)
    requires ValidRef(key) && n < |secretKeys| && Opens(files, usable, key, version, secretKeys[n])
    requires forall i :: 0 <= i < n ==> !Opens(files, usable, key, version, secretKeys[i])
    ensures var path := Path(DirName(key), version, secretKeys[n]);
            Decrypt(files, usable, key, version, secretKeys, failed)
            == CheckContents(files[path].contents, key, version)
    decreases n
  {
    hide CheckContents;
    if n > 0 {
      assert !Opens(files, usable, key, version, secretKeys[0]);
      FirstOpenDecides(files, usable, key, version, secretKeys[1..], n - 1, failed);
      FirstOpenDecides(files, usable, key, version, secretKeys[1..], n - 1, true);
    }
  }

  /** Without one, GPG's error is reported exactly if there is any share, or there was an error before. */
  lemma {:induction false} NoneOpens(files: map<Path, GpgFile>, usable: set<string>, key: KeyRef, version: Word32,
                                     secretKeys: seq<string>, failed: bool)
    requires ValidRef(key) && forall s :: s in secretKeys ==> !Opens(files, usable, key, version, s)
    ensures Decrypt(files, usable, key, version, secretKeys, failed)
         == if failed || Present(files, DirName(key), version, secretKeys) then GpgFailed else NotShared
    decreases |secretKeys|
  {
    hide CheckContents;
    if secretKeys != [] {
      var first, others := secretKeys[0], secretKeys[1..];
      var here := Path(DirName(key), version, first) in files;
      assert forall s :: s in secretKeys <==> s == first || s in others;
      assert !Opens(files, usable, key, version, first);
      assert Present(files, DirName(key), version, secretKeys)
        <==> here || Present(files, DirName(key), version, others);
      NoneOpens(files, usable, key, version, others, failed || here);
    }
  }

  /**
   Whatever is in the repository, a key is only recovered from a share that one of the secret keys
   opens, that loads, and that carries its name and holds the version; what is recovered is that entry.
   */
  lemma {:induction false} RecoveredIsGenuine(files: map<Path, GpgFile>, usable: set<string>, key: KeyRef,
                                              version: Word32, secretKeys: seq<string>, failed: bool)
    requires ValidRef(key)
    ensures var found := Decrypt(files, usable, key, version, secretKeys, failed);
            found.Recovered? ==>
              exists s, entry ::
                && s in secretKeys && Opens(files, usable, key, version, s)
                && Genuine(files[Path(DirName(key), version, s)].contents, key, version, entry)
                && found == Recovered(Keys(if key.Some? then key.value else "", map[version := entry]))
    decreases |secretKeys|
  {
    hide CheckContents, Genuine;
    if secretKeys != [] {
      var path := Path(DirName(key), version, secretKeys[0]);
      if path in files && files[path].recipient in usable {
        var contents := files[path].contents;
        CheckedExactly(contents, key, version);
        assert Opens(files, usable, key, version, secretKeys[0]);
        if CheckContents(contents, key, version).Recovered? {
          var entry := LoadKeys(contents).value.entries[version];
          assert secretKeys[0] in secretKeys && Genuine(contents, key, version, entry);
        }
      } else {
        var others, before := secretKeys[1..], failed || path in files;
        assert Decrypt(files, usable, key, version, secretKeys, failed)
            == Decrypt(files, usable, key, version, others, before);
        RecoveredIsGenuine(files, usable, key, version, others, before);
        assert forall s :: s in others ==> s in secretKeys;
      }
    }
  }

  /** Looking for the key of this directory is an error. */
  predicate Fails(files: map<Path, GpgFile>, usable: set<string>, version: Word32, secretKeys: seq<string>, d: string) {
    ValidRef(RefOfDir(d)) &&
    var found := Decrypt(files, usable, RefOfDir(d), version, secretKeys, false);
    !found.Recovered? && !found.NotShared?
  }

  /** Whatever is in the repository: the first directory that is an error decides, if there is one. */
  lemma {:induction false} FirstErrorDecides(files: map<Path, GpgFile>, usable: set<string>, version: Word32,
                                             secretKeys: seq<string>, dirents: seq<string>, n: nat)
    requires n < |dirents| && Fails(files, usable, version, secretKeys, dirents[n])
    requires forall i :: 0 <= i < n ==> !Fails(files, usable, version, secretKeys, dirents[i])
    ensures DecryptAll(files, usable, version, secretKeys, dirents)
         == FirstError(Decrypt(files, usable, RefOfDir(dirents[n]), version, secretKeys, false))
    decreases n
  {
    hide Decrypt;
    if n > 0 {
      assert !Fails(files, usable, version, secretKeys, dirents[0]);
      FirstErrorDecides(files, usable, version, secretKeys, dirents[1..], n - 1);
    }
  }

  /** The key is recovered from one of these directories. */
  ghost predicate RecoveredIn(files: map<Path, GpgFile>, usable: set<string>, version: Word32, secretKeys: seq<string>,
                              dirents: seq<string>, k: Keys)
  {
    exists d :: d in dirents && ValidRef(RefOfDir(d))
                && Decrypt(files, usable, RefOfDir(d), version, secretKeys, false) == Recovered(k)
  }

  /** Without an error, the keys recovered are exactly those of all the directories. */
  lemma {:induction false} AllAreRecovered(files: map<Path, GpgFile>, usable: set<string>, version: Word32,
                                           secretKeys: seq<string>, dirents: seq<string>, k: Keys)
    requires forall d :: d in dirents ==> !Fails(files, usable, version, secretKeys, d)
    ensures var all := DecryptAll(files, usable, version, secretKeys, dirents);
            all.AllRecovered? && (k in all.keys <==> RecoveredIn(files, usable, version, secretKeys, dirents, k))
    decreases |dirents|
  {
    hide Decrypt;
    if dirents != [] {
      var first, others := dirents[0], dirents[1..];
      assert forall d :: d in dirents <==> d == first || d in others;
      AllAreRecovered(files, usable, version, secretKeys, others, k);
      assert !Fails(files, usable, version, secretKeys, first);
    }
  }

  // ------------------------------------------------- what sharing guarantees

  /** Every file holds the one-entry key file of its directory and version, encrypted for its own name. */
  ghost predicate WellShared(files: map<Path, GpgFile>, master: map<(string, Word32), Entry>) {
    forall p :: p in files ==> WellSharedAt(p, files[p], master)
  }

  ghost predicate WellSharedAt(p: Path, file: GpgFile, master: map<(string, Word32), Entry>) {
    && ValidRef(RefOfDir(p.dir))
    && (p.dir, p.version) in master && master[(p.dir, p.version)].version == p.version
    && file == GpgFile(p.fingerprint, SharedFile(RefOfDir(p.dir), master[(p.dir, p.version)]))
  }

  /**
   Sharing reaches every recipient, adds the key file of the name it was given, in the directory of
   that name ("default" if there is none) and nowhere else, and leaves the files that were there alone.
   */
  lemma {:induction false} ShareAdds(files: map<Path, GpgFile>, key: KeyRef, entry: Entry, recipients: seq<string>)
    requires ArgumentRef(key)
    ensures var shared, dir := ShareAll(files, key, entry, recipients), if key.Some? then key.value else "default";
            && (forall p :: p in files ==> p in shared && shared[p] == files[p])
            && (forall r :: r in recipients ==> Path(dir, entry.version, r) in shared)
            && (forall p :: p in shared && p !in files ==>
                  && p.dir == dir && p.version == entry.version && p.fingerprint in recipients
                  && shared[p] == GpgFile(p.fingerprint, SharedFile(key, entry)))
    decreases |recipients|
  {
    hide SharedFile, ArgumentRef;
    if recipients != [] {
      var path := Path(DirName(key), entry.version, recipients[0]);
      var next := if path in files then files else files[path := GpgFile(recipients[0], SharedFile(key, entry))];
      ShareAdds(next, key, entry, recipients[1..]);
      assert forall r :: r in recipients <==> r == recipients[0] || r in recipients[1..];
    }
  }

  /**
   The invariant survives sharing exactly if the name is a valid one, or if nothing is added: under
   any other name the file goes where no key belongs or, for the name "default", holds the wrong name.
   */
  lemma ShareKeeps(files: map<Path, GpgFile>, master: map<(string, Word32), Entry>, key: KeyRef, entry: Entry,
                   recipients: seq<string>)
    requires WellShared(files, master) && ArgumentRef(key)
    requires var k := (DirName(key), entry.version); k in master && master[k] == entry
    ensures var shared := ShareAll(files, key, entry, recipients);
            WellShared(shared, master) <==> ValidRef(key) || shared == files
  {
    hide SharedFile, ShareAll;
    var shared := ShareAll(files, key, entry, recipients);
    ShareAdds(files, key, entry, recipients);
    if ValidRef(key) {
      forall p | p in shared
        ensures WellSharedAt(p, shared[p], master)
      {
        assert p in files ==> WellSharedAt(p, files[p], master);
      }
    } else if shared != files {
      var p :| p in shared && p !in files;
      if key == Some("default") {
        MisnamedDiffers(entry);
      }
      assert !WellSharedAt(p, shared[p], master);
    }
  }

  /** The default key shared by its reserved name does not make the file it makes by no name. */
  lemma MisnamedDiffers(entry: Entry)
    ensures SharedFile(Some("default"), entry) != SharedFile(None, entry)
  {
    hide SharedFile, CheckContents;
    SharedFileLoads(Some("default"), entry);
    SharedFileLoads(None, entry);
  }

  /**
   Looked at for the key of its directory, what was serialized passes the checks, and only holds its
   entry, exactly if it was serialized under a valid name; the name "default" makes it malformed.
   */
  lemma SharedFileLoads(key: KeyRef, entry: Entry)
    requires ArgumentRef(key) && ValidRef(RefOfDir(DirName(key)))
    ensures CheckContents(SharedFile(key, entry), RefOfDir(DirName(key)), entry.version)
         == if ValidRef(key) then Recovered(OneEntry(key, entry)) else BadKeyFile(Malformed)
  {
    hide StoreKeys, LoadKeys;
    if key.Some? && ValidRef(key) {
      KeyNameIsText(key.value);
    }
    StoreThenLoad(OneEntry(key, entry));
    if !ValidRef(key) {
      assert CStr("default") == "default";
      UnloadableName(OneEntry(key, entry));
    }
  }

  ghost predicate Openable(files: map<Path, GpgFile>, usable: set<string>, dir: string, version: Word32,
                           secretKeys: seq<string>)
  {
    exists s :: s in secretKeys && Path(dir, version, s) in files && s in usable
  }

  /** One usable secret key among any number of failing ones is enough; GPG's error counts only if there is none. */
  lemma {:induction false} DecryptExact(files: map<Path, GpgFile>, master: map<(string, Word32), Entry>,
                                        usable: set<string>, key: KeyRef, version: Word32, secretKeys: seq<string>,
                                        failed: bool)
    requires WellShared(files, master) && ValidRef(key)
    ensures var found := Decrypt(files, usable, key, version, secretKeys, failed); var dir := DirName(key);
            if Openable(files, usable, dir, version, secretKeys) then
              (dir, version) in master
              && found == Recovered(Keys(FileNameOf(key), map[version := master[(dir, version)]]))
            else found == if failed || Present(files, dir, version, secretKeys) then GpgFailed else NotShared
    decreases |secretKeys|
  {
    hide CheckContents, SharedFile, FileNameOf;
    if secretKeys != [] {
      var dir, first, others := DirName(key), secretKeys[0], secretKeys[1..];
      var path := Path(dir, version, first);
      assert forall s :: s in secretKeys <==> s == first || s in others;
      assert RefOfDir(dir) == key;
      if path in files {
        assert WellSharedAt(path, files[path], master);
        if first in usable {
          SharedFileLoads(key, master[(dir, version)]);
        } else {
          DecryptExact(files, master, usable, key, version, others, true);
        }
      } else {
        DecryptExact(files, master, usable, key, version, others, failed);
      }
    }
  }

  /** A directory for which there are shares, but none that GPG can open. */
  ghost predicate Blocked(files: map<Path, GpgFile>, usable: set<string>, dir: string, version: Word32,
                          secretKeys: seq<string>)
  {
    ValidRef(RefOfDir(dir)) && Present(files, dir, version, secretKeys)
        && !Openable(files, usable, dir, version, secretKeys)
  }

  /** The key recovered from a directory. */
  ghost function RecoveredKeys(master: map<(string, Word32), Entry>, dir: string, version: Word32): Keys
    requires ValidRef(RefOfDir(dir)) && (dir, version) in master
  {
    Keys(FileNameOf(RefOfDir(dir)), map[version := master[(dir, version)]])
  }

  /** What ought to be recovered: the keys of the openable directories, in the order of the directories. */
  ghost function OpenableKeys(files: map<Path, GpgFile>, master: map<(string, Word32), Entry>, usable: set<string>,
                              version: Word32, secretKeys: seq<string>, dirents: seq<string>): seq<Keys>
  {
    if dirents == [] then []
    else
      var d, others := dirents[0], OpenableKeys(files, master, usable, version, secretKeys, dirents[1..]);
      if ValidRef(RefOfDir(d)) && Openable(files, usable, d, version, secretKeys) && (d, version) in master
      then [RecoveredKeys(master, d, version)] + others else others
  }

  ghost predicate SomeBlocked(files: map<Path, GpgFile>, usable: set<string>, version: Word32, secretKeys: seq<string>,
                              dirents: seq<string>)
  {
    exists d :: d in dirents && Blocked(files, usable, d, version, secretKeys)
  }

  /** One blocked directory stops everything; otherwise exactly the openable ones are recovered. */
  lemma {:induction false} DecryptAllExact(files: map<Path, GpgFile>, master: map<(string, Word32), Entry>,
                                           usable: set<string>, version: Word32, secretKeys: seq<string>,
                                           dirents: seq<string>)
    requires WellShared(files, master)
    ensures DecryptAll(files, usable, version, secretKeys, dirents)
         == if SomeBlocked(files, usable, version, secretKeys, dirents) then FirstError(GpgFailed)
            else AllRecovered(OpenableKeys(files, master, usable, version, secretKeys, dirents))
    decreases |dirents|
  {
    hide Decrypt, Openable, Present, RecoveredKeys, WellShared;
    if dirents != [] {
      var d, others := dirents[0], dirents[1..];
      assert SomeBlocked(files, usable, version, secretKeys, dirents)
        <==> Blocked(files, usable, d, version, secretKeys)
             || SomeBlocked(files, usable, version, secretKeys, others) by {
        assert forall e :: e in dirents <==> e == d || e in others;
      }
      hide SomeBlocked;
      DecryptAllExact(files, master, usable, version, secretKeys, others);
      if ValidRef(RefOfDir(d)) {
        DecryptExact(files, master, usable, RefOfDir(d), version, secretKeys, false);
        RecoveredIs(master, d, version);
      }
    }
  }

  lemma {:induction false} OpenableIsIn(files: map<Path, GpgFile>, master: map<(string, Word32), Entry>,
                                        usable: set<string>, version: Word32, secretKeys: seq<string>,
                                        dirents: seq<string>, d: string)
    requires d in dirents && ValidRef(RefOfDir(d)) && (d, version) in master
             && Openable(files, usable, d, version, secretKeys)
    ensures RecoveredKeys(master, d, version) in OpenableKeys(files, master, usable, version, secretKeys, dirents)
    decreases |dirents|
  {
    hide Openable, RecoveredKeys;
    if d != dirents[0] {
      OpenableIsIn(files, master, usable, version, secretKeys, dirents[1..], d);
    }
  }

  lemma RecoveredIs(master: map<(string, Word32), Entry>, dir: string, version: Word32)
    requires ValidRef(RefOfDir(dir))
    ensures DirName(RefOfDir(dir)) == dir
    ensures (dir, version) in master ==>
              RecoveredKeys(master, dir, version)
                  == Keys(FileNameOf(RefOfDir(dir)), map[version := master[(dir, version)]])
  {
  }

  // ------------------------------------------------------- end to end

  /** What is recovered can be loaded, whatever is in the repository. */
  lemma {:induction false} DecryptedLoadable(files: map<Path, GpgFile>, usable: set<string>, key: KeyRef,
                                             version: Word32, secretKeys: seq<string>, failed: bool)
    requires ValidRef(key)
    ensures var found := Decrypt(files, usable, key, version, secretKeys, failed);
            found.Recovered? ==> LoadableName(found.keys.name) && Filed(found.keys.entries)
    decreases |secretKeys|
  {
    hide LoadKeys;
    if secretKeys != [] {
      DecryptedLoadable(files, usable, key, version, secretKeys[1..], failed);
      DecryptedLoadable(files, usable, key, version, secretKeys[1..], true);
      if key.Some? {
        KeyNameIsText(key.value);
      }
    }
  }

  lemma {:induction false} RecoveredLoadable(files: map<Path, GpgFile>, usable: set<string>, version: Word32,
                                             secretKeys: seq<string>, dirents: seq<string>)
    ensures var all := DecryptAll(files, usable, version, secretKeys, dirents);
            all.AllRecovered? ==> forall k :: k in all.keys ==> LoadableName(k.name) && Filed(k.entries)
    decreases |dirents|
  {
    hide Decrypt, LoadableName, Filed;
    if dirents != [] {
      RecoveredLoadable(files, usable, version, secretKeys, dirents[1..]);
      if ValidRef(RefOfDir(dirents[0])) {
        DecryptedLoadable(files, usable, RefOfDir(dirents[0]), version, secretKeys, false);
      }
    }
  }

  /**
   After sharing version 0 of a key with recipients one of whom holds a usable secret key, unlocking
   recovers that name and entry exactly if the name is a valid one; then only a different key whose
   shares all fail can get in the way.
   */
  lemma SharingRoundTrip(files: map<Path, GpgFile>, master: map<(string, Word32), Entry>, key: KeyRef, entry: Entry,
                         recipients: seq<string>, usable: set<string>, secretKeys: seq<string>, dirents: seq<string>,
                         f: string)
    requires WellShared(files, master) && ArgumentRef(key) && key != Some("") && entry.version == 0
    requires (DirName(key), 0) in master && master[(DirName(key), 0)] == entry
    requires f in recipients && f in secretKeys && f in usable && DirName(key) in dirents
    ensures var shared := ShareAll(files, key, entry, recipients);
            var all := DecryptAll(shared, usable, 0, secretKeys, dirents);
            && (all.AllRecovered? ==> (OneEntry(key, entry) in all.keys <==> ValidRef(key)))
            && (all.FirstError? && ValidRef(key) ==>
                  all.error == GpgFailed
                  && exists d :: d in dirents && d != DirName(key) && Blocked(shared, usable, d, 0, secretKeys))
  {
    hide ShareAll, SharedFile, DecryptAll, OpenableKeys, RecoveredKeys, WellShared;
    var shared := ShareAll(files, key, entry, recipients);
    var dir := DirName(key);
    if ValidRef(key) {
      ShareKeeps(files, master, key, entry, recipients);
      ShareAdds(files, key, entry, recipients);
      assert Path(dir, 0, f) in shared;
      assert Openable(shared, usable, dir, 0, secretKeys);
      DecryptAllExact(shared, master, usable, 0, secretKeys, dirents);
      assert RefOfDir(dir) == key;
      OpenableIsIn(shared, master, usable, 0, secretKeys, dirents, dir);
      RecoveredIs(master, dir, 0);
    } else {
      RecoveredLoadable(shared, usable, 0, secretKeys, dirents);
    }
  }

  /**
   Sharing the default key by its reserved name, which is not checked for being a valid one: someone
   for whose secret key this has made the first share that GPG opens recovers no key at all. Sharing it
   again in the right way does not help, because the share that is there is left alone.
   */
  lemma MisnamedShareStays(files: map<Path, GpgFile>, entry: Entry, recipients: seq<string>, again: seq<string>,
                           usable: set<string>, secretKeys: seq<string>, n: nat, dirents: seq<string>)
    requires entry.version == 0 && n < |secretKeys| && secretKeys[n] in recipients && secretKeys[n] in usable
    requires Path("default", 0, secretKeys[n]) !in files && "default" in dirents
    ensures var shared := ShareAll(files, Some("default"), entry, recipients);
            var later := ShareAll(shared, None, entry, again);
            (forall i :: 0 <= i < n ==> !Opens(later, usable, None, 0, secretKeys[i])) ==>
              && Decrypt(later, usable, None, 0, secretKeys, false) == BadKeyFile(Malformed)
              && DecryptAll(later, usable, 0, secretKeys, dirents).FirstError?
  {
    hide ShareAll, SharedFile, CheckContents, DecryptAll, Decrypt;
    var shared := ShareAll(files, Some("default"), entry, recipients);
    var later := ShareAll(shared, None, entry, again);
    ShareAdds(files, Some("default"), entry, recipients);
    ShareAdds(shared, None, entry, again);
    SharedFileLoads(Some("default"), entry);
    if forall i :: 0 <= i < n ==> !Opens(later, usable, None, 0, secretKeys[i]) {
      assert Path("default", 0, secretKeys[n]) in shared;
      FirstOpenDecides(later, usable, None, 0, secretKeys, n, false);
      FailsForAll(later, usable, 0, secretKeys, dirents, "default");
    }
  }

  lemma {:induction false} FailsForAll(files: map<Path, GpgFile>, usable: set<string>, version: Word32,
                                       secretKeys: seq<string>, dirents: seq<string>, d: string)
    requires d in dirents && ValidRef(RefOfDir(d))
    requires Decrypt(files, usable, RefOfDir(d), version, secretKeys, false).BadKeyFile?
    ensures DecryptAll(files, usable, version, secretKeys, dirents).FirstError?
    decreases |dirents|
  {
    hide Decrypt;
    if d != dirents[0] {
      FailsForAll(files, usable, version, secretKeys, dirents[1..], d);
    }
  }

  /** If no file of a key and version passes the checks, it is not recovered. */
  lemma {:induction false} NoneRecovered(files: map<Path, GpgFile>, usable: set<string>, key: KeyRef, version: Word32,
                                         secretKeys: seq<string>, failed: bool)
    requires ValidRef(key)
    requires forall p :: p in files && p.dir == DirName(key) && p.version == version ==>
               !CheckContents(files[p].contents, key, version).Recovered?
    ensures !Decrypt(files, usable, key, version, secretKeys, failed).Recovered?
    decreases |secretKeys|
  {
    hide CheckContents;
    if secretKeys != [] {
      NoneRecovered(files, usable, key, version, secretKeys[1..], failed);
      NoneRecovered(files, usable, key, version, secretKeys[1..], true);
    }
  }

  /**
   Sharing takes the latest version of a key but unlocking only looks for version 0: in a directory
   without shares of version 0, the key can be recovered exactly if the version shared is 0 and the
   name it is shared by is a valid one.
   */
  lemma OnlyVersionZeroIsFound(files: map<Path, GpgFile>, master: map<(string, Word32), Entry>, key: KeyRef,
                               entry: Entry, recipients: seq<string>, usable: set<string>, secretKeys: seq<string>,
                               f: string)
    requires WellShared(files, master) && ArgumentRef(key)
    requires (DirName(key), entry.version) in master && master[(DirName(key), entry.version)] == entry
    requires f in recipients && f in secretKeys && f in usable
    requires forall p :: p in files ==> p.dir != DirName(key) || p.version != 0
    ensures var shared := ShareAll(files, key, entry, recipients); var looked := RefOfDir(DirName(key));
            ValidRef(looked) && Decrypt(shared, usable, looked, 0, secretKeys, false).Recovered?
            <==> entry.version == 0 && ValidRef(key)
  {
    hide ShareAll, SharedFile, CheckContents, Decrypt, WellShared;
    var shared, dir := ShareAll(files, key, entry, recipients), DirName(key);
    ShareAdds(files, key, entry, recipients);
    if ValidRef(RefOfDir(dir)) {
      SharedFileLoads(key, entry);
      if entry.version == 0 && ValidRef(key) {
        ShareKeeps(files, master, key, entry, recipients);
        DecryptExact(shared, master, usable, key, 0, secretKeys, false);
        assert Path(dir, 0, f) in shared;
        assert Openable(shared, usable, dir, 0, secretKeys);
      } else {
        NoneRecovered(shared, usable, RefOfDir(dir), 0, secretKeys, false);
      }
    }
  }

  /** Shared with nothing else in the repository, the key is all that is recovered, if its name is a valid one. */
  lemma SharedAlone(key: KeyRef, entry: Entry, recipients: seq<string>, usable: set<string>, secretKeys: seq<string>,
                    f: string)
    requires ArgumentRef(key) && entry.version == 0
    requires f in recipients && f in secretKeys && f in usable
    ensures DecryptAll(ShareAll(map[], key, entry, recipients), usable, 0, secretKeys, [DirName(key)])
         == AllRecovered([OneEntry(key, entry)])
       <==> ValidRef(key)
  {
    hide Decrypt, SharedFile, ShareAll, WellSharedAt;
    var dir, keys := DirName(key), OneEntry(key, entry);
    var master := map[(dir, 0) := entry];
    var shared := ShareAll(map[], key, entry, recipients);
    assert WellShared(map[], master) && [dir][1..] == [] && [keys] + [] == [keys];
    OnlyVersionZeroIsFound(map[], master, key, entry, recipients, usable, secretKeys, f);
    if ValidRef(key) {
      ShareKeeps(map[], master, key, entry, recipients);
      ShareAdds(map[], key, entry, recipients);
      assert Path(dir, 0, f) in shared;
      assert Openable(shared, usable, dir, 0, secretKeys);
      DecryptExact(shared, master, usable, key, 0, secretKeys, false);
    }
  }
}
