/** What locking and unlocking a repository mean for each other and for the files in it. */
module RepoTheorems {
  import opened Basics
  import opened Bytes
  import opened Crypto
  import opened KeyFormat
  import opened KeyTheorems
  import opened Filters
  import opened FilterTheorems
  import opened FilterCommands
  import opened Sharing
  import opened Listing
  import opened RepoState

  // ------------------------------------------------------- one key installed

  /** This key, and nothing else under its name, is installed and configured. */
  ghost predicate Unlocked(world: World, st: State, keys: Keys) {
    var key := RefOf(keys);
    && DirName(key) in st.keys && st.keys[DirName(key)] == StoreKeys(keys)
    && (forall n :: n in FilterEntries(world.exe, key) ==>
          n in st.config && st.config[n] == FilterEntries(world.exe, key)[n])
    && (forall n :: n in st.config && n.section in {FilterSection(key), DiffSection(key)} ==>
          n in FilterEntries(world.exe, key))
  }

  /** Neither the key file nor any configuration of this key is there. */
  ghost predicate Locked(st: State, key: KeyRef) {
    && DirName(key) !in st.keys
    && (forall n :: n in st.config ==> n.section !in {FilterSection(key), DiffSection(key)})
  }

  /** The files of a key are in the work tree as git would write them. */
  ghost predicate InSync(world: World, st: State, key: KeyRef) {
    forall p :: p in EncryptedFiles(world, key) ==>
      p in world.blobs && p in st.workTree && CheckedOut(world, st, p) == Some(st.workTree[p])
  }

  /** With keys and configuration restored, checking out the files of the key restores the work tree. */
  lemma BackInSync(world: World, st: State, mid: State, key: KeyRef)
    requires InSync(world, st, key) && mid.keys == st.keys && mid.config == st.config
    requires forall p :: p !in EncryptedFiles(world, key) ==>
               (p in mid.workTree <==> p in st.workTree) && (p in mid.workTree ==> mid.workTree[p] == st.workTree[p])
    ensures AllCheckOut(world, mid, EncryptedFiles(world, key))
    ensures AfterCheckout(world, mid, EncryptedFiles(world, key)) == st
  {
    hide CheckedOut, EncryptedFiles;
    forall p | p in EncryptedFiles(world, key)
      ensures p in world.blobs && CheckedOut(world, mid, p) == Some(st.workTree[p])
    {
      SameCheckout(world, mid, st, p);
    }
    assert AfterCheckout(world, mid, EncryptedFiles(world, key)).workTree == st.workTree;
  }

  lemma OneKeyUnlock(world: World, st: State, keys: Keys)
    ensures InstallAll(world, st, [keys]) == Install(world, st, keys)
    ensures FilesOfAll(world, [keys]) == EncryptedFiles(world, RefOf(keys))
  {
    hide Install, EncryptedFiles;
    assert FilesOfAll(world, [keys]) == EncryptedFiles(world, RefOf(keys)) + [];
    assert InstallAll(world, st, [keys]) == InstallAll(world, Install(world, st, keys), []);
  }

  /** Locking an unlocked key and unlocking it again from the same key file changes nothing at all. */
  lemma LockThenUnlock(world: World, st: State, keys: Keys, locked: State, end: State)
    requires WorldOk(world) && Unlocked(world, st, keys) && InSync(world, st, RefOf(keys))
    requires LocksTo(world, st, RefOf(keys), locked)
    ensures AllCheckOut(world, InstallAll(world, locked, [keys]), FilesOfAll(world, [keys]))
    ensures UnlocksTo(world, locked, [keys], end) ==> end == st
  {
    hide StoreKeys, FilterEntries, CheckedOut, EncryptedFiles, InSync, AllCheckOut;
    var key := RefOf(keys);
    OneKeyUnlock(world, locked, keys);
    RemoveThenInstall(world, st, keys);
    var installed := Install(world, locked, keys);
    assert installed.keys == st.keys;
    BackInSync(world, st, installed, key);
  }

  lemma RemoveThenInstall(world: World, st: State, keys: Keys)
    requires Unlocked(world, st, keys)
    ensures RemoveKey(st, RefOf(keys)).config + FilterEntries(world.exe, RefOf(keys)) == st.config
  {
    hide StoreKeys, FilterCommand;
    var key := RefOf(keys);
    SectionsDiffer(key, key);
  }

  /** Unlocking a locked key and locking it again changes nothing at all. */
  lemma UnlockThenLock(world: World, st: State, keys: Keys, unlocked: State, end: State)
    requires WorldOk(world) && Locked(st, RefOf(keys)) && InSync(world, st, RefOf(keys))
    ensures AllCheckOut(world, RemoveKey(unlocked, RefOf(keys)), EncryptedFiles(world, RefOf(keys)))
    ensures UnlocksTo(world, st, [keys], unlocked) && LocksTo(world, unlocked, RefOf(keys), end) ==> end == st
  {
    hide StoreKeys, FilterEntries, CheckedOut, EncryptedFiles, InSync, AllCheckOut, Deconfigured;
    var key := RefOf(keys);
    OneKeyUnlock(world, st, keys);
    InstallThenRemove(world, st, keys);
    var removed := RemoveKey(unlocked, key);
    LockChecksOut(world, unlocked, key);
    if UnlocksTo(world, st, [keys], unlocked) {
      assert removed.keys == st.keys;
      BackInSync(world, st, removed, key);
    }
  }

  lemma InstallThenRemove(world: World, st: State, keys: Keys)
    requires Locked(st, RefOf(keys))
    ensures RemoveKey(Install(world, st, keys), RefOf(keys)).config == st.config
  {
    hide StoreKeys, FilterCommand;
    var key := RefOf(keys);
    SectionsDiffer(key, key);
    var entries := FilterEntries(world.exe, key);
    var c := st.config + entries;
    assert ConfigName(FilterSection(key), "smudge") in entries && ConfigName(DiffSection(key), "textconv") in entries;
    hide FilterSection, DiffSection;
    forall n: ConfigName
      ensures n in c && !Removed(c, key, n) <==> n in st.config
      ensures n in st.config ==> c[n] == st.config[n]
    {
    }
  }

  // ------------------------------------------------------ all keys at once

  ghost predicate HasDir(loaded: seq<Keys>, d: string) {
    exists k :: k in loaded && DirName(RefOf(k)) == d
  }

  ghost predicate HasEntry(world: World, loaded: seq<Keys>, n: ConfigName) {
    exists k :: k in loaded && n in FilterEntries(world.exe, RefOf(k))
  }

  /** These keys are unlocked, no others are installed, and the files of all of them are in sync. */
  ghost predicate AllUnlocked(world: World, st: State, loaded: seq<Keys>) {
    && (forall k :: k in loaded ==> Storable(k) && Unlocked(world, st, k) && InSync(world, st, RefOf(k)))
    && (forall d :: d in st.keys <==> HasDir(loaded, d))
  }

  /** Installing keys that are unlocked in st makes their part of the state like st and leaves the rest. */
  lemma {:induction false} InstallAllIs(world: World, a: State, loaded: seq<Keys>, st: State)
    requires forall k :: k in loaded ==> Unlocked(world, st, k)
    ensures var b := InstallAll(world, a, loaded);
            && b.workTree == a.workTree
            && (forall d :: HasDir(loaded, d) ==> d in b.keys && d in st.keys && b.keys[d] == st.keys[d])
            && (forall d :: !HasDir(loaded, d) ==>
                  (d in b.keys <==> d in a.keys) && (d in b.keys ==> b.keys[d] == a.keys[d]))
            && (forall n :: HasEntry(world, loaded, n) ==>
                  n in b.config && n in st.config && b.config[n] == st.config[n])
            && (forall n :: !HasEntry(world, loaded, n) ==>
                  (n in b.config <==> n in a.config) && (n in b.config ==> b.config[n] == a.config[n]))
    decreases |loaded|
  {
    hide StoreKeys, FilterEntries, RefOf;
    if loaded != [] {
      var first, others := loaded[0], loaded[1..];
      assert forall k :: k in loaded <==> k == first || k in others;
      assert Unlocked(world, st, first);
      assert forall d :: HasDir(loaded, d) <==> DirName(RefOf(first)) == d || HasDir(others, d);
      var entries := FilterEntries(world.exe, RefOf(first));
      assert forall n :: HasEntry(world, loaded, n) <==> n in entries || HasEntry(world, others, n);
      hide HasDir, HasEntry;
      InstallAllIs(world, Install(world, a, first), others, st);
    }
  }

  /** Removing keys takes away their key files and what belongs to them in the configuration, no more. */
  lemma {:induction false} RemoveKeysIs(st: State, dirents: seq<string>)
    ensures var b := RemoveKeys(st, dirents);
            && b.workTree == st.workTree
            && (forall d :: d in b.keys <==> d in st.keys && d !in dirents)
            && (forall n :: n in b.config ==> n in st.config && b.config[n] == st.config[n])
            && (forall n :: n in st.config && n !in b.config ==>
                  exists d :: d in dirents && n.section in {FilterSection(RefOfDir(d)), DiffSection(RefOfDir(d))})
    decreases |dirents|
  {
    hide FilterSection, DiffSection;
    if dirents != [] {
      var first, others := dirents[0], dirents[1..];
      assert forall d :: d in dirents <==> d == first || d in others;
      assert DirName(RefOfDir(first)) == first;
      RemoveKeysIs(RemoveKey(st, RefOfDir(first)), others);
    }
  }

  lemma {:induction false} FilesOfDirsIn(world: World, dirents: seq<string>, p: string)
    requires p in FilesOfDirs(world, dirents)
    ensures exists d :: d in dirents && p in EncryptedFiles(world, RefOfDir(d))
    decreases |dirents|
  {
    if p in EncryptedFiles(world, RefOfDir(dirents[0])) {
      assert dirents[0] in dirents;
    } else {
      FilesOfDirsIn(world, dirents[1..], p);
      var d :| d in dirents[1..] && p in EncryptedFiles(world, RefOfDir(d));
      assert d in dirents;
    }
  }

  lemma {:induction false} FilesOfAllIs(world: World, loaded: seq<Keys>, p: string)
    ensures p in FilesOfAll(world, loaded) <==> exists k :: k in loaded && p in EncryptedFiles(world, RefOf(k))
    decreases |loaded|
  {
    hide EncryptedFiles, RefOf;
    if loaded != [] {
      FilesOfAllIs(world, loaded[1..], p);
      assert forall k :: k in loaded <==> k == loaded[0] || k in loaded[1..];
    }
  }

  /** The directory of a key leads back to the key. */
  lemma RefOfDirName(k: Keys)
    requires Storable(k)
    ensures RefOfDir(DirName(RefOf(k))) == RefOf(k)
  {
    LoadedRefIsValid(k);
  }

  /** Whatever a lock of all keys takes out of the configuration belongs to one of the keys. */
  lemma TakenIsAddedBack(world: World, st: State, loaded: seq<Keys>, dirents: seq<string>, n: ConfigName)
    requires AllUnlocked(world, st, loaded) && forall d :: d in dirents <==> d in st.keys
    ensures n in st.config && n !in RemoveKeys(st, dirents).config ==> HasEntry(world, loaded, n)
  {
    hide StoreKeys, FilterEntries, RemoveKeys, FilterSection, DiffSection, Storable;
    RemoveKeysIs(st, dirents);
    if n !in st.config || n in RemoveKeys(st, dirents).config {
      return;
    }
    var d :| d in dirents && n.section in {FilterSection(RefOfDir(d)), DiffSection(RefOfDir(d))};
    assert HasDir(loaded, d);
    var k :| k in loaded && DirName(RefOf(k)) == d;
    RefOfDirName(k);
    assert Unlocked(world, st, k);
    assert n in FilterEntries(world.exe, RefOf(k));
  }

  lemma ConfigRestored(world: World, st: State, loaded: seq<Keys>, dirents: seq<string>)
    requires AllUnlocked(world, st, loaded) && forall d :: d in dirents <==> d in st.keys
    ensures InstallAll(world, RemoveKeys(st, dirents), loaded).config == st.config
    ensures InstallAll(world, RemoveKeys(st, dirents), loaded).keys == st.keys
  {
    hide StoreKeys, FilterEntries, InstallAll, RemoveKeys, Unlocked, InSync, Storable, HasDir, HasEntry;
    var removed := RemoveKeys(st, dirents);
    var b := InstallAll(world, removed, loaded);
    InstallAllIs(world, removed, loaded, st);
    RemoveKeysIs(st, dirents);
    forall n | n in st.config && n !in removed.config
      ensures HasEntry(world, loaded, n)
    {
      TakenIsAddedBack(world, st, loaded, dirents, n);
    }
    assert b.config == st.config;
    assert b.keys == st.keys;
  }

  /** Locking all keys and unlocking with all the key files again changes nothing at all. */
  lemma LockAllThenUnlockAll(world: World, st: State, loaded: seq<Keys>, dirents: seq<string>, locked: State,
                             end: State)
    requires WorldOk(world) && AllUnlocked(world, st, loaded) && LocksAllTo(world, st, dirents, locked)
    ensures AllCheckOut(world, InstallAll(world, locked, loaded), FilesOfAll(world, loaded))
    ensures UnlocksTo(world, locked, loaded, end) ==> end == st
  {
    hide CheckedOut, InstallAll, RemoveKeys, AfterCheckout, FilesOfAll, FilesOfDirs;
    var installed := InstallAll(world, locked, loaded);
    LockedThenInstalled(world, st, loaded, dirents, locked);
    hide AllUnlocked, LocksAllTo;
    if UnlocksTo(world, locked, loaded, end) {
      CheckoutIs(world, installed, FilesOfAll(world, loaded));
      assert end.workTree == st.workTree;
    }
  }

  /** With the keys installed again, all but the files of the keys are as before, and those check out as before. */
  lemma LockedThenInstalled(world: World, st: State, loaded: seq<Keys>, dirents: seq<string>, locked: State)
    requires AllUnlocked(world, st, loaded) && LocksAllTo(world, st, dirents, locked)
    ensures var installed := InstallAll(world, locked, loaded);
            && installed.keys == st.keys && installed.config == st.config
            && (forall p :: p in FilesOfAll(world, loaded) ==>
                  p in world.blobs && p in st.workTree && CheckedOut(world, installed, p) == Some(st.workTree[p]))
            && (forall p :: p !in FilesOfAll(world, loaded) ==>
                  (p in installed.workTree <==> p in st.workTree)
                  && (p in st.workTree ==> installed.workTree[p] == st.workTree[p]))
  {
    hide CheckedOut, InstallAll, RemoveKeys, AfterCheckout, FilesOfAll, FilesOfDirs, AllCheckOut;
    var removed := RemoveKeys(st, dirents);
    var installed := InstallAll(world, locked, loaded);
    CheckoutIs(world, removed, FilesOfDirs(world, dirents));
    ConfigRestored(world, st, loaded, dirents);
    RemoveKeysIs(st, dirents);
    InstallWorkTree(world, removed, locked, loaded);
    forall p | p in FilesOfAll(world, loaded)
      ensures p in world.blobs && p in st.workTree && CheckedOut(world, installed, p) == Some(st.workTree[p])
    {
      FileBack(world, st, loaded, installed, p);
    }
    forall p | p in FilesOfDirs(world, dirents)
      ensures p in FilesOfAll(world, loaded)
    {
      NotLocked(world, st, loaded, dirents, p);
    }
  }

  lemma FileBack(world: World, st: State, loaded: seq<Keys>, mid: State, p: string)
    requires AllUnlocked(world, st, loaded) && mid.keys == st.keys && mid.config == st.config
    ensures p in FilesOfAll(world, loaded) ==>
              p in world.blobs && p in st.workTree && CheckedOut(world, mid, p) == Some(st.workTree[p])
  {
    hide CheckedOut, EncryptedFiles, Unlocked, Storable;
    FilesOfAllIs(world, loaded, p);
    if p !in FilesOfAll(world, loaded) {
      return;
    }
    var k :| k in loaded && p in EncryptedFiles(world, RefOf(k));
    assert InSync(world, st, RefOf(k));
    SameCheckout(world, mid, st, p);
  }

  lemma NotLocked(world: World, st: State, loaded: seq<Keys>, dirents: seq<string>, p: string)
    requires AllUnlocked(world, st, loaded) && (forall d :: d in dirents ==> d in st.keys)
    requires p in FilesOfDirs(world, dirents)
    ensures p in FilesOfAll(world, loaded)
  {
    hide EncryptedFiles, Unlocked, InSync, Storable;
    FilesOfDirsIn(world, dirents, p);
    var d :| d in dirents && p in EncryptedFiles(world, RefOfDir(d));
    var k :| k in loaded && DirName(RefOf(k)) == d;
    RefOfDirName(k);
    FilesOfAllIs(world, loaded, p);
  }

  /** What is installed does not depend on the work tree. */
  lemma {:induction false} InstallWorkTree(world: World, a: State, b: State, loaded: seq<Keys>)
    requires a.keys == b.keys && a.config == b.config
    ensures InstallAll(world, b, loaded) == InstallAll(world, a, loaded).(workTree := b.workTree)
    decreases |loaded|
  {
    hide StoreKeys, FilterEntries;
    if loaded != [] {
      InstallWorkTree(world, Install(world, a, loaded[0]), Install(world, b, loaded[0]), loaded[1..]);
    }
  }

  // ------------------------------------------------- and the other way round

  /** Installing keys, whatever is in their files, adds their key files and their entries and no more. */
  lemma {:induction false} InstallAllAdds(world: World, a: State, loaded: seq<Keys>)
    ensures var b := InstallAll(world, a, loaded);
            && b.workTree == a.workTree
            && (forall d :: d in b.keys <==> d in a.keys || HasDir(loaded, d))
            && (forall n :: n in b.config <==> n in a.config || HasEntry(world, loaded, n))
            && (forall n :: n in a.config && !HasEntry(world, loaded, n) ==> b.config[n] == a.config[n])
    decreases |loaded|
  {
    hide StoreKeys, FilterEntries, RefOf;
    if loaded != [] {
      var first, others := loaded[0], loaded[1..];
      assert forall k :: k in loaded <==> k == first || k in others;
      assert forall d :: HasDir(loaded, d) <==> DirName(RefOf(first)) == d || HasDir(others, d);
      var entries := FilterEntries(world.exe, RefOf(first));
      assert forall n :: HasEntry(world, loaded, n) <==> n in entries || HasEntry(world, others, n);
      hide HasDir, HasEntry;
      InstallAllAdds(world, Install(world, a, first), others);
    }
  }

  ghost predicate HasSections(st: State, key: KeyRef) {
    exists n :: n in st.config && n.section in {FilterSection(key), DiffSection(key)}
  }

  ghost predicate FullyConfigured(st: State, exe: string, key: KeyRef) {
    FilterEntries(exe, key).Keys <= st.config.Keys
  }

  lemma RemovedHasNone(st: State, exe: string, key: KeyRef)
    requires FullyConfigured(st, exe, key)
    ensures !HasSections(RemoveKey(st, key), key)
  {
    hide FilterCommand;
    SectionsDiffer(key, key);
    assert ConfigName(FilterSection(key), "smudge") in FilterEntries(exe, key);
    assert ConfigName(DiffSection(key), "textconv") in FilterEntries(exe, key);
  }

  lemma OthersStayConfigured(st: State, exe: string, key: KeyRef, other: KeyRef)
    requires FullyConfigured(st, exe, key) && other != key
    ensures FullyConfigured(RemoveKey(st, other), exe, key)
  {
    hide FilterCommand;
    SectionsDiffer(key, other);
    SectionsDiffer(other, key);
  }

  /** Of a key that was configured in full and is among those removed, no section is left. */
  lemma {:induction false} SectionsGone(st: State, exe: string, dirents: seq<string>, key: KeyRef)
    requires FullyConfigured(st, exe, key) && (exists d :: d in dirents && RefOfDir(d) == key)
    ensures !HasSections(RemoveKeys(st, dirents), key)
    decreases |dirents|
  {
    hide FilterEntries, FilterSection, DiffSection, RemoveKey, FullyConfigured;
    var first, others := RefOfDir(dirents[0]), dirents[1..];
    if first == key {
      RemovedHasNone(st, exe, key);
      RemoveKeysIs(RemoveKey(st, first), others);
    } else {
      OthersStayConfigured(st, exe, key, first);
      SectionsGone(RemoveKey(st, first), exe, others, key);
    }
  }

  /** None of these keys is installed or configured, and their files are in sync. */
  ghost predicate AllLocked(world: World, st: State, loaded: seq<Keys>) {
    && st.keys == map[]
    && (forall k :: k in loaded ==> Storable(k) && Locked(st, RefOf(k)) && InSync(world, st, RefOf(k)))
  }

  /** Removing every installed key takes back what installing these keys has added. */
  lemma InstallAllRemoved(world: World, st: State, loaded: seq<Keys>, workTree: map<string, seq<Byte>>,
                          dirents: seq<string>)
    requires AllLocked(world, st, loaded) && forall d :: d in dirents <==> HasDir(loaded, d)
    ensures var removed := RemoveKeys(InstallAll(world, st, loaded).(workTree := workTree), dirents);
            removed.keys == st.keys && removed.config == st.config
  {
    hide StoreKeys, FilterEntries, InstallAll, RemoveKeys, InSync, Storable, FilterSection, DiffSection;
    var unlocked := InstallAll(world, st, loaded).(workTree := workTree);
    var removed := RemoveKeys(unlocked, dirents);
    InstallAllAdds(world, st, loaded);
    RemoveKeysIs(unlocked, dirents);
    forall n: ConfigName
      ensures n in removed.config <==> n in st.config
      ensures n in st.config ==> removed.config[n] == st.config[n]
    {
      EntryTakenBack(world, st, loaded, workTree, dirents, n);
    }
    assert removed.config == st.config;
    assert removed.keys == st.keys;
  }

  lemma EntryTakenBack(world: World, st: State, loaded: seq<Keys>, workTree: map<string, seq<Byte>>,
                       dirents: seq<string>, n: ConfigName)
    requires AllLocked(world, st, loaded) && forall d :: d in dirents <==> HasDir(loaded, d)
    ensures n in RemoveKeys(InstallAll(world, st, loaded).(workTree := workTree), dirents).config <==> n in st.config
    ensures n in st.config ==> !HasEntry(world, loaded, n)
  {
    hide StoreKeys, FilterEntries, InstallAll, RemoveKeys, InSync, Storable, FilterSection, DiffSection, RefOf;
    var unlocked := InstallAll(world, st, loaded).(workTree := workTree);
    var removed := RemoveKeys(unlocked, dirents);
    InstallAllAdds(world, st, loaded);
    RemoveKeysIs(unlocked, dirents);
    if HasEntry(world, loaded, n) {
      var k :| k in loaded && n in FilterEntries(world.exe, RefOf(k));
      EntriesInSections(world.exe, RefOf(k), n);
      assert HasDir(loaded, DirName(RefOf(k)));
      RefOfDirName(k);
      assert forall m :: m in FilterEntries(world.exe, RefOf(k)) ==> HasEntry(world, loaded, m);
      SectionsGone(unlocked, world.exe, dirents, RefOf(k));
    }
    if n in st.config && n !in removed.config {
      var d :| d in dirents && n.section in {FilterSection(RefOfDir(d)), DiffSection(RefOfDir(d))};
      var k :| k in loaded && DirName(RefOf(k)) == d;
      RefOfDirName(k);
      assert false;
    }
  }

  lemma EntriesInSections(exe: string, key: KeyRef, n: ConfigName)
    requires n in FilterEntries(exe, key)
    ensures n.section in {FilterSection(key), DiffSection(key)}
  {
    hide FilterCommand;
  }

  lemma {:induction false} FilesOfDirsHas(world: World, dirents: seq<string>, d: string, p: string)
    requires d in dirents && p in EncryptedFiles(world, RefOfDir(d))
    ensures p in FilesOfDirs(world, dirents)
    decreases |dirents|
  {
    hide EncryptedFiles;
    if d != dirents[0] {
      FilesOfDirsHas(world, dirents[1..], d, p);
    }
  }

  /** The files of the installed keys are those of the loaded ones. */
  lemma SameFiles(world: World, st: State, loaded: seq<Keys>, dirents: seq<string>, p: string)
    requires AllLocked(world, st, loaded) && forall d :: d in dirents <==> HasDir(loaded, d)
    ensures p in FilesOfDirs(world, dirents) <==> p in FilesOfAll(world, loaded)
    ensures p in FilesOfAll(world, loaded) ==>
              p in world.blobs && p in st.workTree && CheckedOut(world, st, p) == Some(st.workTree[p])
  {
    hide EncryptedFiles, CheckedOut, Storable, Locked;
    FilesOfAllIs(world, loaded, p);
    if p in FilesOfDirs(world, dirents) {
      FilesOfDirsIn(world, dirents, p);
      var d :| d in dirents && p in EncryptedFiles(world, RefOfDir(d));
      var k :| k in loaded && DirName(RefOf(k)) == d;
      RefOfDirName(k);
    }
    if p in FilesOfAll(world, loaded) {
      var k :| k in loaded && p in EncryptedFiles(world, RefOf(k));
      RefOfDirName(k);
      assert HasDir(loaded, DirName(RefOf(k))) && InSync(world, st, RefOf(k));
      FilesOfDirsHas(world, dirents, DirName(RefOf(k)), p);
    }
  }

  /** Unlocking any number of keys where none is installed, and locking all keys again, changes nothing at all. */
  lemma UnlockAllThenLockAll(world: World, st: State, loaded: seq<Keys>, unlocked: State, dirents: seq<string>,
                             end: State)
    requires WorldOk(world) && AllLocked(world, st, loaded)
    ensures AllCheckOut(world, RemoveKeys(unlocked, dirents), FilesOfDirs(world, dirents))
    ensures UnlocksTo(world, st, loaded, unlocked) && LocksAllTo(world, unlocked, dirents, end) ==> end == st
  {
    hide CheckedOut, InstallAll, RemoveKeys, AfterCheckout, FilesOfAll, FilesOfDirs, AllCheckOut, AllLocked, HasDir;
    LockAllChecksOut(world, unlocked, dirents);
    if UnlocksTo(world, st, loaded, unlocked) && LocksAllTo(world, unlocked, dirents, end) {
      var installed, removed := InstallAll(world, st, loaded), RemoveKeys(unlocked, dirents);
      CheckoutIs(world, installed, FilesOfAll(world, loaded));
      CheckoutIs(world, removed, FilesOfDirs(world, dirents));
      InstallAllAdds(world, st, loaded);
      NoneInstalled(world, st, loaded);
      assert unlocked == installed.(workTree := unlocked.workTree);
      InstallAllRemoved(world, st, loaded, unlocked.workTree, dirents);
      RemoveKeysIs(unlocked, dirents);
      forall p: string
        ensures p in end.workTree <==> p in st.workTree
        ensures p in st.workTree ==> end.workTree[p] == st.workTree[p]
      {
        SameFiles(world, st, loaded, dirents, p);
        if p in FilesOfDirs(world, dirents) {
          SameCheckout(world, removed, st, p);
        }
      }
      assert end.workTree == st.workTree;
    }
  }

  lemma NoneInstalled(world: World, st: State, loaded: seq<Keys>)
    requires AllLocked(world, st, loaded)
    ensures st.keys == map[]
  {
  }

  /**
   Locking one key, by whatever name, leaves the configuration and the files of all others alone, and
   the key files too, with one exception: the name "default", which is not checked for being a valid
   one, takes the key file of the default key.
   */
  lemma LockLeavesOthers(world: World, st: State, key: KeyRef, other: KeyRef, end: State)
    requires WorldOk(world) && LocksTo(world, st, key, end) && ValidRef(other) && other != key
    ensures (DirName(other) in end.keys <==> DirName(other) in st.keys)
       <==> !(key == Some("default") && other == None && "default" in st.keys)
    ensures DirName(other) in end.keys ==>
              DirName(other) in st.keys && end.keys[DirName(other)] == st.keys[DirName(other)]
    ensures forall n: ConfigName :: n.section in {FilterSection(other), DiffSection(other)} ==>
              (n in end.config <==> n in st.config) && (n in end.config ==> end.config[n] == st.config[n])
    ensures forall p :: p in EncryptedFiles(world, other) ==>
              (p in end.workTree <==> p in st.workTree) && (p in end.workTree ==> end.workTree[p] == st.workTree[p])
  {
    SectionsDiffer(other, key);
    SectionsDiffer(key, other);
    forall p | p in EncryptedFiles(world, other)
      ensures p !in EncryptedFiles(world, key)
    {
      EncryptedInWorld(world, other, p);
      if p in EncryptedFiles(world, key) {
        EncryptedInWorld(world, key, p);
        AttributeNameInjective(key, other);
      }
    }
  }

  /** After a lock, every file of the key is what is stored in the repository. */
  lemma LockedFilesAreRaw(world: World, st: State, key: KeyRef, end: State, name: string)
    requires WorldOk(world) && LocksTo(world, st, key, end) && name in EncryptedFiles(world, key)
    ensures name in world.blobs && name in end.workTree && end.workTree[name] == world.blobs[name]
  {
    RemovedChecksOutRaw(world, st, key, name);
  }

  // --------------------------------------------------------- end to end

  /** The command configured for a key loads exactly that key. */
  lemma ConfiguredLoads(world: World, installed: map<string, seq<Byte>>, keys: Keys, subcommand: string)
    requires Storable(keys) && subcommand in {"smudge", "clean", "diff"}
    requires DirName(RefOf(keys)) in installed && installed[DirName(RefOf(keys))] == StoreKeys(keys)
    ensures LoadFor(world, installed, FilterCommand(world.exe, subcommand, RefOf(keys)), subcommand) == Some(keys)
  {
    hide StoreKeys, FilterCommand, Invoked, LoadKeys;
    LoadedRefIsValid(keys);
    CommandReachesKey(world.exe, subcommand, RefOf(keys));
    StoreThenLoad(keys);
  }

  /** The key is installed and its smudge filter is the one that git-crypt configures. */
  ghost predicate Serves(world: World, st: State, keys: Keys) {
    var key := RefOf(keys);
    && Storable(keys)
    && DirName(key) in st.keys && st.keys[DirName(key)] == StoreKeys(keys)
    && ConfigName(FilterSection(key), "smudge") in st.config
    && st.config[ConfigName(FilterSection(key), "smudge")] == FilterCommand(world.exe, "smudge", key)
  }

  /** What a file of a key that is served is checked out as, if smudge accepts its blob. */
  lemma ServedCheckout(world: World, st: State, keys: Keys, name: string)
    requires WorldOk(world) && Serves(world, st, keys) && name in EncryptedFiles(world, RefOf(keys))
    ensures name in world.blobs
    ensures var run := SmudgeRun(world.suite, keys.entries, world.blobs[name]);
            run.exit == Exit(0) ==> CheckedOut(world, st, name) == Some(run.output)
  {
    hide StoreKeys, FilterCommand, SmudgeRun, LoadFor;
    var key := RefOf(keys);
    EncryptedInWorld(world, key, name);
    assert "filter." + AttributeName(key) == FilterSection(key);
    ConfiguredLoads(world, st.keys, keys, "smudge");
  }

  /**
   With a key installed and its filter configured, git gets a file of that key back in the clear:
   the configured command reaches smudge with the name of the key, the key file loads, and what
   clean once made of the contents is decrypted.
   */
  lemma CheckoutDecrypts(world: World, st: State, keys: Keys, name: string, x: seq<Byte>)
    requires WorldOk(world) && Serves(world, st, keys) && name in EncryptedFiles(world, RefOf(keys)) && |x| < WORDS
    requires SameKeyBothWays(keys.entries)
    requires name in world.blobs && world.blobs[name] == CleanRun(world.suite, keys.entries, x).output
    ensures CheckedOut(world, st, name) == Some(x)
  {
    hide Serves, SmudgeRun, CleanRun, CheckedOut;
    RoundTrip(world.suite, keys.entries, x);
    ServedCheckout(world, st, keys, name);
  }

  /** This was committed in the clear: it is too short for the header, or does not begin like one. */
  predicate Clear(blob: seq<Byte>) {
    |blob| < 22 || blob[..10] != [0, 71, 73, 84, 67, 82, 89, 80, 84, 0]
  }

  /** A file that was committed in the clear is checked out as it stands, down to the last byte. */
  lemma ClearChecksOut(world: World, st: State, keys: Keys, name: string)
    requires WorldOk(world) && Serves(world, st, keys) && name in EncryptedFiles(world, RefOf(keys))
    requires name in world.blobs && Clear(world.blobs[name])
    ensures CheckedOut(world, st, name) == Some(world.blobs[name])
  {
    hide Serves, SmudgeRun, CheckedOut;
    SmudgeByteByByte(world.suite, keys.entries, world.blobs[name]);
    ServedCheckout(world, st, keys, name);
  }

  /**
   Git decides whether a file has changed by running the configured clean command on it. A file
   that smudge has just accepted counts as unchanged exactly if its blob was encrypted: one that
   was committed in the clear is passed through, but would be encrypted on the way back.
   */
  lemma StaysClean(world: World, st: State, keys: Keys, name: string)
    requires WorldOk(world) && Serves(world, st, keys) && name in EncryptedFiles(world, RefOf(keys))
    requires name in world.blobs && SameKeyBothWays(keys.entries)
    requires SmudgeRun(world.suite, keys.entries, world.blobs[name]).exit == Exit(0)
    ensures CheckedOut(world, st, name).Some?
    ensures RunClean(world, st.keys, FilterCommand(world.exe, "clean", RefOf(keys)), CheckedOut(world, st, name).value)
            == Some(world.blobs[name])
       <==> LooksEncrypted(world.blobs[name])
  {
    hide StoreKeys, FilterCommand, LoadFor, CheckedOut;
    var blob := world.blobs[name];
    ServedCheckout(world, st, keys, name);
    ConfiguredLoads(world, st.keys, keys, "clean");
    if LooksEncrypted(blob) {
      AcceptedIsCleaned(world.suite, keys.entries, blob);
    } else if CleanRun(world.suite, keys.entries, blob).exit == Exit(0) {
      CleanedLooksEncrypted(world.suite, keys.entries, blob);
    }
  }

  lemma CleanedLooksEncrypted(suite: Suite, entries: map<Word32, Entry>, x: seq<Byte>)
    requires CleanRun(suite, entries, x).exit == Exit(0)
    ensures LooksEncrypted(CleanRun(suite, entries, x).output)
  {
    var c := CleanRun(suite, entries, x).output;
    assert c[..10] == FILE_MAGIC;
  }

  // ----------------------------------------------------- what git status says

  /** Without a filter, a file that is its blob is not changed. */
  lemma RawUnchanged(world: World, st: State, key: KeyRef, p: string)
    requires WorldOk(world) && p in EncryptedFiles(world, key) && !Configured(st.config, key)
    requires p in world.blobs && p in st.workTree && st.workTree[p] == world.blobs[p]
    ensures !Changed(world, st, p)
  {
    EncryptedInWorld(world, key, p);
    assert "filter." + AttributeName(key) == FilterSection(key);
  }

  lemma RemovedNotConfigured(st: State, key: KeyRef)
    ensures !Configured(RemoveKey(st, key).config, key)
  {
  }

  /** After a lock, no file of the key counts as changed. */
  lemma LockedUnchanged(world: World, st: State, key: KeyRef, end: State)
    requires WorldOk(world) && LocksTo(world, st, key, end)
    ensures !SomeChanged(world, end, key)
  {
    hide EncryptedFiles, LocksTo, Changed, Configured, RemoveKey, AllCheckOut, AfterCheckout;
    assert end.config == RemoveKey(st, key).config by {
      LockedConfig(world, st, key, end);
    }
    RemovedNotConfigured(st, key);
    forall p | p in EncryptedFiles(world, key)
      ensures !Changed(world, end, p)
    {
      LockedFilesAreRaw(world, st, key, end, p);
      RawUnchanged(world, end, key, p);
    }
  }

  lemma LockedConfig(world: World, st: State, key: KeyRef, end: State)
    requires LocksTo(world, st, key, end)
    ensures end.config == RemoveKey(st, key).config
  {
    hide EncryptedFiles, AllCheckOut, RemoveKey;
  }

  /** Nor does any before an unlock, if the files of the locked key are as git would write them. */
  lemma StillLockedUnchanged(world: World, st: State, key: KeyRef)
    requires WorldOk(world) && Locked(st, key) && InSync(world, st, key)
    ensures !SomeChanged(world, st, key)
  {
    hide EncryptedFiles, Changed;
    forall p | p in EncryptedFiles(world, key)
      ensures !Changed(world, st, p)
    {
      EncryptedInWorld(world, key, p);
      assert "filter." + AttributeName(key) == FilterSection(key);
      RawUnchanged(world, st, key, p);
    }
  }

  /** With the key unlocked, all four variables are set as configured. */
  lemma UnlockedServes(world: World, st: State, keys: Keys)
    requires Storable(keys) && SameKeyBothWays(keys.entries) && Unlocked(world, st, keys)
    ensures Serves(world, st, keys)
    ensures var clean, required := ConfigName(FilterSection(RefOf(keys)), "clean"),
                                   ConfigName(FilterSection(RefOf(keys)), "required");
            && clean in st.config && st.config[clean] == FilterCommand(world.exe, "clean", RefOf(keys))
            && required in st.config && st.config[required] == "true"
  {
    hide StoreKeys, FilterCommand, Storable, SameKeyBothWays, RefOf;
    SectionsDiffer(RefOf(keys), RefOf(keys));
  }

  /** Then its clean filter decides what git would store, and smudge has accepted the blobs of files in sync. */
  lemma UnlockedRuns(world: World, st: State, keys: Keys, p: string)
    requires WorldOk(world) && Storable(keys) && SameKeyBothWays(keys.entries)
    requires Unlocked(world, st, keys) && InSync(world, st, RefOf(keys)) && p in EncryptedFiles(world, RefOf(keys))
    ensures Serves(world, st, keys) && p in world.blobs && p in st.workTree
    ensures CheckedOut(world, st, p) == Some(st.workTree[p])
    ensures SmudgeRun(world.suite, keys.entries, world.blobs[p]).exit == Exit(0)
    ensures var clean := FilterCommand(world.exe, "clean", RefOf(keys));
            Cleaned(world, st, p) == RunClean(world, st.keys, clean, st.workTree[p])
  {
    hide StoreKeys, FilterCommand, FilterEntries, LoadFor, SmudgeRun, Storable, SameKeyBothWays, InSync, RunClean,
         RefOf, Unlocked;
    var key := RefOf(keys);
    UnlockedServes(world, st, keys);
    EncryptedInWorld(world, key, p);
    assert "filter." + AttributeName(key) == FilterSection(key);
    ConfiguredLoads(world, st.keys, keys, "smudge");
    InSyncAt(world, st, key, p);
  }

  lemma InSyncAt(world: World, st: State, key: KeyRef, p: string)
    requires InSync(world, st, key) && p in EncryptedFiles(world, key)
    ensures p in world.blobs && p in st.workTree && CheckedOut(world, st, p) == Some(st.workTree[p])
  {
    hide EncryptedFiles, CheckedOut;
  }

  /** The files of an unlocked key that are in sync count as unchanged exactly if all their blobs look encrypted. */
  lemma UnlockedChanged(world: World, st: State, keys: Keys)
    requires WorldOk(world) && Storable(keys) && SameKeyBothWays(keys.entries)
    requires Unlocked(world, st, keys) && InSync(world, st, RefOf(keys))
    ensures SomeChanged(world, st, RefOf(keys)) <==> !AllLookEncrypted(world, RefOf(keys))
  {
    hide WorldOk, EncryptedFiles, Unlocked, InSync, Storable, SameKeyBothWays, Serves, Cleaned, CheckedOut, RunClean,
         LooksEncrypted, RefOf;
    forall p | p in EncryptedFiles(world, RefOf(keys))
      ensures p in world.blobs && (Changed(world, st, p) <==> !LooksEncrypted(world.blobs[p]))
    {
      UnlockedRuns(world, st, keys, p);
      StaysClean(world, st, keys, p);
    }
  }

  lemma InstalledUnlocked(world: World, st: State, keys: Keys)
    requires Locked(st, RefOf(keys))
    ensures Unlocked(world, Install(world, st, keys), keys)
  {
    hide StoreKeys, FilterEntries, FilterSection, DiffSection, RefOf;
  }

  /** Unlocking a locked key leaves it unlocked, with its files in sync. */
  lemma UnlockedAfter(world: World, st: State, keys: Keys, end: State)
    requires Locked(st, RefOf(keys))
    ensures UnlocksTo(world, st, [keys], end) ==> Unlocked(world, end, keys) && InSync(world, end, RefOf(keys))
  {
    hide StoreKeys, FilterEntries, FilterSection, DiffSection, RefOf, CheckedOut, EncryptedFiles, AllCheckOut,
         AfterCheckout, InstallAll, FilesOfAll, Install, Locked;
    var installed := Install(world, st, keys);
    OneKeyUnlock(world, st, keys);
    InstalledUnlocked(world, st, keys);
    if UnlocksTo(world, st, [keys], end) {
      CheckoutIs(world, installed, EncryptedFiles(world, RefOf(keys)));
      forall p | p in EncryptedFiles(world, RefOf(keys))
        ensures p in world.blobs && p in end.workTree && CheckedOut(world, end, p) == Some(end.workTree[p])
      {
        SameCheckout(world, end, installed, p);
      }
    }
  }

  /** Every file of the key has these contents: it was encrypted with the key from them, or is them in the clear. */
  ghost predicate StoredFrom(world: World, keys: Keys, contents: map<string, seq<Byte>>) {
    forall p :: p in EncryptedFiles(world, RefOf(keys)) ==>
      p in contents && p in world.blobs && HoldsContents(world, keys, world.blobs[p], contents[p])
  }

  ghost predicate HoldsContents(world: World, keys: Keys, blob: seq<Byte>, x: seq<Byte>) {
    || (Clear(blob) && x == blob)
    || (SameKeyBothWays(keys.entries) && |x| < WORDS && blob == CleanRun(world.suite, keys.entries, x).output)
  }

  /** The files of the key are in the work tree with these contents. */
  ghost predicate Shows(world: World, key: KeyRef, st: State, contents: map<string, seq<Byte>>) {
    forall p :: p in EncryptedFiles(world, key) ==> p in contents && p in st.workTree && st.workTree[p] == contents[p]
  }

  lemma InstalledServes(world: World, st: State, keys: Keys)
    requires Storable(keys)
    ensures Serves(world, Install(world, st, keys), keys)
  {
    hide StoreKeys, FilterCommand;
    SectionsDiffer(RefOf(keys), RefOf(keys));
  }

  lemma ServesKept(world: World, st: State, keys: Keys, other: Keys)
    requires Storable(other) && RefOf(other) != RefOf(keys)
    ensures Serves(world, st, keys) ==> Serves(world, Install(world, st, other), keys)
  {
    hide StoreKeys, FilterCommand, FilterEntries, FilterSection, Storable, RefOf, SameKeyBothWays;
    if Serves(world, st, keys) {
      OthersConfigured(st.config, world.exe, RefOf(other), RefOf(keys));
      DirNamesDiffer(keys, other);
    }
  }

  lemma DirNamesDiffer(a: Keys, b: Keys)
    requires Storable(a) && Storable(b) && RefOf(a) != RefOf(b)
    ensures DirName(RefOf(a)) != DirName(RefOf(b))
  {
    hide RefOf;
    RefOfDirName(a);
    RefOfDirName(b);
  }

  lemma {:induction false} ServesKeptAll(world: World, st: State, keys: Keys, loaded: seq<Keys>)
    requires Serves(world, st, keys) && forall k :: k in loaded ==> Storable(k) && RefOf(k) != RefOf(keys)
    ensures Serves(world, InstallAll(world, st, loaded), keys)
    decreases |loaded|
  {
    hide Serves, Install, Storable, RefOf;
    if loaded != [] {
      ServesKept(world, st, keys, loaded[0]);
      ServesKeptAll(world, Install(world, st, loaded[0]), keys, loaded[1..]);
    }
  }

  ghost predicate ServesRef(world: World, st: State, loaded: seq<Keys>, key: KeyRef) {
    exists k :: k in loaded && RefOf(k) == key && Serves(world, st, k)
  }

  /** After all are installed, each name is served by one of the keys of that name: the last one. */
  lemma {:induction false} AllServed(world: World, st: State, loaded: seq<Keys>, keys: Keys)
    requires keys in loaded && forall k :: k in loaded ==> Storable(k)
    ensures ServesRef(world, InstallAll(world, st, loaded), loaded, RefOf(keys))
    decreases |loaded|
  {
    hide Serves, Install, Storable, RefOf;
    var first, others, next := loaded[0], loaded[1..], Install(world, st, loaded[0]);
    assert forall k :: k in loaded <==> k == first || k in others;
    if k :| k in others && RefOf(k) == RefOf(keys) {
      AllServed(world, next, others, k);
    } else {
      assert RefOf(first) == RefOf(keys);
      InstalledServes(world, st, first);
      ServesKeptAll(world, next, first, others);
    }
  }

  /** Every file of each of these keys has these contents. */
  ghost predicate AllStoredFrom(world: World, loaded: seq<Keys>, contents: map<string, seq<Byte>>) {
    forall k :: k in loaded ==> Storable(k) && StoredFrom(world, k, contents)
  }

  ghost predicate AllShow(world: World, loaded: seq<Keys>, st: State, contents: map<string, seq<Byte>>) {
    forall k :: k in loaded ==> Shows(world, RefOf(k), st, contents)
  }

  lemma FileDecrypts(world: World, st: State, loaded: seq<Keys>, contents: map<string, seq<Byte>>, p: string)
    requires WorldOk(world) && AllStoredFrom(world, loaded, contents) && p in FilesOfAll(world, loaded)
    ensures p in world.blobs && p in contents
    ensures CheckedOut(world, InstallAll(world, st, loaded), p) == Some(contents[p])
  {
    hide WorldOk, EncryptedFiles, CheckedOut, Serves, Storable, CleanRun, InstallAll, RefOf, SameKeyBothWays,
         FilesOfAll;
    var installed := InstallAll(world, st, loaded);
    FilesOfAllIs(world, loaded, p);
    var keys :| keys in loaded && p in EncryptedFiles(world, RefOf(keys));
    AllServed(world, st, loaded, keys);
    var k :| k in loaded && RefOf(k) == RefOf(keys) && Serves(world, installed, k);
    assert StoredFrom(world, k, contents);
    assert HoldsContents(world, k, world.blobs[p], contents[p]);
    if Clear(world.blobs[p]) && contents[p] == world.blobs[p] {
      ClearChecksOut(world, installed, k, p);
    } else {
      CheckoutDecrypts(world, installed, k, p, contents[p]);
    }
  }

  /**
   Unlocking decrypts: with files encrypted with the keys that are loaded, any number of them, or
   committed in the clear, unlock cannot fail at the checkout and shows the contents of all these files.
   */
  lemma UnlockDecrypts(world: World, st: State, loaded: seq<Keys>, contents: map<string, seq<Byte>>, end: State)
    requires WorldOk(world) && AllStoredFrom(world, loaded, contents)
    ensures AllCheckOut(world, InstallAll(world, st, loaded), FilesOfAll(world, loaded))
    ensures UnlocksTo(world, st, loaded, end) ==> AllShow(world, loaded, end, contents)
  {
    hide WorldOk, EncryptedFiles, CheckedOut, InstallAll, FilesOfAll, AfterCheckout, AllStoredFrom, RefOf;
    var installed := InstallAll(world, st, loaded);
    forall p | p in FilesOfAll(world, loaded)
      ensures p in world.blobs && p in contents && CheckedOut(world, installed, p) == Some(contents[p])
    {
      FileDecrypts(world, st, loaded, contents, p);
    }
    CheckoutIs(world, installed, FilesOfAll(world, loaded));
    forall k, p | k in loaded && p in EncryptedFiles(world, RefOf(k))
      ensures p in FilesOfAll(world, loaded)
    {
      FilesOfAllIs(world, loaded, p);
    }
  }

  lemma {:induction false} OpenableUsable(files: map<Path, GpgFile>, master: map<(string, Word32), Entry>,
                                          usable: set<string>, secretKeys: seq<string>, dirents: seq<string>, k: Keys)
    requires WellShared(files, master) && k in OpenableKeys(files, master, usable, 0, secretKeys, dirents)
    ensures Storable(k) && SameKeyBothWays(k.entries)
    decreases |dirents|
  {
    hide SharedFile;
    var d := dirents[0];
    if k in OpenableKeys(files, master, usable, 0, secretKeys, dirents[1..]) {
      OpenableUsable(files, master, usable, secretKeys, dirents[1..], k);
    } else {
      assert k == RecoveredKeys(master, d, 0);
      hide OpenableKeys, SameKeyBothWays;
      var s :| s in secretKeys && Path(d, 0, s) in files && s in usable;
      assert WellSharedAt(Path(d, 0, s), files[Path(d, 0, s)], master);
      if RefOfDir(d).Some? {
        KeyNameIsText(d);
      }
      OnlyVersionZero(k.entries);
    }
  }

  /**
   From one collaborator to another: with no directory blocked, a key shared by a valid name with
   someone who holds a usable secret key is among those recovered from the repository, and unlocking
   with all of them cannot fail at the checkout and shows the contents of their files.
   */
  lemma SharedKeyUnlocks(world: World, st: State, files: map<Path, GpgFile>, master: map<(string, Word32), Entry>,
                         key: KeyRef, entry: Entry, recipients: seq<string>, usable: set<string>,
                         secretKeys: seq<string>, dirents: seq<string>, f: string, contents: map<string, seq<Byte>>,
                         end: State)
    requires WorldOk(world) && WellShared(files, master) && ArgumentRef(key) && key != Some("") && entry.version == 0
    requires (DirName(key), 0) in master && master[(DirName(key), 0)] == entry
    requires f in recipients && f in secretKeys && f in usable && DirName(key) in dirents
    ensures var shared := ShareAll(files, key, entry, recipients);
            var loaded := OpenableKeys(shared, master, usable, 0, secretKeys, dirents);
            ValidRef(key) && !SomeBlocked(shared, usable, 0, secretKeys, dirents) ==>
              && DecryptAll(shared, usable, 0, secretKeys, dirents) == AllRecovered(loaded)
              && OneEntry(key, entry) in loaded
              && ((forall k :: k in loaded ==> StoredFrom(world, k, contents)) ==>
                    && AllCheckOut(world, InstallAll(world, st, loaded), FilesOfAll(world, loaded))
                    && (UnlocksTo(world, st, loaded, end) ==> AllShow(world, loaded, end, contents)))
    ensures var all := DecryptAll(ShareAll(files, key, entry, recipients), usable, 0, secretKeys, dirents);
            !ValidRef(key) && all.AllRecovered? ==> OneEntry(key, entry) !in all.keys
  {
    hide WorldOk, WellShared, StoredFrom, UnlocksTo, DecryptAll, ShareAll, Storable, AllCheckOut, OpenableKeys,
         SomeBlocked, SameKeyBothWays, AllShow, InstallAll, FilesOfAll, ValidRef;
    var shared := ShareAll(files, key, entry, recipients);
    var loaded := OpenableKeys(shared, master, usable, 0, secretKeys, dirents);
    SharingRoundTrip(files, master, key, entry, recipients, usable, secretKeys, dirents, f);
    if ValidRef(key) {
      ShareKeeps(files, master, key, entry, recipients);
      DecryptAllExact(shared, master, usable, 0, secretKeys, dirents);
      forall k | k in loaded
        ensures Storable(k) && SameKeyBothWays(k.entries)
      {
        OpenableUsable(shared, master, usable, secretKeys, dirents, k);
      }
      if forall k :: k in loaded ==> StoredFrom(world, k, contents) {
        UnlockDecrypts(world, st, loaded, contents, end);
      }
    }
  }
}
