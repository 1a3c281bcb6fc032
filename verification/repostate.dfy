/**
 The state of a repository that git-crypt changes, what git makes of it, and what a successful
 unlock or lock does to it.
 */
module RepoState {
  import opened Basics
  import opened Bytes
  import opened Crypto
  import opened KeyFormat
  import opened KeyTheorems
  import opened Filters
  import opened FilterCommands
  import opened Sharing
  import opened Listing

  /** A variable of the git configuration. */
  datatype ConfigName = ConfigName(section: string, variable: string)

  /**
   What stays as it is: the primitives, the program's path, how git answers attribute queries and
   prints names, the index, the attributes and the blobs.
   */
  datatype World = World(suite: Suite, exe: string, checkAttrStdin: bool, printed: string -> string,
                         index: seq<IndexEntry>, attributes: string -> Attributes, blobs: map<string, seq<Byte>>)

  /** What changes: the installed key files, the git configuration and the files in the work tree. */
  datatype State = State(keys: map<string, seq<Byte>>, config: map<ConfigName, string>,
                         workTree: map<string, seq<Byte>>)

  /** Git's side: every file in the index has a blob, and names and attributes survive being printed. */
  ghost predicate WorldOk(world: World) {
    && (forall e :: e in world.index ==>
          Printable(e) && !LeadingBlank(e.name) && e.name in world.blobs)
    && (forall name :: PrintableAttributes(world.attributes(name)) && '\n' !in world.printed(name))
  }

  function EncryptedFiles(world: World, key: KeyRef): seq<string> {
    Encrypted(world.index, world.attributes, AttributeName(key))
  }

  // ------------------------------------------------------- configuration

  function FilterSection(key: KeyRef): string { "filter." + AttributeName(key) }
  function DiffSection(key: KeyRef): string { "diff." + AttributeName(key) }

  function FilterEntries(exe: string, key: KeyRef): map<ConfigName, string> {
    map[ConfigName(FilterSection(key), "smudge") := FilterCommand(exe, "smudge", key),
        ConfigName(FilterSection(key), "clean") := FilterCommand(exe, "clean", key),
        ConfigName(FilterSection(key), "required") := "true",
        ConfigName(DiffSection(key), "textconv") := FilterCommand(exe, "diff", key)]
  }

  /** Sections of different keys, and of the two kinds, are different. */
  lemma SectionsDiffer(a: KeyRef, b: KeyRef)
    ensures FilterSection(a) == FilterSection(b) <==> a == b
    ensures DiffSection(a) == DiffSection(b) <==> a == b
    ensures FilterSection(a) != DiffSection(b)
  {
    AttributeNameInjective(a, b);
    assert FilterSection(a)[7..] == AttributeName(a) && FilterSection(b)[7..] == AttributeName(b);
    assert DiffSection(a)[5..] == AttributeName(a) && DiffSection(b)[5..] == AttributeName(b);
    assert FilterSection(a)[0] == 'f' && DiffSection(b)[0] == 'd';
  }

  /**
   The four variables by their names: git is told to run the three subcommands for exactly this key,
   and that the filter is required.
   */
  lemma ConfiguredVariables(exe: string, key: KeyRef)
    requires ValidRef(key)
    ensures var filter := if key.None? then "filter.git-crypt" else "filter.git-crypt-" + key.value;
            var diff := if key.None? then "diff.git-crypt" else "diff.git-crypt-" + key.value;
            var entries := FilterEntries(exe, key);
            && entries.Keys == {ConfigName(filter, "smudge"), ConfigName(filter, "clean"),
                                ConfigName(filter, "required"), ConfigName(diff, "textconv")}
            && Starts(entries[ConfigName(filter, "smudge")], exe, "smudge", key)
            && Starts(entries[ConfigName(filter, "clean")], exe, "clean", key)
            && entries[ConfigName(filter, "required")] == "true"
            && Starts(entries[ConfigName(diff, "textconv")], exe, "diff", key)
  {
    hide FilterCommand, Invoked;
    SectionNames(key);
    CommandReachesKey(exe, "smudge", key);
    CommandReachesKey(exe, "clean", key);
    CommandReachesKey(exe, "diff", key);
  }

  /** The shell starts the program with this subcommand for this key. */
  predicate Starts(command: string, exe: string, subcommand: string, key: KeyRef) {
    Invoked(command) == Some(Invocation(exe, subcommand, Plumbing(key, None, [])))
  }

  lemma SectionNames(key: KeyRef)
    ensures FilterSection(key) == if key.None? then "filter.git-crypt" else "filter.git-crypt-" + key.value
    ensures DiffSection(key) == if key.None? then "diff.git-crypt" else "diff.git-crypt-" + key.value
  {
    assert "filter." + "git-crypt" == "filter.git-crypt" && "diff." + "git-crypt" == "diff.git-crypt";
    assert "filter." + "git-crypt-" == "filter.git-crypt-" && "diff." + "git-crypt-" == "diff.git-crypt-";
    if key.Some? {
      assert "filter." + ("git-crypt-" + key.value) == "filter." + "git-crypt-" + key.value;
      assert "diff." + ("git-crypt-" + key.value) == "diff." + "git-crypt-" + key.value;
    }
  }

  /** Any part of the filter of a key is configured. */
  predicate Configured(config: map<ConfigName, string>, key: KeyRef) {
    || ConfigName(FilterSection(key), "smudge") in config
    || ConfigName(FilterSection(key), "clean") in config
    || ConfigName(FilterSection(key), "required") in config
  }

  /** Deconfiguring the filters of a key takes this variable away: whole sections go. */
  predicate Removed(config: map<ConfigName, string>, key: KeyRef, n: ConfigName) {
    || (n.section == FilterSection(key) && Configured(config, key))
    || (n.section == DiffSection(key) && ConfigName(DiffSection(key), "textconv") in config)
  }

  function Deconfigured(config: map<ConfigName, string>, key: KeyRef): map<ConfigName, string> {
    map n | n in config && !Removed(config, key, n) :: config[n]
  }

  /**
   Deconfiguring takes the filter section away as soon as one of its three variables is there, and
   the diff section with its variable; otherwise each stays, and so does everything else.
   */
  lemma DeconfiguredIs(config: map<ConfigName, string>, key: KeyRef, n: ConfigName)
    ensures var filter := if key.None? then "filter.git-crypt" else "filter.git-crypt-" + key.value;
            var diff := if key.None? then "diff.git-crypt" else "diff.git-crypt-" + key.value;
            var end := Deconfigured(config, key);
            && (n in end ==> n in config && end[n] == config[n])
            && (n in config && n !in end <==>
                  && n in config
                  && (|| (n.section == filter && exists v :: v in {"smudge", "clean", "required"}
                                                             && ConfigName(filter, v) in config)
                      || (n.section == diff && ConfigName(diff, "textconv") in config)))
  {
    SectionNames(key);
    hide FilterSection, DiffSection;
  }

  // ------------------------------------------------------------- checkout

  /**
   The key file that a configured command loads when git runs it with the given subcommand; none if
   it is not such a command, or if the key file is missing or does not load.
   */
  function LoadFor(world: World, keys: map<string, seq<Byte>>, command: string, subcommand: string): Option<Keys> {
    match Invoked(command)
    case None => None
    case Some(inv) =>
      if inv.program != world.exe || inv.subcommand != subcommand || inv.plumbing.BadUsage?
         || inv.plumbing.operands != [] || inv.plumbing.keyFile.Some?
         || DirName(inv.plumbing.keyName) !in keys then None
      else
        var loaded := LoadKeys(keys[DirName(inv.plumbing.keyName)]);
        if loaded.outcome.Ok? then Some(loaded.value) else None
  }

  /** The output of the configured smudge command for a blob; none if it fails. */
  function RunSmudge(world: World, keys: map<string, seq<Byte>>, command: string, blob: seq<Byte>): Option<seq<Byte>> {
    match LoadFor(world, keys, command, "smudge")
    case None => None
    case Some(loaded) =>
      var run := SmudgeRun(world.suite, loaded.entries, blob);
      if run.exit == Exit(0) then Some(run.output) else None
  }

  /** The output of the configured clean command for the contents of a file; none if it fails. */
  ghost function RunClean(world: World, keys: map<string, seq<Byte>>, command: string, x: seq<Byte>): Option<seq<Byte>>
  {
    match LoadFor(world, keys, command, "clean")
    case None => None
    case Some(loaded) =>
      var run := CleanRun(world.suite, loaded.entries, x);
      if run.exit == Exit(0) then Some(run.output) else None
  }

  /** What git writes for a file: through its filter if there is one; none if a required one fails or is missing. */
  function CheckedOut(world: World, st: State, name: string): Option<seq<Byte>>
    requires name in world.blobs
  {
    var blob := world.blobs[name];
    var section := "filter." + Effective(world.attributes(name).filter);
    var (smudge, required) := (ConfigName(section, "smudge"), ConfigName(section, "required"));
    var filtered := if smudge in st.config then RunSmudge(world, st.keys, st.config[smudge], blob) else None;
    if filtered.Some? then filtered
    else if required in st.config && st.config[required] == "true" then None
    else Some(blob)
  }

  /** What git would store for a file of the work tree; none if a required filter fails or is missing. */
  ghost function Cleaned(world: World, st: State, name: string): Option<seq<Byte>>
    requires name in st.workTree
  {
    var contents, section := st.workTree[name], "filter." + Effective(world.attributes(name).filter);
    var (clean, required) := (ConfigName(section, "clean"), ConfigName(section, "required"));
    var filtered := if clean in st.config then RunClean(world, st.keys, st.config[clean], contents) else None;
    if filtered.Some? then filtered
    else if required in st.config && st.config[required] == "true" then None
    else Some(contents)
  }

  /** To git a file has changed if it is gone, or if what it would store for it is not what it has stored. */
  ghost predicate Changed(world: World, st: State, name: string) {
    name in world.blobs && (name !in st.workTree || Cleaned(world, st, name) != Some(world.blobs[name]))
  }

  ghost predicate SomeChanged(world: World, st: State, key: KeyRef) {
    exists p :: p in EncryptedFiles(world, key) && Changed(world, st, p)
  }

  predicate AllLookEncrypted(world: World, key: KeyRef) {
    forall p :: p in EncryptedFiles(world, key) && p in world.blobs ==> LooksEncrypted(world.blobs[p])
  }

  lemma SameCheckout(world: World, a: State, b: State, name: string)
    requires name in world.blobs && a.keys == b.keys && a.config == b.config
    ensures CheckedOut(world, a, name) == CheckedOut(world, b, name)
  {
  }

  predicate AllCheckOut(world: World, st: State, names: seq<string>) {
    forall p :: p in names ==> p in world.blobs && CheckedOut(world, st, p).Some?
  }

  function AfterCheckout(world: World, st: State, names: seq<string>): State
    requires AllCheckOut(world, st, names)
  {
    st.(workTree := map p | p in st.workTree.Keys + (set q | q in names) ::
                      if p in names then CheckedOut(world, st, p).value else st.workTree[p])
  }

  lemma CheckoutAfter(world: World, st: State, a: seq<string>, name: string)
    requires AllCheckOut(world, st, a) && name in world.blobs
    ensures CheckedOut(world, AfterCheckout(world, st, a), name) == CheckedOut(world, st, name)
  {
    hide CheckedOut;
    SameCheckout(world, AfterCheckout(world, st, a), st, name);
  }

  /** Checking out in two goes is checking out everything, because only the work tree changes. */
  lemma CheckoutTwice(world: World, st: State, a: seq<string>, b: seq<string>)
    requires AllCheckOut(world, st, a)
    ensures AllCheckOut(world, AfterCheckout(world, st, a), b) == AllCheckOut(world, st, b)
            == AllCheckOut(world, st, a + b)
    ensures AllCheckOut(world, st, b) ==>
              AfterCheckout(world, AfterCheckout(world, st, a), b) == AfterCheckout(world, st, a + b)
  {
    hide CheckedOut, AfterCheckout;
    var mid := AfterCheckout(world, st, a);
    forall p | p in world.blobs
      ensures CheckedOut(world, mid, p) == CheckedOut(world, st, p)
    {
      CheckoutAfter(world, st, a, p);
    }
    assert forall p :: p in a + b <==> p in a || p in b;
    if AllCheckOut(world, st, b) {
      CheckoutTogether(world, st, a, b);
    }
  }

  lemma CheckoutTogether(world: World, st: State, a: seq<string>, b: seq<string>)
    requires AllCheckOut(world, st, a) && AllCheckOut(world, st, b) && AllCheckOut(world, st, a + b)
    requires AllCheckOut(world, AfterCheckout(world, st, a), b)
    ensures AfterCheckout(world, AfterCheckout(world, st, a), b) == AfterCheckout(world, st, a + b)
  {
    hide CheckedOut, AfterCheckout, AllCheckOut;
    var mid := AfterCheckout(world, st, a);
    var twice, once := AfterCheckout(world, mid, b), AfterCheckout(world, st, a + b);
    CheckoutIs(world, st, a);
    CheckoutIs(world, mid, b);
    CheckoutIs(world, st, a + b);
    forall p: string
      ensures p in twice.workTree <==> p in once.workTree
      ensures p in twice.workTree ==> twice.workTree[p] == once.workTree[p]
    {
      assert p in a + b <==> p in a || p in b;
      if p in a + b {
        CheckoutAfter(world, st, a, p);
      }
    }
    assert twice.workTree == once.workTree;
  }

  lemma CheckoutIs(world: World, st: State, names: seq<string>)
    requires AllCheckOut(world, st, names)
    ensures var end := AfterCheckout(world, st, names);
            && end.keys == st.keys && end.config == st.config
            && (forall p :: p in names ==>
                  p in world.blobs && CheckedOut(world, st, p).Some?
                  && p in end.workTree && end.workTree[p] == CheckedOut(world, st, p).value)
            && (forall p :: p !in names ==>
                  (p in end.workTree <==> p in st.workTree)
                      && (p in end.workTree ==> end.workTree[p] == st.workTree[p]))
  {
    hide CheckedOut;
  }

  // --------------------------------------------------- the invariant of runs

  /** Every configured filter runs our smudge for a valid key name whose key file is installed and loads. */
  ghost predicate Sound(world: World, st: State) {
    forall key: KeyRef :: Configured(st.config, key) ==> SoundFor(world, st, key)
  }

  /** The same, but for one key. */
  ghost predicate SoundExcept(world: World, st: State, except: KeyRef) {
    forall key: KeyRef :: key != except && Configured(st.config, key) ==> SoundFor(world, st, key)
  }

  ghost predicate SoundFor(world: World, st: State, key: KeyRef) {
    && ValidRef(key) && DirName(key) in st.keys && LoadKeys(st.keys[DirName(key)]).outcome.Ok?
    && (ConfigName(FilterSection(key), "smudge") in st.config ==>
          st.config[ConfigName(FilterSection(key), "smudge")] == FilterCommand(world.exe, "smudge", key))
  }

  // ------------------------------------------------------ unlock and lock

  /** Keys as they come from a key file. */
  ghost predicate Storable(keys: Keys) {
    LoadableName(keys.name) && Filed(keys.entries)
  }

  function RefOf(keys: Keys): KeyRef {
    ReportedName(keys.name)
  }

  ghost function Install(world: World, st: State, keys: Keys): State {
    State(st.keys[DirName(RefOf(keys)) := StoreKeys(keys)],
          st.config + FilterEntries(world.exe, RefOf(keys)), st.workTree)
  }

  ghost function InstallAll(world: World, st: State, loaded: seq<Keys>): State
    decreases |loaded|
  {
    if loaded == [] then st else InstallAll(world, Install(world, st, loaded[0]), loaded[1..])
  }

  function FilesOfAll(world: World, loaded: seq<Keys>): seq<string> {
    if loaded == [] then [] else EncryptedFiles(world, RefOf(loaded[0])) + FilesOfAll(world, loaded[1..])
  }

  /** The keys are gone and so is their configuration; nothing has been checked out yet. */
  function RemoveKey(st: State, key: KeyRef): State {
    st.(keys := st.keys - {DirName(key)}, config := Deconfigured(st.config, key))
  }

  /** An unlock with these keys that succeeds. */
  ghost predicate UnlocksTo(world: World, st: State, loaded: seq<Keys>, end: State) {
    var installed := InstallAll(world, st, loaded);
    AllCheckOut(world, installed, FilesOfAll(world, loaded))
    && end == AfterCheckout(world, installed, FilesOfAll(world, loaded))
  }

  /** A lock of one key that succeeds. */
  ghost predicate LocksTo(world: World, st: State, key: KeyRef, end: State) {
    var removed := RemoveKey(st, key);
    AllCheckOut(world, removed, EncryptedFiles(world, key))
    && end == AfterCheckout(world, removed, EncryptedFiles(world, key))
  }

  /** All keys of the given directory entries are gone. */
  function RemoveKeys(st: State, dirents: seq<string>): State
    decreases |dirents|
  {
    if dirents == [] then st else RemoveKeys(RemoveKey(st, RefOfDir(dirents[0])), dirents[1..])
  }

  function FilesOfDirs(world: World, dirents: seq<string>): seq<string> {
    if dirents == [] then []
    else EncryptedFiles(world, RefOfDir(dirents[0])) + FilesOfDirs(world, dirents[1..])
  }

  /** A lock of all keys that succeeds; the entries are those of the key directory. */
  ghost predicate LocksAllTo(world: World, st: State, dirents: seq<string>, end: State) {
    var removed := RemoveKeys(st, dirents);
    && (forall d :: d in dirents <==> d in st.keys)
    && AllCheckOut(world, removed, FilesOfDirs(world, dirents))
    && end == AfterCheckout(world, removed, FilesOfDirs(world, dirents))
  }

  // ---------------------------------------------------- basic facts

  lemma {:induction false} EncryptedAre(index: seq<IndexEntry>, attributes: string -> Attributes, filter: string,
                                        name: string)
    requires name in Encrypted(index, attributes, filter)
    ensures Effective(attributes(name).filter) == filter
    ensures exists e :: e in index && e.name == name
  {
    if name in Encrypted(index[1..], attributes, filter) {
      EncryptedAre(index[1..], attributes, filter, name);
      var e :| e in index[1..] && e.name == name;
      assert e in index;
    } else {
      assert index[0] in index;
    }
  }

  lemma EncryptedInWorld(world: World, key: KeyRef, name: string)
    requires WorldOk(world) && name in EncryptedFiles(world, key)
    ensures name in world.blobs && Effective(world.attributes(name).filter) == AttributeName(key)
  {
    EncryptedAre(world.index, world.attributes, AttributeName(key), name);
  }

  /** Once the filter of a key is gone, its files come out as they are in the repository. */
  lemma RemovedChecksOutRaw(world: World, st: State, key: KeyRef, name: string)
    requires WorldOk(world) && name in EncryptedFiles(world, key)
    ensures name in world.blobs && CheckedOut(world, RemoveKey(st, key), name) == Some(world.blobs[name])
  {
    EncryptedInWorld(world, key, name);
    assert "filter." + AttributeName(key) == FilterSection(key);
    assert ConfigName(FilterSection(key), "smudge") !in Deconfigured(st.config, key);
    assert ConfigName(FilterSection(key), "required") !in Deconfigured(st.config, key);
  }

  /** Locking a key never fails at the checkout. */
  lemma LockChecksOut(world: World, st: State, key: KeyRef)
    requires WorldOk(world)
    ensures AllCheckOut(world, RemoveKey(st, key), EncryptedFiles(world, key))
  {
    forall p | p in EncryptedFiles(world, key)
      ensures p in world.blobs && CheckedOut(world, RemoveKey(st, key), p).Some?
    {
      RemovedChecksOutRaw(world, st, key, p);
    }
  }

  lemma LoadedRefIsValid(keys: Keys)
    requires Storable(keys)
    ensures ValidRef(RefOf(keys))
  {
  }

  /** Installing a key establishes the invariant if it held for all others. */
  lemma InstallRestores(world: World, st: State, keys: Keys)
    requires SoundExcept(world, st, RefOf(keys)) && Storable(keys)
    ensures Sound(world, Install(world, st, keys))
  {
    hide Storable;
    InstallKeepsExcept(world, st, keys, RefOf(keys));
    InstalledSound(world, st, keys);
    hide SoundFor, Install;
  }

  /** Installing a key keeps the invariant, and the invariant for all keys but one. */
  lemma InstallKeepsExcept(world: World, st: State, keys: Keys, except: KeyRef)
    requires SoundExcept(world, st, except) && Storable(keys)
    ensures SoundExcept(world, Install(world, st, keys), except)
  {
    hide LoadKeys, StoreKeys, FilterCommand, Storable;
    var ref, end := RefOf(keys), Install(world, st, keys);
    InstalledSound(world, st, keys);
    forall key: KeyRef | key != except && Configured(end.config, key)
      ensures SoundFor(world, end, key)
    {
      if key != ref {
        OthersConfigured(st.config, world.exe, ref, key);
        assert SoundFor(world, st, key);
      }
    }
  }

  lemma InstallSound(world: World, st: State, keys: Keys)
    requires Sound(world, st) && Storable(keys)
    ensures Sound(world, Install(world, st, keys))
  {
    hide SoundFor, Storable, Install;
    InstallRestores(world, st, keys);
  }

  /** Some of these keys is the only one for which the invariant may not hold. */
  ghost predicate Repairs(world: World, st: State, loaded: seq<Keys>) {
    exists k :: k in loaded && SoundExcept(world, st, RefOf(k))
  }

  lemma {:induction false} InstallAllRestores(world: World, st: State, loaded: seq<Keys>)
    requires forall k :: k in loaded ==> Storable(k)
    requires Sound(world, st) || Repairs(world, st, loaded)
    ensures Sound(world, InstallAll(world, st, loaded))
    decreases |loaded|
  {
    hide SoundFor, Sound, SoundExcept, Storable, Install, RefOf;
    if loaded != [] {
      var first, others, next := loaded[0], loaded[1..], Install(world, st, loaded[0]);
      assert forall k :: k in loaded <==> k == first || k in others;
      if Sound(world, st) {
        InstallSound(world, st, first);
      } else if SoundExcept(world, st, RefOf(first)) {
        InstallRestores(world, st, first);
      } else {
        var k :| k in others && SoundExcept(world, st, RefOf(k));
        InstallKeepsExcept(world, st, first, RefOf(k));
      }
      InstallAllRestores(world, next, others);
    }
  }

  lemma InstalledSound(world: World, st: State, keys: Keys)
    requires Storable(keys)
    ensures SoundFor(world, Install(world, st, keys), RefOf(keys))
  {
    hide LoadKeys, StoreKeys, FilterCommand;
    StoreThenLoad(keys);
    SectionsDiffer(RefOf(keys), RefOf(keys));
  }

  lemma OthersConfigured(config: map<ConfigName, string>, exe: string, ref: KeyRef, key: KeyRef)
    requires key != ref
    ensures var c := config + FilterEntries(exe, ref); var smudge := ConfigName(FilterSection(key), "smudge");
            && Configured(c, key) == Configured(config, key)
            && (smudge in c <==> smudge in config) && (smudge in c ==> c[smudge] == config[smudge])
  {
    hide FilterCommand;
    SectionsDiffer(key, ref);
  }

  /**
   Removing the key a lock was asked for keeps the invariant, except when the name given is
   "default" while the default key is configured: then the key file of the default key goes, but
   the filter of a key named "default" is deconfigured.
   */
  lemma RemoveKeySound(world: World, st: State, key: KeyRef)
    requires Sound(world, st)
    ensures Sound(world, RemoveKey(st, key)) <==> !(key == Some("default") && Configured(st.config, None))
  {
    hide LoadKeys, FilterCommand;
    var end := RemoveKey(st, key);
    if key == Some("default") && Configured(st.config, None) {
      SectionsDiffer(None, key);
      assert Configured(end.config, None);
      assert !SoundFor(world, end, None);
    } else {
      forall k: KeyRef | Configured(end.config, k)
        ensures SoundFor(world, end, k)
      {
        SectionsDiffer(k, key);
        assert Configured(st.config, k) && SoundFor(world, st, k);
        assert k != key;
        assert DirName(k) != DirName(key);
      }
    }
  }

  // ------------------------------------------------- one more of a list

  lemma {:induction false} InstallOneMore(world: World, st: State, loaded: seq<Keys>, i: nat)
    requires i < |loaded|
    ensures InstallAll(world, st, loaded[..i + 1]) == Install(world, InstallAll(world, st, loaded[..i]), loaded[i])
    decreases i
  {
    hide Install;
    var next := Install(world, st, loaded[0]);
    assert loaded[..i + 1][1..] == loaded[1..][..i];
    if i == 0 {
      assert InstallAll(world, next, []) == next;
    } else {
      assert loaded[..i][1..] == loaded[1..][..i - 1];
      InstallOneMore(world, next, loaded[1..], i - 1);
    }
  }

  lemma {:induction false} FilesOneMore(world: World, loaded: seq<Keys>, i: nat)
    requires i < |loaded|
    ensures FilesOfAll(world, loaded[..i + 1]) == FilesOfAll(world, loaded[..i])
            + EncryptedFiles(world, RefOf(loaded[i]))
    decreases i
  {
    hide EncryptedFiles;
    assert loaded[..i + 1][1..] == loaded[1..][..i];
    if i > 0 {
      assert loaded[..i][1..] == loaded[1..][..i - 1];
      FilesOneMore(world, loaded[1..], i - 1);
      Assoc(EncryptedFiles(world, RefOf(loaded[0])), FilesOfAll(world, loaded[1..][..i - 1]),
            EncryptedFiles(world, RefOf(loaded[i])));
    } else {
      assert FilesOfAll(world, loaded[..1]) == EncryptedFiles(world, RefOf(loaded[0])) + [];
    }
  }

  lemma {:induction false} RemoveOneMore(st: State, dirents: seq<string>, i: nat)
    requires i < |dirents|
    ensures RemoveKeys(st, dirents[..i + 1]) == RemoveKey(RemoveKeys(st, dirents[..i]), RefOfDir(dirents[i]))
    decreases i
  {
    hide RemoveKey;
    var next := RemoveKey(st, RefOfDir(dirents[0]));
    assert dirents[..i + 1][1..] == dirents[1..][..i];
    if i == 0 {
      assert RemoveKeys(next, []) == next;
    } else {
      assert dirents[..i][1..] == dirents[1..][..i - 1];
      RemoveOneMore(next, dirents[1..], i - 1);
    }
  }

  lemma {:induction false} DirFilesOneMore(world: World, dirents: seq<string>, i: nat)
    requires i < |dirents|
    ensures FilesOfDirs(world, dirents[..i + 1])
         == FilesOfDirs(world, dirents[..i]) + EncryptedFiles(world, RefOfDir(dirents[i]))
    decreases i
  {
    hide EncryptedFiles;
    assert dirents[..i + 1][1..] == dirents[1..][..i];
    if i > 0 {
      assert dirents[..i][1..] == dirents[1..][..i - 1];
      DirFilesOneMore(world, dirents[1..], i - 1);
      Assoc(EncryptedFiles(world, RefOfDir(dirents[0])), FilesOfDirs(world, dirents[1..][..i - 1]),
            EncryptedFiles(world, RefOfDir(dirents[i])));
    } else {
      assert FilesOfDirs(world, dirents[..1]) == EncryptedFiles(world, RefOfDir(dirents[0])) + [];
    }
  }

  /** Once any key of a list has been removed, the later removals do not bring its filter back. */
  lemma {:induction false} RemovedStaysRaw(world: World, st: State, dirents: seq<string>, name: string)
    requires WorldOk(world) && name in FilesOfDirs(world, dirents)
    ensures name in world.blobs && CheckedOut(world, RemoveKeys(st, dirents), name) == Some(world.blobs[name])
    decreases |dirents|
  {
    var key := RefOfDir(dirents[0]);
    if name in EncryptedFiles(world, key) {
      EncryptedInWorld(world, key, name);
      assert "filter." + AttributeName(key) == FilterSection(key);
      assert ConfigName(FilterSection(key), "smudge") !in RemoveKey(st, key).config;
      assert ConfigName(FilterSection(key), "required") !in RemoveKey(st, key).config;
      RemovalsOnly(RemoveKey(st, key), dirents[1..], ConfigName(FilterSection(key), "smudge"));
      RemovalsOnly(RemoveKey(st, key), dirents[1..], ConfigName(FilterSection(key), "required"));
    } else {
      RemovedStaysRaw(world, RemoveKey(st, key), dirents[1..], name);
    }
  }

  lemma {:induction false} RemovalsOnly(st: State, dirents: seq<string>, n: ConfigName)
    requires n !in st.config
    ensures n !in RemoveKeys(st, dirents).config
    decreases |dirents|
  {
    if dirents != [] {
      RemovalsOnly(RemoveKey(st, RefOfDir(dirents[0])), dirents[1..], n);
    }
  }

  /** Locking all keys never fails at the checkout either. */
  lemma LockAllChecksOut(world: World, st: State, dirents: seq<string>)
    requires WorldOk(world)
    ensures AllCheckOut(world, RemoveKeys(st, dirents), FilesOfDirs(world, dirents))
  {
    forall p | p in FilesOfDirs(world, dirents)
      ensures p in world.blobs && CheckedOut(world, RemoveKeys(st, dirents), p).Some?
    {
      RemovedStaysRaw(world, st, dirents, p);
    }
  }
}
