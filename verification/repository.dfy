/** The commands init, unlock and lock, step by step, with git's configuration calls free to fail. */
module Repositories {
  import opened Basics
  import opened Bytes
  import opened Crypto
  import opened Streams
  import opened KeyFormat
  import opened KeyTheorems
  import opened KeyFiles
  import opened FilterTheorems
  import opened FilterCommands
  import opened Sharing
  import opened Listing
  import opened RepoState
  import opened RepoTheorems
  import ShellQuoting

  datatype Error = InvalidKeyName | ConfigFailed | ShareError(found: Found)

  /** A command returns an exit status or throws. */
  datatype Ending = Returned(status: int) | Threw(error: Error)

  const GIT_CHECKOUT_BATCH_SIZE := 100

  /** A configuration on the way from one to another: every variable is as before or as intended. */
  ghost predicate Between(config: map<ConfigName, string>, before: map<ConfigName, string>,
                          added: map<ConfigName, string>)
  {
    && (forall n :: n in before ==> n in config)
    && (forall n :: n in config ==>
          (n in before && config[n] == before[n]) || (n in added && config[n] == added[n]))
  }

  function Without(config: map<ConfigName, string>, section: string): map<ConfigName, string> {
    map n | n in config && n.section != section :: config[n]
  }

  lemma BetweenStep(config: map<ConfigName, string>, before: map<ConfigName, string>, added: map<ConfigName, string>,
                    n: ConfigName)
    requires Between(config, before, added) && n in added
    ensures Between(config[n := added[n]], before, added)
  {
  }

  lemma BetweenAll(config: map<ConfigName, string>, before: map<ConfigName, string>, added: map<ConfigName, string>)
    requires Between(config, before, added)
    requires forall n :: n in added ==> n in config && config[n] == added[n]
    ensures config == before + added
  {
  }

  lemma EntriesAre(exe: string, key: KeyRef)
    ensures var added := FilterEntries(exe, key);
            var smudge, clean := ConfigName(FilterSection(key), "smudge"), ConfigName(FilterSection(key), "clean");
            var required := ConfigName(FilterSection(key), "required");
            var textconv := ConfigName(DiffSection(key), "textconv");
            && added.Keys == {smudge, clean, required, textconv}
            && added[smudge] == FilterCommand(exe, "smudge", key) && added[clean] == FilterCommand(exe, "clean", key)
            && added[required] == "true" && added[textconv] == FilterCommand(exe, "diff", key)
  {
    hide FilterCommand;
    SectionsDiffer(key, key);
  }

  /** A partly configured filter is no threat to the invariant if its key is installed. */
  lemma PartlyConfiguredSound(world: World, st: State, keys: Keys, config: map<ConfigName, string>)
    requires Sound(world, st) && Storable(keys)
    requires Between(config, st.config, FilterEntries(world.exe, RefOf(keys)))
    ensures Sound(world, Install(world, st, keys).(config := config))
  {
    hide LoadKeys, StoreKeys, FilterCommand, Storable, SoundFor, Between;
    var ref, end := RefOf(keys), Install(world, st, keys).(config := config);
    forall key: KeyRef | Configured(end.config, key)
      ensures SoundFor(world, end, key)
    {
      if key == ref {
        PartlyConfiguredOwn(world, st, keys, config);
      } else {
        PartlyConfiguredOther(world, st, keys, config, key);
      }
    }
  }

  lemma PartlyConfiguredOther(world: World, st: State, keys: Keys, config: map<ConfigName, string>, key: KeyRef)
    requires Sound(world, st) && Storable(keys) && key != RefOf(keys) && Configured(config, key)
    requires Between(config, st.config, FilterEntries(world.exe, RefOf(keys)))
    ensures SoundFor(world, Install(world, st, keys).(config := config), key)
  {
    hide LoadKeys, StoreKeys, FilterCommand, FilterEntries, FilterSection;
    var ref := RefOf(keys);
    NotAdded(world.exe, ref, key, "smudge");
    NotAdded(world.exe, ref, key, "clean");
    NotAdded(world.exe, ref, key, "required");
    assert Configured(st.config, key) && SoundFor(world, st, key);
    LoadedRefIsValid(keys);
    assert DirName(key) != DirName(ref);
  }

  lemma NotAdded(exe: string, ref: KeyRef, key: KeyRef, variable: string)
    requires key != ref
    ensures ConfigName(FilterSection(key), variable) !in FilterEntries(exe, ref)
  {
    hide FilterCommand;
    SectionsDiffer(key, ref);
  }

  lemma PartlyConfiguredOwn(world: World, st: State, keys: Keys, config: map<ConfigName, string>)
    requires Sound(world, st) && Storable(keys)
    requires Between(config, st.config, FilterEntries(world.exe, RefOf(keys)))
    ensures SoundFor(world, Install(world, st, keys).(config := config), RefOf(keys))
  {
    hide LoadKeys, StoreKeys, FilterCommand;
    var ref := RefOf(keys);
    InstalledSound(world, st, keys);
    SectionsDiffer(ref, ref);
    if ConfigName(FilterSection(ref), "smudge") in st.config {
      assert Configured(st.config, ref) && SoundFor(world, st, ref);
    }
  }

  // ------------------------------------- what a command leaves behind when it fails

  /** With these keys installed, some file of theirs does not check out. */
  ghost predicate UnlockFails(world: World, st: State, loaded: seq<Keys>) {
    !AllCheckOut(world, InstallAll(world, st, loaded), FilesOfAll(world, loaded))
  }

  /** Installing stopped at the n-th key: its key file is there, its configuration perhaps in part. */
  ghost predicate InstallStopped(world: World, st: State, loaded: seq<Keys>, n: int, end: State) {
    && 0 <= n < |loaded| && end.workTree == st.workTree
    && end.keys == InstallAll(world, st, loaded[..n + 1]).keys
    && Between(end.config, InstallAll(world, st, loaded[..n]).config, FilterEntries(world.exe, RefOf(loaded[n])))
  }

  /** Removing a key stopped: its key file is gone, of its configuration at most the filter section. */
  ghost predicate RemovalStopped(st: State, key: KeyRef, end: State) {
    && end.keys == st.keys - {DirName(key)} && end.workTree == st.workTree
    && (end.config == st.config || end.config == Without(st.config, FilterSection(key)))
  }

  /** Removing all keys, in this order, stopped at the last one of these. */
  ghost predicate RemovalsStopped(st: State, dirents: seq<string>, end: State) {
    var n := |dirents| - 1;
    n >= 0 && RemovalStopped(RemoveKeys(st, dirents[..n]), RefOfDir(dirents[n]), end)
  }

  ghost predicate Loadable(args: seq<Option<seq<Byte>>>) {
    forall a :: a in args ==> a.Some? && LoadKeys(a.value).outcome.Ok?
  }

  class Repository {
    const world: World
    var keys: map<string, seq<Byte>>
    var config: map<ConfigName, string>
    var workTree: map<string, seq<Byte>>

    ghost var checkoutsSound: bool   // the invariant has held at every checkout so far
    ghost var gitFailed: bool        // a call for git's configuration has failed

    ghost function Now(): State
      reads this
    {
      State(keys, config, workTree)
    }

    constructor (world: World, state: State)
      ensures this.world == world && Now() == state && checkoutsSound && !gitFailed
    {
      this.world := world;
      keys, config, workTree := state.keys, state.config, state.workTree;
      checkoutsSound, gitFailed := true, false;
    }

    // ------------------------------------------------------ git config

    method GitConfig(section: string, variable: string, value: string) returns (ok: bool)
      modifies this`config, this`gitFailed
      ensures config == if ok then old(config)[ConfigName(section, variable) := value] else old(config)
      ensures gitFailed == (old(gitFailed) || !ok)
    {
      ok := *;
      gitFailed := gitFailed || !ok;
      if ok {
        config := config[ConfigName(section, variable) := value];
      }
    }

    /** None if the git command itself fails. */
    method GitHasConfig(section: string, variable: string) returns (answer: Option<bool>)
      modifies this`gitFailed
      ensures answer.Some? ==> answer.value == (ConfigName(section, variable) in config)
      ensures gitFailed == (old(gitFailed) || answer.None?)
    {
      var ok: bool := *;
      gitFailed := gitFailed || !ok;
      answer := if ok then Some(ConfigName(section, variable) in config) else None;
    }

    method GitDeconfig(section: string) returns (ok: bool)
      modifies this`config, this`gitFailed
      ensures config == if ok then Without(old(config), section) else old(config)
      ensures gitFailed == (old(gitFailed) || !ok)
    {
      ok := *;
      gitFailed := gitFailed || !ok;
      if ok {
        config := Without(config, section);
      }
    }

    method CommandFor(subcommand: string, key: KeyRef) returns (command: string)
      ensures command == FilterCommand(world.exe, subcommand, key)
    {
      hide ShellQuoting.Escaped;
      var escapedPath := ShellQuoting.EscapeShellArg(world.exe);
      command := escapedPath + " " + subcommand;
      if key.Some? {
        command := command + (" --key-name=" + key.value);
      }
    }

    method ConfigureGitFilters(key: KeyRef) returns (ok: bool)
      modifies this`config, this`gitFailed
      ensures ok ==> config == old(config) + FilterEntries(world.exe, key)
      ensures Between(config, old(config), FilterEntries(world.exe, key))
      ensures gitFailed == (old(gitFailed) || !ok)
    {
      hide FilterCommand, FilterEntries;
      ghost var before, added := config, FilterEntries(world.exe, key);
      EntriesAre(world.exe, key);
      var command := CommandFor("smudge", key);
      BetweenStep(config, before, added, ConfigName(FilterSection(key), "smudge"));
      ok := GitConfig(FilterSection(key), "smudge", command);
      if !ok { return; }
      command := CommandFor("clean", key);
      BetweenStep(config, before, added, ConfigName(FilterSection(key), "clean"));
      ok := GitConfig(FilterSection(key), "clean", command);
      if !ok { return; }
      BetweenStep(config, before, added, ConfigName(FilterSection(key), "required"));
      ok := GitConfig(FilterSection(key), "required", "true");
      if !ok { return; }
      command := CommandFor("diff", key);
      BetweenStep(config, before, added, ConfigName(DiffSection(key), "textconv"));
      ok := GitConfig(DiffSection(key), "textconv", command);
      if ok {
        BetweenAll(config, before, added);
      }
    }

    /** Asks for the three variables in turn, until one is there. */
    method HasFilter(key: KeyRef) returns (answer: Option<bool>)
      modifies this`gitFailed
      ensures answer.Some? ==> answer.value == Configured(config, key)
      ensures gitFailed == (old(gitFailed) || answer.None?)
    {
      answer := GitHasConfig(FilterSection(key), "smudge");
      if answer == Some(false) {
        answer := GitHasConfig(FilterSection(key), "clean");
      }
      if answer == Some(false) {
        answer := GitHasConfig(FilterSection(key), "required");
      }
    }

    method DeconfigureGitFilters(key: KeyRef) returns (ok: bool)
      modifies this`config, this`gitFailed
      ensures ok ==> config == Deconfigured(old(config), key)
      ensures !ok ==> config == old(config) || config == Without(old(config), FilterSection(key))
      ensures gitFailed == (old(gitFailed) || !ok)
    {
      SectionsDiffer(key, key);
      var hasFilter := HasFilter(key);
      if hasFilter.None? {
        return false;
      }
      if hasFilter.value {
        ok := GitDeconfig(FilterSection(key));
        if !ok {
          return false;
        }
      }
      var hasDiff := GitHasConfig(DiffSection(key), "textconv");
      if hasDiff.None? {
        return false;
      }
      if hasDiff.value {
        ok := GitDeconfig(DiffSection(key));
        if !ok {
          return false;
        }
      }
      ok := true;
    }

    // -------------------------------------------------------- checkout

    /** One call of git: it fails if a filter fails, and writes no other files than these. */
    method GitCheckoutBatch(paths: seq<string>) returns (ok: bool)
      requires forall p :: p in paths ==> p in world.blobs
      modifies this`workTree
      ensures ok == AllCheckOut(world, old(Now()), paths)
      ensures ok ==> Now() == AfterCheckout(world, old(Now()), paths)
    {
      hide CheckedOut, AllCheckOut, AfterCheckout;
      ghost var st := Now();
      NothingToCheckOut(world, st);
      ok := true;
      var i := 0;
      while i < |paths|
        invariant 0 <= i <= |paths| && ok == AllCheckOut(world, st, paths[..i])
        invariant keys == st.keys && config == st.config
        invariant ok ==> Now() == AfterCheckout(world, st, paths[..i])
      {
        var contents := CheckedOut(world, State(keys, config, workTree), paths[i]);
        SameCheckout(world, State(keys, config, workTree), st, paths[i]);
        CheckOutOneMore(world, st, paths, i);
        if contents.Some? {
          workTree := workTree[paths[i] := contents.value];
        } else {
          ok := false;
        }
        i := i + 1;
      }
      assert paths[..i] == paths;
    }

    /** Checks out any number of files, a batch at a time; the first batch that fails ends it. */
    method GitCheckout(paths: seq<string>) returns (ok: bool)
      requires forall p :: p in paths ==> p in world.blobs
      modifies this`workTree, this`checkoutsSound
      ensures checkoutsSound == (old(checkoutsSound) && Sound(world, old(Now())))
      ensures ok == AllCheckOut(world, old(Now()), paths)
      ensures ok ==> Now() == AfterCheckout(world, old(Now()), paths)
    {
      hide CheckedOut, AllCheckOut, AfterCheckout, Sound;
      ghost var st := Now();
      checkoutsSound := checkoutsSound && Sound(world, st);
      NothingToCheckOut(world, st);
      assert paths[..0] == [];
      var begin := 0;
      while |paths| - begin >= GIT_CHECKOUT_BATCH_SIZE
        invariant 0 <= begin <= |paths| && checkoutsSound == (old(checkoutsSound) && Sound(world, st))
        invariant AllCheckOut(world, st, paths[..begin]) && Now() == AfterCheckout(world, st, paths[..begin])
      {
        var batch := paths[begin..begin + GIT_CHECKOUT_BATCH_SIZE];
        CheckoutTwice(world, st, paths[..begin], batch);
        assert paths[..begin] + batch == paths[..begin + GIT_CHECKOUT_BATCH_SIZE];
        ok := GitCheckoutBatch(batch);
        if !ok {
          assert paths == paths[..begin + GIT_CHECKOUT_BATCH_SIZE] + paths[begin + GIT_CHECKOUT_BATCH_SIZE..];
          if AllCheckOut(world, st, paths) {
            CheckOutPart(world, st, paths, begin + GIT_CHECKOUT_BATCH_SIZE);
          }
          return;
        }
        begin := begin + GIT_CHECKOUT_BATCH_SIZE;
      }
      CheckoutTwice(world, st, paths[..begin], paths[begin..]);
      assert paths[..begin] + paths[begin..] == paths;
      ok := GitCheckoutBatch(paths[begin..]);
    }

    method GetEncryptedFilesFor(key: KeyRef) returns (files: seq<string>)
      requires WorldOk(world)
      ensures files == EncryptedFiles(world, key)
      ensures forall p :: p in files ==> p in world.blobs
    {
      hide Encrypted, ParseListing, LsFiles;
      ListingExactly(world.index);
      files := GetEncryptedFiles(LsFiles(world.index), world.attributes, world.printed, world.checkAttrStdin,
                                 AttributeName(key));
      forall p | p in files
        ensures p in world.blobs
      {
        EncryptedInWorld(world, key, p);
      }
    }

    // ------------------------------------------------------------ init

    /** Writes a key file into the directory of installed keys. */
    method InstallKeyFile(keyFile: KeyFile, key: KeyRef)
      modifies this`keys
      ensures keys == old(keys)[DirName(key) := StoreKeys(keyFile.Contents())]
    {
      var out := new Stream([]);
      keyFile.Store(out);
      assert out.data == [] + StoreKeys(keyFile.Contents()) == StoreKeys(keyFile.Contents());
      keys := keys[DirName(key) := out.data];
    }

    /** Writes the key file and configures its filters; the invariant is kept however far git gets with that. */
    method InstallKey(keyFile: KeyFile, key: KeyRef) returns (ok: bool)
      requires Storable(keyFile.Contents()) && RefOf(keyFile.Contents()) == key
      modifies this`keys, this`config, this`gitFailed
      ensures (Sound(world, old(Now())) ==> Sound(world, Now())) && gitFailed == (old(gitFailed) || !ok)
      ensures ok ==> Now() == Install(world, old(Now()), keyFile.Contents())
      ensures keys == Install(world, old(Now()), keyFile.Contents()).keys
      ensures Between(config, old(config), FilterEntries(world.exe, key))
    {
      hide Sound, StoreKeys, FilterEntries, Between, Storable, RefOf, Install;
      ghost var st, installed := Now(), keyFile.Contents();
      InstallKeyFile(keyFile, key);
      ok := ConfigureGitFilters(key);
      if Sound(world, st) {
        PartlyConfiguredSound(world, st, installed, config);
      }
      InstallIs(world, st, installed);
      assert Now() == Install(world, st, installed).(config := config);
    }

    /** A new key file with one generated key, version 0. */
    method GenerateKeyFile(keyName: Option<Text>, randomAes: AesKey, randomHmac: HmacKey) returns (keyFile: KeyFile)
      requires ValidRef(keyName)
      ensures fresh(keyFile)
      ensures keyFile.Contents() == OneEntry(keyName, Entry(0, randomAes, randomHmac))
      ensures Storable(keyFile.Contents()) && RefOf(keyFile.Contents()) == keyName
    {
      if keyName.Some? {
        KeyNameIsText(keyName.value);
      }
      keyFile := new KeyFile();
      keyFile.SetKeyName(keyName);
      keyFile.Generate(randomAes, randomHmac);
    }

    /** Generates a key, installs it, and configures its filters. */
    method Init(keyName: Option<Text>, randomAes: AesKey, randomHmac: HmacKey) returns (ending: Ending)
      requires keyName.Some? ==> '\0' !in keyName.value
      modifies this`keys, this`config, this`gitFailed
      ensures (Sound(world, old(Now())) ==> Sound(world, Now()))
      ensures gitFailed == (old(gitFailed) || ending == Threw(ConfigFailed))
      ensures ending == Threw(InvalidKeyName) <==> !ValidRef(keyName)
      ensures ending == Returned(1) <==> ValidRef(keyName) && DirName(keyName) in old(keys)
      ensures ending in {Threw(InvalidKeyName), Returned(1)} ==> Now() == old(Now())
      ensures ending in {Threw(InvalidKeyName), Threw(ConfigFailed), Returned(1), Returned(0)}
      ensures ending == Returned(0) ==>
                Now() == Install(world, old(Now()), OneEntry(keyName, Entry(0, randomAes, randomHmac)))
      ensures ending == Threw(ConfigFailed) ==>
                keys == Install(world, old(Now()), OneEntry(keyName, Entry(0, randomAes, randomHmac))).keys
                && Between(config, old(config), FilterEntries(world.exe, keyName))
    {
      if keyName.Some? {
        var valid := ValidateKeyName(keyName.value);
        if !valid {
          return Threw(InvalidKeyName);
        }
        KeyNameIsText(keyName.value);
      }
      assert ValidRef(keyName);
      if DirName(keyName) in keys {
        return Returned(1);
      }
      hide Sound, StoreKeys, FilterEntries, Between, Storable, RefOf, Install, OneEntry, ValidRef;
      var keyFile := GenerateKeyFile(keyName, randomAes, randomHmac);
      var ok := InstallKey(keyFile, keyName);
      ending := if ok then Returned(0) else Threw(ConfigFailed);
    }

    // ---------------------------------------------------------- unlock

    /** Loads the key files given on the command line; one that cannot be read or loaded ends it. */
    method LoadKeyFiles(args: seq<Option<seq<Byte>>>) returns (ok: bool, loaded: seq<Keys>)
      ensures ok <==> forall a :: a in args ==> a.Some? && LoadKeys(a.value).outcome.Ok?
      ensures ok ==> |loaded| == |args| && forall i :: 0 <= i < |args| ==> loaded[i] == LoadKeys(args[i].value).value
      ensures forall k :: k in loaded ==> Storable(k)
    {
      hide ParseKeyFile, Storable;
      loaded := [];
      for i := 0 to |args|
        invariant |loaded| == i
        invariant forall j :: 0 <= j < i ==>
                    args[j].Some? && LoadKeys(args[j].value).outcome.Ok? && loaded[j] == LoadKeys(args[j].value).value
        invariant forall k :: k in loaded ==> Storable(k)
      {
        assert args[i] in args;
        if args[i].None? {
          return false, loaded;
        }
        var keyFile := new KeyFile();
        var input := new Stream(args[i].value);
        assert input.Rest() == args[i].value;
        var outcome := keyFile.Load(input);
        if !outcome.Ok? {
          return false, loaded;
        }
        LoadedStorable(args[i].value);
        loaded := loaded + [Keys(keyFile.keyName, keyFile.entries)];
      }
      ok := true;
    }

    /** Installs the keys one after the other, each with its filters, then checks out all their files. */
    method InstallAndCheckOut(loaded: seq<Keys>) returns (ending: Ending)
      requires WorldOk(world) && forall k :: k in loaded ==> Storable(k)
      modifies this
      ensures (Sound(world, old(Now())) ==> Sound(world, Now()))
      ensures ending.Returned? ==>
                && (Repairs(world, old(Now()), loaded) ==> Sound(world, Now()))
                && checkoutsSound == (old(checkoutsSound) && Sound(world, Now()))
      ensures ending.Threw? ==> checkoutsSound == old(checkoutsSound)
      ensures gitFailed == (old(gitFailed) || ending == Threw(ConfigFailed))
      ensures ending in {Returned(0), Returned(1), Threw(ConfigFailed)}
      ensures ending == Returned(0) ==> UnlocksTo(world, old(Now()), loaded, Now())
      ensures ending == Returned(1) ==> UnlockFails(world, old(Now()), loaded)
      ensures ending.Threw? ==> exists n :: InstallStopped(world, old(Now()), loaded, n, Now())
    {
      hide Sound, Repairs, StoreKeys, FilterEntries, Between, WorldOk, Storable, EncryptedFiles, Install, AllCheckOut,
           AfterCheckout;
      ghost var st := Now();
      assert loaded[..0] == [];
      var encryptedFiles := [];
      var i := 0;
      while i < |loaded|
        invariant gitFailed == old(gitFailed)
        invariant 0 <= i <= |loaded| && Now() == InstallAll(world, st, loaded[..i]) && workTree == st.workTree
        invariant (Sound(world, st) ==> Sound(world, Now())) && checkoutsSound == old(checkoutsSound)
        invariant encryptedFiles == FilesOfAll(world, loaded[..i])
        invariant forall p :: p in encryptedFiles ==> p in world.blobs
      {
        var key := RefOf(loaded[i]);
        var keyFile := CopyOf(loaded[i]);
        var ok := InstallKey(keyFile, key);
        if !ok {
          StoppedAt(world, st, loaded, i, Now());
          return Threw(ConfigFailed);
        }
        var files := GetEncryptedFilesFor(key);
        InstallOneMore(world, st, loaded, i);
        FilesOneMore(world, loaded, i);
        encryptedFiles := encryptedFiles + files;
        i := i + 1;
      }
      assert loaded[..i] == loaded;
      ghost var installed := Now();
      if Repairs(world, st, loaded) {
        InstallAllRestores(world, st, loaded);
      }
      var ok := GitCheckout(encryptedFiles);
      OnlyWorkTree(world, installed, Now());
      ending := Returned(if ok then 0 else 1);
    }

    /** Copies a loaded key file. */
    method CopyOf(keys: Keys) returns (keyFile: KeyFile)
      requires Storable(keys)
      ensures fresh(keyFile) && keyFile.Contents() == keys
    {
      keyFile := new KeyFile.Copy(keys);
    }

    /** Unlocks with symmetric key files, at least one; `dirty` is what git status says about the work tree. */
    method Unlock(dirty: bool, args: seq<Option<seq<Byte>>>) returns (ending: Ending, ghost loaded: seq<Keys>)
      requires WorldOk(world) && args != []
      modifies this
      ensures Sound(world, old(Now())) ==> Sound(world, Now()) && checkoutsSound == old(checkoutsSound)
      ensures gitFailed == (old(gitFailed) || ending == Threw(ConfigFailed))
      ensures ending in {Returned(0), Returned(1), Threw(ConfigFailed)}
      ensures dirty || !Loadable(args) ==> ending == Returned(1) && Now() == old(Now())
      ensures !dirty && Loadable(args) ==>
                && |loaded| == |args| && (forall i :: 0 <= i < |args| ==> loaded[i] == LoadKeys(args[i].value).value)
                && (ending.Returned? ==> checkoutsSound == (old(checkoutsSound) && Sound(world, Now())))
                && (ending.Returned? && Repairs(world, old(Now()), loaded) ==> Sound(world, Now()))
                && (ending == Returned(0) ==> UnlocksTo(world, old(Now()), loaded, Now()))
                && (ending == Returned(1) ==> UnlockFails(world, old(Now()), loaded))
                && (ending.Threw? ==> exists n :: InstallStopped(world, old(Now()), loaded, n, Now()))
    {
      hide Sound, Repairs, LoadKeys, UnlocksTo, UnlockFails, InstallStopped;
      if dirty {
        return Returned(1), [];
      }
      var ok, keyFiles := LoadKeyFiles(args);
      loaded := keyFiles;
      if !ok {
        return Returned(1), loaded;
      }
      ending := InstallAndCheckOut(keyFiles);
    }

    /** Unlocks with the shares in the repository that GPG can open. */
    method UnlockGpg(dirty: bool, secretKeys: seq<string>, usable: set<string>, dirents: seq<string>,
                     dir: KeysDirectory)
      returns (ending: Ending, ghost loaded: seq<Keys>)
      requires WorldOk(world) && forall d :: d in dirents ==> '\0' !in d
      modifies this
      ensures Sound(world, old(Now())) ==> Sound(world, Now()) && checkoutsSound == old(checkoutsSound)
      ensures gitFailed == (old(gitFailed) || ending == Threw(ConfigFailed))
      ensures var all := DecryptAll(dir.files, usable, 0, secretKeys, dirents);
              if dirty || all == AllRecovered([]) then ending == Returned(1) && Now() == old(Now())
              else if all.FirstError? then ending == Threw(ShareError(all.error)) && Now() == old(Now())
              else
                && all == AllRecovered(loaded) && ending in {Returned(0), Returned(1), Threw(ConfigFailed)}
                && (ending.Returned? ==> checkoutsSound == (old(checkoutsSound) && Sound(world, Now())))
                && (ending.Returned? && Repairs(world, old(Now()), loaded) ==> Sound(world, Now()))
                && (ending == Returned(0) ==> UnlocksTo(world, old(Now()), loaded, Now()))
                && (ending == Returned(1) ==> UnlockFails(world, old(Now()), loaded))
                && (ending.Threw? ==> exists n :: InstallStopped(world, old(Now()), loaded, n, Now()))
    {
      hide Sound, Repairs, DecryptAll, UnlocksTo, UnlockFails, InstallStopped;
      if dirty {
        return Returned(1), [];
      }
      var keyFiles, error := DecryptRepoKeys(0, secretKeys, usable, dirents, dir);
      if error.Some? {
        return Threw(ShareError(error.value)), [];
      }
      loaded := keyFiles;
      if keyFiles == [] {
        return Returned(1), loaded;
      }
      RecoveredLoadable(dir.files, usable, 0, secretKeys, dirents);
      ending := InstallAndCheckOut(keyFiles);
    }

    // ------------------------------------------------------------ lock

    /** Removes the key file of one key and its filters; None if a call of git failed. */
    method LockKey(key: KeyRef) returns (files: Option<seq<string>>)
      requires WorldOk(world)
      modifies this`keys, this`config, this`gitFailed
      ensures files.Some? ==> files.value == EncryptedFiles(world, key) && Now() == RemoveKey(old(Now()), key)
      ensures files.Some? ==> forall p :: p in files.value ==> p in world.blobs
      ensures files.None? ==> RemovalStopped(old(Now()), key, Now())
      ensures gitFailed == (old(gitFailed) || files.None?)
    {
      keys := keys - {DirName(key)};
      var ok := DeconfigureGitFilters(key);
      if !ok {
        return None;
      }
      var encrypted := GetEncryptedFilesFor(key);
      files := Some(encrypted);
    }

    /** Locks the key with the given name, which is not checked for being a valid one. */
    method LockOne(key: KeyRef) returns (ending: Ending)
      requires WorldOk(world)
      modifies this
      ensures ending in {Returned(0), Returned(1), Threw(ConfigFailed)}
      ensures ending == Returned(1) <==> DirName(key) !in old(keys)
      ensures ending == Returned(1) ==> Now() == old(Now()) && checkoutsSound == old(checkoutsSound)
      ensures ending == Returned(0) ==> LocksTo(world, old(Now()), key, Now())
      ensures ending.Threw? ==> RemovalStopped(old(Now()), key, Now()) && checkoutsSound == old(checkoutsSound)
      ensures gitFailed == (old(gitFailed) || ending.Threw?)
      ensures ending == Returned(0) ==> checkoutsSound == (old(checkoutsSound) && Sound(world, Now()))
      ensures ending == Returned(0) && Sound(world, old(Now())) ==>
                (Sound(world, Now()) <==> !(key == Some("default") && Configured(old(config), None)))
    {
      hide Sound, WorldOk, EncryptedFiles, AllCheckOut, AfterCheckout, Deconfigured, RemovalStopped;
      ghost var st := Now();
      if DirName(key) !in keys {
        return Returned(1);
      }
      var files := LockKey(key);
      if files.None? {
        return Threw(ConfigFailed);
      }
      ghost var removed := Now();
      if Sound(world, st) {
        RemoveKeySound(world, st, key);
      }
      LockChecksOut(world, st, key);
      var ok := GitCheckout(files.value);
      OnlyWorkTree(world, removed, Now());
      ending := Returned(0);
    }

    /** Locks every installed key; the directory entries come in some order. */
    method LockAll() returns (ending: Ending, ghost dirents: seq<string>)
      requires WorldOk(world)
      modifies this
      ensures ending in {Returned(0), Threw(ConfigFailed)}
      ensures ending.Threw? ==> RemovalsStopped(old(Now()), dirents, Now()) && checkoutsSound == old(checkoutsSound)
      ensures gitFailed == (old(gitFailed) || ending.Threw?)
      ensures ending == Returned(0) ==>
                && LocksAllTo(world, old(Now()), dirents, Now()) && (Sound(world, old(Now())) ==> Sound(world, Now()))
                && checkoutsSound == (old(checkoutsSound) && Sound(world, Now()))
    {
      hide Sound, WorldOk, EncryptedFiles, AllCheckOut, AfterCheckout, RemoveKey, RemoveKeys, FilesOfDirs,
           RemovalStopped, RemovalsStopped, Configured;
      ghost var st := Now();
      var left, encryptedFiles := keys.Keys, [];
      dirents := [];
      NoDirs(world, st);
      while left != {}
        invariant gitFailed == old(gitFailed)
        invariant Now() == RemoveKeys(st, dirents) && checkoutsSound == old(checkoutsSound)
        invariant Sound(world, st) ==> Sound(world, Now())
        invariant left <= st.keys.Keys && forall d :: d in dirents <==> d in st.keys && d !in left
        invariant encryptedFiles == FilesOfDirs(world, dirents)
        invariant forall p :: p in encryptedFiles ==> p in world.blobs
      {
        var d :| d in left;
        ghost var before, more := Now(), dirents + [d];
        var files := LockKey(RefOfDir(d));
        OneDirMore(world, st, dirents, d, Now());
        if files.None? {
          return Threw(ConfigFailed), more;
        }
        if Sound(world, before) {
          RemoveKeySound(world, before, RefOfDir(d));
        }
        encryptedFiles := encryptedFiles + files.value;
        dirents := more;
        left := left - {d};
      }
      ghost var removed := Now();
      LockAllChecksOut(world, st, dirents);
      var ok := GitCheckout(encryptedFiles);
      OnlyWorkTree(world, removed, Now());
      ending := Returned(0);
    }

    method Lock(keyName: Option<string>, allKeys: bool, force: bool, dirty: bool)
      returns (ending: Ending, ghost dirents: seq<string>)
      requires WorldOk(world)
      modifies this
      ensures ending in {Returned(0), Returned(1), Returned(2), Threw(ConfigFailed)}
      ensures ending == Returned(2) <==> allKeys && keyName.Some?
      ensures ending == Returned(1) <==>
                !(allKeys && keyName.Some?) && ((dirty && !force) || (!allKeys && DirName(keyName) !in old(keys)))
      ensures ending in {Returned(1), Returned(2)} ==> Now() == old(Now())
      ensures ending != Returned(0) ==> checkoutsSound == old(checkoutsSound)
      ensures ending.Threw? ==>
                if allKeys then RemovalsStopped(old(Now()), dirents, Now())
                else RemovalStopped(old(Now()), keyName, Now())
      ensures gitFailed == (old(gitFailed) || ending.Threw?)
      ensures ending == Returned(0) ==>
                if allKeys then LocksAllTo(world, old(Now()), dirents, Now())
                else LocksTo(world, old(Now()), keyName, Now())
      ensures ending == Returned(0) ==> checkoutsSound == (old(checkoutsSound) && Sound(world, Now()))
      ensures ending == Returned(0) && Sound(world, old(Now())) ==>
                (Sound(world, Now()) <==> !(keyName == Some("default") && Configured(old(config), None)))
    {
      hide Sound, WorldOk, LocksTo, LocksAllTo, RemovalStopped, RemovalsStopped;
      dirents := [];
      if allKeys && keyName.Some? {
        return Returned(2), dirents;
      }
      if !force && dirty {
        return Returned(1), dirents;
      }
      if allKeys {
        ending, dirents := LockAll();
      } else {
        ending := LockOne(keyName);
      }
    }
  }

  // ------------------------------------------------------------- runs

  datatype Command =
    | InitCommand(keyName: Option<Text>, randomAes: AesKey, randomHmac: HmacKey)
    | UnlockCommand(dirty: bool, args: seq<Option<seq<Byte>>>)
    | UnlockGpgCommand(dirty: bool, secretKeys: seq<string>, usable: set<string>, dirents: seq<string>,
                       files: map<Path, GpgFile>)
    | LockCommand(name: Option<string>, allKeys: bool, force: bool, dirty: bool)

  /** Command lines and directory entries hold no NUL, and unlock without key files is the one with GPG. */
  ghost predicate WellFormed(c: Command) {
    && (c.InitCommand? && c.keyName.Some? ==> '\0' !in c.keyName.value)
    && (c.UnlockCommand? ==> c.args != [])
    && (c.UnlockGpgCommand? ==> forall d :: d in c.dirents ==> '\0' !in d)
  }

  /** This command locks a key by the reserved name of the default key. */
  predicate Misnamed(c: Command) {
    c.LockCommand? && c.name == Some("default")
  }

  /**
   Over every sequence of commands: whenever git checks files out, and after every command, each
   configured filter has its key installed. This goes on to the last command, unless a call for git's
   configuration fails in a lock, or a lock succeeds that names the default key by its reserved name
   while its filter is configured. The latter is the only way for a checkout to find the invariant
   broken, and then the default filter is left without its key.
   */
  method RunAll(repository: Repository, commands: seq<Command>) returns (ran: nat, lockThrew: bool)
    requires WorldOk(repository.world) && Sound(repository.world, repository.Now())
    requires repository.checkoutsSound && !repository.gitFailed
    requires forall c :: c in commands ==> WellFormed(c)
    modifies repository
    ensures ran <= |commands| && (ran < |commands| ==> lockThrew || !repository.checkoutsSound)
    ensures !lockThrew ==> (Sound(repository.world, repository.Now()) <==> repository.checkoutsSound)
    ensures lockThrew ==>
              repository.gitFailed && repository.checkoutsSound && ran > 0 && commands[ran - 1].LockCommand?
    ensures !repository.checkoutsSound ==>
              && ran > 0 && Misnamed(commands[ran - 1])
              && Configured(repository.config, None) && "default" !in repository.keys
    ensures !repository.gitFailed && (forall c :: c in commands ==> !Misnamed(c)) ==>
              ran == |commands| && repository.checkoutsSound && Sound(repository.world, repository.Now())
  {
    hide WorldOk, Sound, LocksTo, LocksAllTo, UnlocksTo, UnlockFails, InstallStopped, RemovalStopped, RemovalsStopped,
         Configured;
    ran, lockThrew := 0, false;
    while ran < |commands|
      invariant 0 <= ran <= |commands| && !lockThrew
      invariant repository.checkoutsSound && Sound(repository.world, repository.Now())
    {
      var command := commands[ran];
      assert WellFormed(command);
      ran := ran + 1;
      match command {
        case InitCommand(keyName, randomAes, randomHmac) =>
          var ending := repository.Init(keyName, randomAes, randomHmac);
        case UnlockCommand(dirty, args) =>
          var ending, loaded := repository.Unlock(dirty, args);
        case UnlockGpgCommand(dirty, secretKeys, usable, dirents, files) =>
          var dir := new KeysDirectory(files);
          var ending, loaded := repository.UnlockGpg(dirty, secretKeys, usable, dirents, dir);
        case LockCommand(name, allKeys, force, dirty) =>
          ghost var before := repository.Now();
          var misnamed := name == Some("default") && Configured(repository.config, None);
          var ending, dirents := repository.Lock(name, allKeys, force, dirty);
          lockThrew := ending.Threw?;
          if lockThrew {
            return;
          }
          if ending == Returned(0) && misnamed {
            assert !allKeys;
            DefaultStaysConfigured(repository.world, before, repository.Now());
            return;
          }
      }
    }
  }

  /**
   What git status says in any state: it compares the contents of files with what is stored for them.
   The answer for files that are not of this key is given; neither command below touches them.
   */
  ghost predicate IsStatus(world: World, key: KeyRef, status: State -> bool, othersChanged: bool) {
    forall st: State :: status(st) <==> othersChanged || SomeChanged(world, st, key)
  }

  /**
   Lock and then unlock, run on an unlocked key: unless git's configuration fails, nothing has changed
   in the end, and it returns 0 except if git calls some file changed. Of the files of the key those
   are the ones that were committed in the clear.
   */
  method LockAndUnlock(repository: Repository, keys: Keys, keyFile: seq<Byte>, status: State -> bool,
                       ghost othersChanged: bool)
    returns (ending: Ending)
    requires WorldOk(repository.world) && !repository.gitFailed
    requires LoadKeys(keyFile).outcome.Ok? && LoadKeys(keyFile).value == keys
    requires Unlocked(repository.world, repository.Now(), keys)
             && InSync(repository.world, repository.Now(), RefOf(keys))
    requires IsStatus(repository.world, RefOf(keys), status, othersChanged)
    modifies repository
    ensures repository.gitFailed <==> ending == Threw(ConfigFailed)
    ensures !repository.gitFailed ==>
              && repository.Now() == old(repository.Now())
              && ending == Returned(if status(old(repository.Now())) then 1 else 0)
    ensures SameKeyBothWays(keys.entries) ==>
              (status(old(repository.Now())) <==> othersChanged || !AllLookEncrypted(repository.world, RefOf(keys)))
  {
    hide WorldOk, Sound, LoadKeys, StoreKeys, FilterEntries, UnlocksTo, LocksTo, LocksAllTo, InSync, AllCheckOut,
         RemovalStopped, RemovalsStopped, InstallStopped, SomeChanged, AllLookEncrypted, SameKeyBothWays, Repairs;
    ghost var world, st := repository.world, repository.Now();
    LoadedStorable(keyFile);
    LoadedRefIsValid(keys);
    if SameKeyBothWays(keys.entries) {
      UnlockedChanged(world, st, keys);
    }
    ghost var dirents, loaded;
    var dirty := status(State(repository.keys, repository.config, repository.workTree));
    ending, dirents := repository.Lock(RefOf(keys), false, false, dirty);
    if ending == Returned(0) {
      ghost var locked := repository.Now();
      LockedUnchanged(world, st, RefOf(keys), locked);
      dirty := status(State(repository.keys, repository.config, repository.workTree));
      ending, loaded := repository.Unlock(dirty, [Some(keyFile)]);
      assert !ending.Threw? ==> loaded == [keys];
      LockThenUnlock(world, st, keys, locked, repository.Now());
    }
  }

  /**
   Unlock and then lock, run on a locked key. Unlock is refused exactly if other files have changed, and
   fails otherwise only at the checkout. After it, lock is not refused exactly if the blobs of all files
   of the key look encrypted; then it takes everything back.
   */
  method UnlockAndLock(repository: Repository, keys: Keys, keyFile: seq<Byte>, status: State -> bool,
                       ghost othersChanged: bool)
    returns (unlocking: Ending, locking: Option<Ending>)
    requires WorldOk(repository.world) && !repository.gitFailed
    requires LoadKeys(keyFile).outcome.Ok? && LoadKeys(keyFile).value == keys && SameKeyBothWays(keys.entries)
    requires Locked(repository.Now(), RefOf(keys)) && InSync(repository.world, repository.Now(), RefOf(keys))
    requires IsStatus(repository.world, RefOf(keys), status, othersChanged)
    modifies repository
    ensures repository.gitFailed <==> unlocking == Threw(ConfigFailed) || locking == Some(Threw(ConfigFailed))
    ensures unlocking.Returned? ==>
              unlocking == Returned(if othersChanged || UnlockFails(repository.world, old(repository.Now()), [keys])
                                    then 1 else 0)
    ensures locking.Some? <==> unlocking == Returned(0)
    ensures locking.Some? && locking.value.Returned? ==>
              if AllLookEncrypted(repository.world, RefOf(keys)) then
                locking.value == Returned(0) && repository.Now() == old(repository.Now())
              else
                locking.value == Returned(1)
                && UnlocksTo(repository.world, old(repository.Now()), [keys], repository.Now())
  {
    hide WorldOk, Sound, LoadKeys, StoreKeys, FilterEntries, UnlocksTo, LocksTo, LocksAllTo, InSync, AllCheckOut,
         RemovalStopped, RemovalsStopped, InstallStopped, SomeChanged, AllLookEncrypted, SameKeyBothWays, Repairs,
         Locked;
    ghost var world, st := repository.world, repository.Now();
    LoadedStorable(keyFile);
    LoadedRefIsValid(keys);
    StillLockedUnchanged(world, st, RefOf(keys));
    var dirty := status(State(repository.keys, repository.config, repository.workTree));
    ghost var loaded, dirents;
    unlocking, loaded := repository.Unlock(dirty, [Some(keyFile)]);
    locking := None;
    assert !dirty ==> loaded == [keys];
    if unlocking == Returned(0) {
      ghost var unlocked := repository.Now();
      UnlockedNotFailed(world, st, [keys], unlocked);
      UnlockedAfter(world, st, keys, unlocked);
      UnlockedChanged(world, unlocked, keys);
      dirty := status(State(repository.keys, repository.config, repository.workTree));
      var ending;
      ending, dirents := repository.Lock(RefOf(keys), false, false, dirty);
      UnlockThenLock(world, st, keys, unlocked, repository.Now());
      locking := Some(ending);
    }
  }

  // ---------------------------------------------------- facts for the methods

  lemma LoadedStorable(s: seq<Byte>)
    requires LoadKeys(s).outcome.Ok?
    ensures Storable(LoadKeys(s).value)
  {
    LoadedIsStorable(s);
  }

  lemma InstallIs(world: World, st: State, keys: Keys)
    ensures Install(world, st, keys)
         == State(st.keys[DirName(RefOf(keys)) := StoreKeys(keys)],
                  st.config + FilterEntries(world.exe, RefOf(keys)), st.workTree)
  {
  }

  lemma UnlockedNotFailed(world: World, st: State, loaded: seq<Keys>, end: State)
    ensures UnlocksTo(world, st, loaded, end) ==> !UnlockFails(world, st, loaded)
  {
  }

  lemma StoppedAt(world: World, st: State, loaded: seq<Keys>, n: nat, end: State)
    requires n < |loaded| && end.workTree == st.workTree
    ensures var before := InstallAll(world, st, loaded[..n]);
            && end.keys == Install(world, before, loaded[n]).keys
            && Between(end.config, before.config, FilterEntries(world.exe, RefOf(loaded[n])))
            ==> InstallStopped(world, st, loaded, n, end)
  {
    hide Install, Between, FilterEntries, RefOf;
    InstallOneMore(world, st, loaded, n);
  }

  lemma NoDirs(world: World, st: State)
    ensures RemoveKeys(st, []) == st && FilesOfDirs(world, []) == []
  {
  }

  lemma OneDirMore(world: World, st: State, dirents: seq<string>, d: string, end: State)
    ensures var more := dirents + [d]; var before := RemoveKeys(st, dirents);
            && RemoveKeys(st, more) == RemoveKey(before, RefOfDir(d))
            && FilesOfDirs(world, more) == FilesOfDirs(world, dirents) + EncryptedFiles(world, RefOfDir(d))
            && (RemovalStopped(before, RefOfDir(d), end) ==> RemovalsStopped(st, more, end))
  {
    hide RemoveKey, EncryptedFiles, RemovalStopped;
    var more := dirents + [d];
    assert more[..|dirents|] == dirents && more[..|dirents| + 1] == more;
    RemoveOneMore(st, more, |dirents|);
    DirFilesOneMore(world, more, |dirents|);
  }

  /** A lock of a key, whether it succeeds or throws, can only break the invariant for the key whose file it took. */
  lemma LockLeaves(world: World, st: State, key: KeyRef, end: State)
    requires Sound(world, st) && (LocksTo(world, st, key, end) || RemovalStopped(st, key, end))
    ensures SoundExcept(world, end, RefOfDir(DirName(key)))
  {
    hide LoadKeys, FilterCommand, AllCheckOut, CheckedOut;
    forall k: KeyRef | k != RefOfDir(DirName(key)) && Configured(end.config, k)
      ensures SoundFor(world, end, k)
    {
      SectionsDiffer(k, key);
      assert Configured(st.config, k) && SoundFor(world, st, k);
      assert DirName(k) != DirName(key);
    }
  }

  /** Unlocking with the file of that key, whatever others there are, makes up for it. */
  lemma UnlockRestores(world: World, st: State, key: KeyRef, mid: State, loaded: seq<Keys>, end: State)
    requires Sound(world, st) && (LocksTo(world, st, key, mid) || RemovalStopped(st, key, mid))
    requires forall k :: k in loaded ==> Storable(k)
    requires exists k :: k in loaded && RefOf(k) == RefOfDir(DirName(key))
    ensures UnlocksTo(world, mid, loaded, end) ==> Sound(world, end)
  {
    hide Sound, SoundExcept, LocksTo, RemovalStopped, Storable, RefOf, AllCheckOut, AfterCheckout;
    LockLeaves(world, st, key, mid);
    assert Repairs(world, mid, loaded);
    InstallAllRestores(world, mid, loaded);
    if UnlocksTo(world, mid, loaded, end) {
      CheckoutIs(world, InstallAll(world, mid, loaded), FilesOfAll(world, loaded));
      OnlyWorkTree(world, InstallAll(world, mid, loaded), end);
    }
  }

  /** After locking by the name "default", the default key is gone and its filter as it was. */
  lemma DefaultStaysConfigured(world: World, st: State, end: State)
    requires LocksTo(world, st, Some("default"), end)
    ensures "default" !in end.keys && (Configured(end.config, None) <==> Configured(st.config, None))
  {
    hide AllCheckOut, CheckedOut;
    SectionsDiffer(None, Some("default"));
  }

  lemma OnlyWorkTree(world: World, a: State, b: State)
    requires a.keys == b.keys && a.config == b.config
    ensures Sound(world, a) <==> Sound(world, b)
  {
    assert forall key: KeyRef :: SoundFor(world, a, key) <==> SoundFor(world, b, key);
  }

  lemma NothingToCheckOut(world: World, st: State)
    ensures AllCheckOut(world, st, []) && AfterCheckout(world, st, []) == st
  {
    assert AfterCheckout(world, st, []).workTree == st.workTree;
  }

  lemma CheckOutOneMore(world: World, st: State, paths: seq<string>, i: nat)
    requires i < |paths| && paths[i] in world.blobs
    ensures AllCheckOut(world, st, paths[..i + 1])
       <==> AllCheckOut(world, st, paths[..i]) && CheckedOut(world, st, paths[i]).Some?
    ensures AllCheckOut(world, st, paths[..i + 1]) ==>
              var before := AfterCheckout(world, st, paths[..i]);
              AfterCheckout(world, st, paths[..i + 1])
              == before.(workTree := before.workTree[paths[i] := CheckedOut(world, st, paths[i]).value])
  {
    hide CheckedOut, AfterCheckout;
    assert paths[..i + 1] == paths[..i] + [paths[i]];
    assert forall p :: p in paths[..i + 1] <==> p in paths[..i] || p == paths[i];
    if AllCheckOut(world, st, paths[..i + 1]) {
      CheckoutIs(world, st, paths[..i + 1]);
      CheckoutIs(world, st, paths[..i]);
      var before := AfterCheckout(world, st, paths[..i]);
      assert AfterCheckout(world, st, paths[..i + 1]).workTree
          == before.workTree[paths[i] := CheckedOut(world, st, paths[i]).value];
    }
  }

  lemma CheckOutPart(world: World, st: State, paths: seq<string>, n: nat)
    requires n <= |paths| && AllCheckOut(world, st, paths)
    ensures AllCheckOut(world, st, paths[..n])
  {
  }
}
