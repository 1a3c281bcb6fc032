# git-crypt, modelled and proved in Dafny

git-crypt encrypts chosen files of a git repository: git stores what `clean` makes of a file, and
writes what `smudge` makes of that into the work tree. This project models five parts of it and
proves what they promise. `dafny verify dfyconfig.toml` checks everything.

- **The filters** (`crypto.dfy`, `filters.dfy`, `filtertheorems.dfy`). AES in counter mode (section
  6.5 of NIST SP 800-38A) over a stateful keystream object with a 32-bit byte counter, and the two
  filters around it, with their 1024-byte chunks, spill file and nonce check. Each loop is proved
  against one function from the input to the exit status and output.
- **The key file** (`keyformat.dfy`, `keytheorems.dfy`, `keygrammar.dfy`, `keyfile.dfy`). A
  tag-length-value printer and parser, as functions with theorems about them and as the object whose
  methods refine them. A grammar of its own, in plain numbers, says which files load and to what.
- **The handle streams** (`handlestreams.dfy`). The two stream buffers as classes over a `char`
  array. Both are plain queues, however little the handle reads or writes at a time. The parts of
  `std::streambuf` that they rely on (single and block puts and gets) are written out as methods.
- **Quoting and options** (`windowsquoting.dfy`, `shellquoting.dfy`, `options.dfy`,
  `optiontheorems.dfy`, `filtercommands.dfy`). Each printer with the documented parser that undoes it:
  Microsoft's rules for C command-line arguments, the double quotes of the POSIX shell (section 2.2.3
  of the Shell Command Language), and the option parser with exactly what it accepts. They are composed from the configured filter command
  down to the name of the key.
- **The repository** (`listing.dfy`, `sharing.dfy`, `repostate.dfy`, `repotheorems.dfy`,
  `repository.dfy`). Installed keys, git's configuration, the work tree and the shared keys, with
  `init`, `unlock` and `lock` as methods that change them, and git's configuration calls free to
  fail at any point. The invariant of runs is `RepoState.Sound`: every filter that is configured
  even in part runs our smudge command, for a valid key name whose key file is installed and loads.

`basics.dfy`, `bytes.dfy` and `streams.dfy` hold what the others share.

## What is assumed

AES and HMAC-SHA1 are functions known only by the lengths of their arguments and results
(`Crypto.Suite`); every theorem holds for every choice of them. Random bytes, the output of `git
status`, directory entries and GPG's secret keys are parameters. Git checks out a file by running
the smudge command configured for its filter attribute, or as its blob if there is none; it fails if
a required filter fails or has no command. To `git status` a file has changed if its contents, through
the configured clean command, are not what is stored for it. GPG opens what was encrypted for a
fingerprint if that secret key is usable, and nothing else. A name is a C string, so it holds no NUL.

## Where the code promises less than its comments

The model follows the code. Where a property one would expect is false, the exact condition is
proved.

- Key rotation: `clean` takes the latest version and `smudge` always version 0, so a key file
  round-trips exactly if both have the same key material (`RoundTripExactly`). Likewise
  `add-gpg-user` shares the latest version but `unlock` looks for version 0
  (`OnlyVersionZeroIsFound`).
- The limit of 2^36 bytes that `crypto.hpp:77` gives is not the one that counts: the 32-bit counter
  ends every run that reaches 2^32 bytes, with `Crypto_error` (`Filters.Clean`).
- `generate` wraps around after version 2^32 - 1 (`GeneratedIsLatest`).
- `ofhbuf::setbuf` means to keep pending characters (`fhstream.cpp:117-122`) but drops them
  (`OutBuffer.SetBufUnbuffered`).
- `lock -k default` removes the key file of the default key but deconfigures the filter of a key
  named "default", so that the default filter stays configured without a key (`RemoveKeySound`,
  `LockLeavesOthers`, `LockOne`, `RunAll`).
- `add-gpg-user -k default` shares the default key in a key file with the name "default", which is
  malformed: whoever is given it first can unlock no key at all, and sharing again does not replace
  the file (`ShareKeeps`, `MisnamedShareStays`).
- Blanks at the front of a file name are lost when the index is listed (`ListingExactly`).
- A program name with a quote in it or a backslash at its end does not survive a Windows command
  line, nor does an argument with a NUL in it (`CommandLineRoundTrip`).
- A file committed in the clear under an encryption attribute passes through `smudge` but counts as
  changed afterwards (`StaysClean`), and from then on `lock` is refused (`UnlockAndLock`).

## Model

| member | source | states |
|---|---|---|
| Bytes.JoinedFour | util.cpp:77-83 | the number four bytes stand for is their sum with weights 2^24, 2^16, 2^8 and 1 |
| Bytes.LoadStoreBe32 | util.cpp:77-91 | reading back the four bytes written for a word gives the word |
| Bytes.StoreLoadBe32 | util.cpp:77-91 | and the other way round: every four bytes are what their word is written as |
| Bytes.StoreBe32 | util.cpp:85-91 | writes the big-endian form of the word into four cells and changes no other cell |
| Bytes.XorInvolution | crypto.cpp:60-61 | XOR with the same byte twice gives the byte back, proved from the bits up |
| Bytes.XorBitByBit | crypto.cpp:60-61 | each of the eight binary digits of the result is the sum of the two digits modulo 2 |
| Bytes.LeaklessEquals | util.cpp:122-137 | the OR of the byte-wise XORs is zero exactly if the two stretches of memory are equal |
| Streams.Stream.ReadBe32 | util.cpp:93-102 | fails exactly if fewer than four bytes are left; otherwise gives their word and consumes just them |
| Streams.Stream.WriteBe32 | util.cpp:104-109 | appends the big-endian form and nothing else |
| Crypto.CtrSplit | crypto.cpp:49-67 | processing in two parts, the second at the offset where the first ended, is processing the whole |
| Crypto.CtrByteByByte | crypto.cpp:49-67 | byte i of the output is byte i of the input XORed with byte i mod 16 of what AES makes of the nonce and the four bytes of i / 16, the highest first |
| Crypto.CtrInvolution | crypto.cpp:49-67 | processing twice from the same offset gives the data back |
| Crypto.BlocksNeverRepeat | crypto.cpp:52-65 | over any run, up to the byte that raises the error, the blocks given to AES are pairwise distinct |
| Crypto.CtrEncryptor.constructor | crypto.cpp:35-42 | the nonce is the first twelve bytes given; the object invariant holds from the start |
| Crypto.CtrEncryptor.ProcessByte | crypto.cpp:52-65 | one byte is XORed with byte i mod 16 of AES(nonce, i / 16); inside a block the pad is the right one; records the blocks given to AES |
| Crypto.CtrEncryptor.Process | crypto.cpp:49-67 | in place or not, output is CTR of the input at the running offset; the error is raised exactly if the total reaches 2^32, after the last byte was written |
| FilterTheorems.ProcessPieces | crypto.cpp:49-67 | every way of cutting a message into successive calls on one object, each in place or not, from any offset: the bytes written are CTR of the message, and the error comes exactly if the total reaches 2^32, after the bytes before that were written |
| Filters.KeepChunk | commands.cpp:763-771 | memory followed by the spill file grows by exactly the chunk; a chunk goes to the file exactly from 8 MiB on |
| Filters.ReadAll | commands.cpp:748-778 | memory followed by the spill file, and the message that was MACed, are exactly the input, unless that has 2^36 bytes or more; a spill file only exists with 8 MiB in memory |
| Filters.EncryptMemory | commands.cpp:813-822 | the part in memory is written as CTR from offset 0 |
| Filters.EncryptTempFile | commands.cpp:824-837 | the spill file is written as CTR from offset 8 MiB; the error comes exactly if the total reaches 2^32, and then what is written ends 1024 bytes before that |
| Filters.EncryptAll | commands.cpp:813-837 | whatever the split between memory and spill file, the output is CTR of the whole input; the error comes exactly from 2^32 bytes on |
| Filters.Clean | commands.cpp:740-839 | the whole run of clean: exit 0, header and CTR body below 2^32 bytes; from there to 2^36 Crypto_error with header and the first 2^32 - 1024 bytes written; exit 1 and no output from there on or without a key |
| Filters.ProcessChunk | commands.cpp:829-835 | one chunk is read and encrypted in place at the right offset |
| Filters.DecryptInput | commands.cpp:855-861 | what is written, and what is MACed, is CTR of the rest of the input |
| Filters.DecryptFileToStdout | commands.cpp:842-873 | decrypts with version 0; exit 0 exactly if the MAC of the result begins with the nonce |
| Filters.Smudge | commands.cpp:894-910 | the whole run of smudge: input shorter than 22 bytes, or that does not start with the ten header bytes, is written out in full with exit 0; any other is decrypted and verified |
| FilterTheorems.CleanByteByByte | commands.cpp:740-839 | what clean writes at each place, with header, nonce, counter bytes and limits as numbers: ten fixed bytes, twelve of the HMAC under the latest version, the mixed input |
| FilterTheorems.SmudgeByteByByte | commands.cpp:842-910 | likewise for smudge, and which of the three endings it has: the input copied, version 0 missing, or decrypted with exit 0 exactly if the nonce is the first twelve bytes of the HMAC |
| FilterTheorems.RoundTrip | commands.cpp:740-873 | smudge of what clean wrote exits 0 and writes the input, for every input below 2^32 bytes and every choice of AES and HMAC |
| FilterTheorems.AcceptedIsCleaned | commands.cpp:842-873 | if an input with the header is accepted with output x, clean writes that input for x, byte for byte |
| FilterTheorems.AcceptedIffCleaned | commands.cpp:842-873 | inputs with the header are accepted exactly if clean writes them for something |
| FilterTheorems.CleanInjective | commands.cpp:780-800 | whatever versions the key file has, different files below 2^32 bytes are never encrypted to the same bytes |
| FilterTheorems.RoundTripExactly | commands.cpp:844-851 | a key file round-trips for all inputs and primitives exactly if its latest version has the key material of version 0: clean takes the latest version, smudge always version 0 |
| KeyTheorems.StoreThenLoad | key.cpp:179-263 | loading what was stored gives the same name and entries exactly if the name is empty or valid up to its first NUL, and each entry is filed under its version |
| KeyTheorems.UnloadableName | key.cpp:215-234 | a key file stored with any other name is malformed, whatever its entries are |
| KeyTheorems.LoadStoreLoad | key.cpp:179-263 | for every byte string that loads, storing the result and loading it again changes nothing |
| KeyTheorems.LoadedIsStorable | key.cpp:193-247 | whatever bytes are loaded, also when that fails, the name left in the object would load and each entry is filed under its version |
| KeyTheorems.ParseStoredEntry | key.cpp:129-148 | a stored entry with anything behind it parses to that entry and leaves the rest |
| KeyGrammar.ValidNames | key.cpp:311-334 | the valid names: 1 to 128 letters, digits, '-' and '_' by their codes, but not "default" |
| KeyGrammar.OnlyGoodAccepted | key.cpp:67-101 | a field is accepted only if the grammar has it: the known ones with their sizes, unknown ones if even and at most 2^20 bytes |
| KeyGrammar.GoodRun | key.cpp:52-103 | every run of such fields is taken in, with the effect that the last field of a kind wins, whatever follows |
| KeyGrammar.SectionForm | key.cpp:52-103 | whatever is accepted as a section is a run of such fields and the end mark |
| KeyGrammar.SectionRefused | key.cpp:52-103 | bytes that begin neither with the end mark nor with such a field are refused behind any run of them, as the offending field says |
| KeyGrammar.RefusedForm | key.cpp:52-103 | whatever is refused as a section has that form |
| KeyGrammar.RefusedPreamble | key.cpp:179-191 | with the sixteen bytes written out: other first twelve, or too few bytes, are malformed, another version is incompatible, whatever follows |
| KeyGrammar.GoodFile | key.cpp:179-248 | every printed form of good fields and entries loads, to the last field of each kind and the last entry of each version |
| KeyGrammar.AcceptedExactly | key.cpp:179-248 | a byte string loads exactly if it is the preamble and a printed form of good fields and entries |
| KeyGrammar.RefusedFile | key.cpp:179-248 | behind the preamble, the first offending bytes decide whether the file is malformed or incompatible, whatever follows |
| KeyGrammar.EveryFile | key.cpp:179-248 | there are no other files: each has a bad preamble, loads, or offends in its header or in an entry |
| KeyGrammar.StoredEntryText | key.cpp:129-148 | the bytes of a stored entry, in the grammar: version, AES key and HMAC key with their numbers and lengths, then the end mark |
| KeyGrammar.StoredHeaderText | key.cpp:250-259 | the bytes of a stored header: the preamble, a name field if there is a name, the end mark |
| KeyTheorems.SectionLocal | key.cpp:52-103 | a run of fields that parses does so whatever follows its end marker |
| KeyTheorems.SectionTruncated | key.cpp:52-103 | a run of fields that parses is malformed when cut anywhere before its end |
| KeyTheorems.InsertInSection | key.cpp:90-101 | an unknown field at any field boundary of a section: even and at most 2^20 bytes changes nothing, odd is incompatible, longer even is malformed |
| KeyTheorems.InsertInEntries | key.cpp:193-197 | the same at any field boundary of any entry of a run of entries |
| KeyTheorems.UnknownFields | key.cpp:179-248 | the same for whole accepted files, at any field boundary of the header or of an entry |
| KeyTheorems.Truncation | key.cpp:179-263 | every proper prefix of a stored file is malformed, except those that end after the header or an entry: they load exactly that many entries of the highest versions |
| KeyTheorems.DescendingSorted | key.hpp:87 | versions are stored in strictly descending order |
| KeyTheorems.DescendingComplete | key.cpp:260-262 | every version is stored |
| KeyFiles.GeneratedIsLatest | key.cpp:297-309 | the version that generate picks is 0 exactly for an empty file or if 2^32 - 1 is in use, and otherwise one above the latest; it is above all others exactly if 2^32 - 1 is not in use |
| KeyFormat.NameComesBack | key.hpp:84-85 | the name set on a key file is the name it reports exactly if it is not empty and holds no NUL, or if there is none |
| KeyFiles.ValidateKeyName | key.cpp:311-334 | accepts a name exactly if what comes before its first NUL is not empty, not "default", at most 128 long and made of the permitted characters |
| KeyFiles.KeyFile.Latest | key.cpp:303-309 | the maximum of the versions; none exactly if there are no entries |
| KeyFiles.KeyFile.GetLatest | key.cpp:157-160 | the entry of the maximum version; none exactly if there are no entries |
| KeyFiles.KeyFile.Add | key.cpp:168-171 | files the entry under its version, replaces only that, and keeps the invariant |
| KeyFiles.KeyFile.Generate | key.cpp:297-301 | adds a fresh entry under the next version in 32 bits and keeps the rest |
| KeyFiles.KeyFile.LoadEntryField | key.cpp:67-101 | one field changes the entry, or fails, as the format says, and consumes its contents |
| KeyFiles.KeyFile.LoadEntry | key.cpp:52-103 | the loop over the stream refines the recursive parser and terminates on every input |
| KeyFiles.KeyFile.LoadHeaderField | key.cpp:215-246 | one header field changes the name, or fails, as the format says; an invalid name is cleared |
| KeyFiles.KeyFile.LoadHeader | key.cpp:200-248 | refines the recursive parser, also in the name that a failure leaves behind |
| KeyFiles.KeyFile.Load | key.cpp:179-198 | refines the recursive parser on any bytes and any previous contents, in result and contents, and keeps the invariant |
| KeyFiles.KeyFile.StoreEntryTo | key.cpp:129-148 | appends the printed entry |
| KeyFiles.KeyFile.StoreEntriesTo | key.cpp:260-262 | appends the printed entries, greatest version first |
| KeyFiles.KeyFile.StoreHeaderTo | key.cpp:252-259 | appends the header, with a name field exactly if there is a name |
| KeyFiles.KeyFile.Store | key.cpp:250-263 | appends the printed key file, to which the theorems above apply |
| HandleStreams.OutBuffer.constructor | fhstream.cpp:37-44 | the buffer is empty and the last slot is kept free |
| HandleStreams.OutBuffer.ResetBuffer | fhstream.hpp:46-49 | nothing is pending and one slot is free behind the put area |
| HandleStreams.OutBuffer.Overflow | fhstream.cpp:59-78 | the handle gets everything put so far, then the extra character, however little it takes at a time |
| HandleStreams.OutBuffer.Sync | fhstream.cpp:80-83 | afterwards the handle has everything and the buffer is empty |
| HandleStreams.OutBuffer.Xsputn | fhstream.cpp:85-112 | written directly or buffered, exactly the given characters are added to everything put |
| HandleStreams.OutBuffer.SetBufUnbuffered | fhstream.cpp:114-128 | nothing that was put is lost exactly if nothing was pending: the put pointer is reset before the distance to advance it is computed |
| HandleStreams.PutAll | fhstream.cpp:59-112 | any mix of single puts, block puts and syncs over any schedule of short writes: accepted characters followed by pending ones are everything put, in order |
| HandleStreams.ReadFully | fhstream.cpp:195-205 | short reads are repeated until the block is full or the source ends |
| HandleStreams.InBuffer.constructor | fhstream.cpp:136-143 | starts with nothing to read and nothing to put back |
| HandleStreams.InBuffer.KeepRecent | fhstream.cpp:155-157 | the overlapping move keeps the last up to four characters in order and touches nothing else |
| HandleStreams.InBuffer.Underflow | fhstream.cpp:150-171 | shows the next character of the source, or none exactly at its end; delivers nothing; keeps the putback area a suffix of what was delivered unless the end is reached |
| HandleStreams.InBuffer.Xsgetn | fhstream.cpp:173-216 | delivers the next n characters, fewer exactly if the source ends, and writes nothing behind them; if it delivers all n, what can be put back is a suffix of what was delivered, of at least four characters once that many were |
| HandleStreams.InBuffer.RefillPutback | fhstream.cpp:207-212 | after a direct read the putback area holds the last characters delivered |
| HandleStreams.InBuffer.SetBufUnbuffered | fhstream.cpp:218-227 | loses nothing that is in the buffer |
| HandleStreams.GetAll | fhstream.cpp:150-216 | any mix of peek, get, block reads and unbuffering over any schedule of short reads returns what a plain queue would |
| HandleStreams.TakenInOrder | fhstream.cpp:150-216 | what that queue gives out is a prefix of the source: nothing skipped, repeated or reordered |
| HandleStreams.GetAllThenUnget | fhstream.cpp:150-216 | after any mix of reads that did not meet the end, the last up to four characters taken can be put back, last first |
| HandleStreams.GetMixed | fhstream.cpp:150-216 | any mix of reads and putting back: what is put back is what was taken, last first, and is read again in order; at most four characters can always be put back, and the run goes on until one is to be put back after the end was met |
| WindowsQuoting.EscapeCmdlineArgument | coprocess-win32.cpp:35-69 | the nested loops append exactly the quoted argument |
| WindowsQuoting.FormatCmdline | coprocess-win32.cpp:71-81 | the quoted arguments with single blanks between them |
| WindowsQuoting.EscapedCharByChar | coprocess-win32.cpp:45-66 | a quote gets a backslash, a backslash is doubled exactly if only backslashes lie between it and a quote or the end, all else stays |
| WindowsQuoting.OneMoreArgument | coprocess-win32.cpp:71-81 | an argument more adds a blank and the argument between quotes |
| WindowsQuoting.BodyRoundTrip | coprocess-win32.cpp:45-66 | what goes between the quotes is read back as the argument by the rules for C arguments |
| WindowsQuoting.RunRoundTrip | coprocess-win32.cpp:50-62 | in particular a run of backslashes before a quote, at the end or elsewhere |
| WindowsQuoting.RestRoundTrip | coprocess-win32.cpp:71-81 | any list of arguments behind the program name is read back |
| WindowsQuoting.SplitFormat | coprocess-win32.cpp:35-81 | the whole string is taken apart into the list given exactly if the program name has no quote and no backslash at its end |
| WindowsQuoting.CommandLineRoundTrip | coprocess-win32.cpp:35-81 | given the command line as a C string, the started program sees the list exactly if besides no argument holds a NUL; the other arguments may be anything else |
| ShellQuoting.EscapeShellArg | util.cpp:63-75 | the loop gives the escaped form, quotes included |
| ShellQuoting.EscapedOnly | util.cpp:66-72 | wherever a character stands, it gets a backslash exactly if it is one of the four that are special between double quotes |
| ShellQuoting.BodyRoundTrip | util.cpp:66-72 | between double quotes the shell reads the escaped characters back as the string |
| ShellQuoting.EscapedIsOneWord | util.cpp:63-75 | the shell sees one word, equal to the string, whatever characters it has |
| ShellQuoting.CommandSplit | commands.cpp:163-182 | an escaped first word and plain words behind it are exactly the words the shell sees |
| Options.FindOption | parse_options.cpp:32-40 | the first option of that name, if any |
| Options.FindEquals | parse_options.cpp:53-58 | the place of the first '=', or the end |
| Options.ParseLong | parse_options.cpp:50-83 | one long option: assignments, arguments consumed and all three errors |
| Options.ParseShort | parse_options.cpp:85-111 | one cluster of short options: assignments, arguments consumed and both errors |
| Options.ParseOptions | parse_options.cpp:42-115 | the loops refine the recursive parser, in assignments, index of the first operand and error, and terminate on every input |
| Options.ShortInverts | parse_options.cpp:85-111 | a rendered cluster of flags, with a value glued on or following, parses to just these settings |
| Options.OneInverts | parse_options.cpp:50-111 | every form of a setting parses back to that setting |
| Options.ParseInvertsRendering | parse_options.cpp:42-115 | any list of settings in any mix of forms, then operands or "--": exactly these assignments, the last one winning, and exactly these operands |
| OptionTheorems.AssignmentsAre | parse_options.cpp:66-79 | over any settings, each value variable ends with the last value given to it and a flag is set exactly if some setting marks it |
| OptionTheorems.FailsAt | parse_options.cpp:42-115 | after any well-formed settings, an unknown option, a missing value or a value that is not taken is that error, with the variables as set so far |
| OptionTheorems.ParsesExactly | parse_options.cpp:42-115 | a command line is accepted exactly if it is some rendering of well-formed settings, followed by operands |
| OptionTheorems.FailsExactly | parse_options.cpp:42-115 | and refused exactly if it is some well-formed settings followed by one of the five offending arguments, with the error of that argument |
| FilterCommands.AttributeNameInjective | commands.cpp:67-76 | different keys have different attribute names |
| FilterCommands.KeyNameOption | commands.cpp:712-721 | the plumbing options get exactly the name out of --key-name=NAME |
| FilterCommands.PlumbingForms | commands.cpp:712-721 | -k NAME, -kNAME and --key-name NAME give the key name too, --key-file PATH and --key-file=PATH the key file |
| FilterCommands.CommandReachesKey | commands.cpp:163-182 | for every program path and valid key name, the shell starts that program with the subcommand and it finds that key name and no operands |
| RepoState.ConfiguredVariables | commands.cpp:163-182 | the four variables by their names, in the sections filter.git-crypt and diff.git-crypt, with -NAME behind for a named key: they start smudge, clean and diff of this program for exactly this key, and the filter is required |
| RepoState.DeconfiguredIs | commands.cpp:184-197 | by the same names: the filter section goes exactly if smudge, clean or required is in it, the diff section exactly if textconv is; everything else stays |
| Listing.RegularModes | commands.cpp:518-521 | of the six-digit modes git prints, those accepted begin with 10 |
| Listing.EncryptedExactly | commands.cpp:561-582 | a name is listed exactly if a regular file has it and its attribute has the filter as its value; "unspecified", "unset" and "set" are no values |
| Listing.EncryptedInOrder | commands.cpp:561-582 | the names come in the order of the index, at most one for each entry |
| Listing.GetFileAttributesZ | commands.cpp:446-468 | the loop over NUL-terminated fields refines its specification |
| Listing.LineParsed | commands.cpp:414-427 | a line is split into the attribute and its value whatever the name holds, ": " included |
| Listing.GetFileAttributes | commands.cpp:406-438 | the loop over lines refines its specification |
| Listing.AttrZExact | commands.cpp:442-469 | the answer git gives for a file is read as exactly its attributes |
| Listing.AttrLinesExact | commands.cpp:390-439 | so are the lines of an older git, whatever form it prints the name in, even if that holds ": " |
| Listing.QueryFilter | commands.cpp:570-576 | both ways of asking give the same answer, the effective filter attribute, for every name |
| Listing.GetEncryptedFiles | commands.cpp:561-582 | in order, exactly the regular files of the listing, whatever its bytes, whose filter attribute is that of the key |
| Listing.ListingIs | commands.cpp:561-568 | what is read from the printed index is the index, with blanks at the front of names lost |
| Listing.ListingExactly | commands.cpp:566-567 | it is the index exactly if no name starts with a blank |
| Sharing.OneEntryFile | commands.cpp:687-694 | the data encrypted for collaborators is the stored key file with this name, valid or not, and this entry only |
| Sharing.EncryptRepoKey | commands.cpp:685-710 | under any name: success adds a share for every recipient who has none; when GPG fails midway, for a prefix of the recipients; the files listed as new are exactly the added ones |
| Sharing.TakeVersion | commands.cpp:637-648 | what was decrypted must load, hold the version and carry the name; only that version is taken |
| Sharing.DecryptRepoKey | commands.cpp:620-656 | the secret keys are tried in order; the first share that GPG opens decides |
| Sharing.DecryptRepoKeys | commands.cpp:658-683 | every directory with a valid name is tried; the first error ends it |
| Sharing.CheckedExactly | commands.cpp:637-648 | for any bytes: not loading, lacking the version and carrying another name each have their error, in this order; otherwise exactly the entry of the version is recovered |
| Sharing.MisplacedShare | commands.cpp:637-648 | a share of one valid name looked at under another is WrongName, and one without the version WrongVersion |
| Sharing.NoneOpens | commands.cpp:620-656 | in any repository: if GPG opens no share of the key, its error is reported exactly if there is one |
| Sharing.RecoveredIsGenuine | commands.cpp:620-656 | in any repository: what is recovered comes from a share that a secret key opens, that loads, and that carries exactly this name and version |
| Sharing.FirstErrorDecides | commands.cpp:658-683 | in any repository: the first directory whose key fails decides |
| Sharing.AllAreRecovered | commands.cpp:658-683 | in any repository: if none fails, the keys recovered are exactly those of all directories |
| Sharing.ShareAdds | commands.cpp:685-710 | sharing under any name reaches every recipient, leaves existing shares alone, and adds the key file of that name, in its directory and nowhere else |
| Sharing.ShareKeeps | commands.cpp:685-710 | sharing keeps the invariant that each share holds its directory's one-entry key file exactly if the name is valid or nothing is added |
| Sharing.SharedFileLoads | commands.cpp:637-648 | what was shared passes all checks and gives back the entry exactly if the name is valid; under the name "default" it is malformed |
| Sharing.DecryptExact | commands.cpp:620-656 | a key is recovered exactly if one of the secret keys opens a share, whatever fails before; GPG's error comes exactly if there are shares but none opens |
| Sharing.DecryptAllExact | commands.cpp:658-683 | one directory with shares of which none opens is an error for all; otherwise exactly the keys of the directories with an openable share are recovered, in order |
| Sharing.SharingRoundTrip | commands.cpp:620-710 | after sharing version 0 with someone who holds a usable key, that name and entry are recovered exactly if the name is valid; then only another key's directory can prevent it |
| Sharing.FirstOpenDecides | commands.cpp:625-648 | the first secret key for which there is a share that GPG opens decides, whatever failed before |
| Sharing.MisnamedShareStays | commands.cpp:696-710 | the default key shared by the name "default": someone for whom that share is the first that GPG opens recovers no key at all, and sharing again in the right way does not help |
| Sharing.OnlyVersionZeroIsFound | commands.cpp:1074-1077 | a key newly shared in its latest version can be recovered exactly if that version is 0 and the name is valid |
| Sharing.SharedAlone | commands.cpp:620-710 | with nothing else in the repository the shared key is all that is recovered, exactly if its name is valid |
| RepoState.SectionsDiffer | commands.cpp:163-197 | the configuration sections of different keys, and of filters and diffs, never coincide |
| RepoState.CheckoutTwice | commands.cpp:222-232 | checking out in batches is checking out everything, in success and in effect |
| RepoState.InstallAllRestores | commands.cpp:1086-1099 | installing and configuring keys keeps the invariant of runs, and establishes it if it did not hold for just one of them |
| RepoState.RemoveKeySound | commands.cpp:1179-1194 | removing a key keeps the invariant exactly unless the name given is "default" while the default key is configured |
| RepoState.LockChecksOut | commands.cpp:1191-1205 | the checkout at the end of a lock cannot fail |
| RepoState.LockAllChecksOut | commands.cpp:1169-1205 | nor can the one at the end of a lock of all keys |
| RepoTheorems.LockThenUnlock | commands.cpp:1021-1208 | locking one unlocked key and unlocking it again, whatever others are installed, restores keys, configuration and work tree, and that checkout cannot fail |
| RepoTheorems.UnlockThenLock | commands.cpp:1021-1208 | unlocking one locked key and locking it again, whatever others are installed, does too |
| RepoTheorems.LockAllThenUnlockAll | commands.cpp:1021-1208 | so does locking all keys, in any order, and unlocking with all their key files |
| RepoTheorems.UnlockAllThenLockAll | commands.cpp:1021-1208 | so does unlocking any number of keys, of equal names too, where none is installed and locking all keys, in any order |
| RepoTheorems.LockLeavesOthers | commands.cpp:1179-1207 | locking by any name leaves the configuration and the files of every other key as they are, and its key file exactly unless the name is "default" and the other key is the default key |
| RepoTheorems.LockedFilesAreRaw | commands.cpp:1191-1205 | after a lock every file of the key is its blob |
| RepoTheorems.ConfiguredLoads | commands.cpp:596-618 | each of the three configured commands loads exactly the installed key file of its key |
| RepoTheorems.CheckoutDecrypts | commands.cpp:1086-1106 | with a key installed and configured that round-trips, checking out a file that clean encrypted gives its contents |
| RepoTheorems.ClearChecksOut | commands.cpp:894-907 | with any key installed and configured, a file that was committed in the clear is checked out as it stands |
| RepoTheorems.StaysClean | commands.cpp:894-911 | a file smudge has accepted counts as unchanged afterwards exactly if its blob looks encrypted |
| RepoTheorems.LockedUnchanged | commands.cpp:1191-1205 | after a lock no file of the key counts as changed |
| RepoTheorems.UnlockedChanged | commands.cpp:1086-1106 | with the key unlocked and its files in sync, some file of it counts as changed exactly if some blob does not look encrypted |
| RepoTheorems.UnlockDecrypts | commands.cpp:1086-1112 | unlocking with any number of keys that the files are encrypted with, some perhaps committed in the clear, cannot fail at the checkout and shows the contents of all of them |
| RepoTheorems.SharedKeyUnlocks | commands.cpp:1069-1112 | from sharing a key to reading the files, whatever else is shared: if its name is valid and no directory is blocked, the recipient recovers it with the others, and unlocking with them shows the contents of their files, encrypted or in the clear; under any other name it is not recovered |
| Repositories.Repository.ConfigureGitFilters | commands.cpp:163-182 | success sets exactly the four variables; a failure, which a call to git must cause, leaves each variable as it was or as intended |
| Repositories.Repository.HasFilter | commands.cpp:187-189 | any of the three variables is there |
| Repositories.Repository.DeconfigureGitFilters | commands.cpp:184-197 | success takes away the two sections that are in use; a failure at most the filter section |
| Repositories.PartlyConfiguredSound | commands.cpp:163-182 | however far configuring gets, the invariant holds if the key was installed before |
| Repositories.Repository.GitCheckoutBatch | commands.cpp:199-220 | succeeds exactly if every file checks out, and then changes just these files |
| Repositories.Repository.GitCheckout | commands.cpp:222-232 | any number of files in batches of 100: succeeds exactly if all check out, with the effect of one checkout; records whether the invariant held |
| Repositories.Repository.GetEncryptedFilesFor | commands.cpp:523-594 | exactly the files of the key, all of which have a blob |
| Repositories.Repository.InstallKey | commands.cpp:1087-1097 | writes the key file before configuring, in any state; the invariant is kept whether or not git fails |
| Repositories.Repository.GenerateKeyFile | commands.cpp:998-1001 | a storable key file with version 0 only and the given name |
| Repositories.Repository.Init | commands.cpp:985-1012 | in any state each ending with its condition and what it leaves; the invariant is kept in all of them |
| Repositories.Repository.LoadKeyFiles | commands.cpp:1043-1068 | succeeds exactly if all files are readable and load, and gives their contents in order |
| Repositories.Repository.InstallAndCheckOut | commands.cpp:1086-1112 | in any state: success is an unlock with these keys; a failed checkout means that some file does not check out; a throw, only by git, leaves a first part installed; the invariant is kept, or restored if only one of the keys broke it |
| Repositories.Repository.Unlock | commands.cpp:1021-1113 | in any state: a dirty work tree or a bad key file is status 1 and no change; otherwise each of the three endings comes with its state, and status 1 only if some file does not check out; the invariant is kept, or restored if only one of the keys broke it |
| Repositories.Repository.UnlockGpg | commands.cpp:1069-1112 | in any state: a dirty work tree, missing shares and errors change nothing; otherwise each of the three endings comes with its state, for exactly the recovered keys; the invariant is kept or restored as above |
| Repositories.Repository.LockKey | commands.cpp:1191-1193 | the key file goes and so does its configuration, unless git fails |
| Repositories.Repository.LockOne | commands.cpp:1179-1207 | in any state success is a lock of that key; whether an invariant that held before holds afterwards is given exactly |
| Repositories.Repository.LockAll | commands.cpp:1169-1207 | in any state success is a lock of all keys in some order, which keeps the invariant; a throw, only by git, has removed a first part of the keys |
| Repositories.Repository.Lock | commands.cpp:1125-1208 | in any state: statuses 1 and 2 with their exact conditions and no change; a throw, only by git, with what it leaves; success is the lock asked for, and whether an invariant that held before still does is given exactly |
| Repositories.RunAll | commands.cpp:964-1208 | over every sequence of commands the invariant holds at each checkout and after each command; if git's configuration calls succeed and no lock is by the name "default", all of them run; a checkout that finds it broken follows a lock by that name, which leaves the default filter configured without its key |
| Repositories.LockAndUnlock | commands.cpp:1021-1208 | the two commands run one after the other on an unlocked key change nothing unless a configuration call of git fails, and return 0 exactly if git status is clean at first, which for the files of the key means that all their blobs look encrypted |
| Repositories.UnlockAndLock | commands.cpp:1021-1208 | the other way round on a locked key: unlock returns 1 exactly if other files have changed or some file does not check out; then lock is not refused exactly if all blobs look encrypted, and takes everything back |
| Repositories.LockLeaves | commands.cpp:1179-1197 | a lock, whether it succeeds or throws, can break the invariant only for the key whose file it took |
| Repositories.UnlockRestores | commands.cpp:1086-1112 | unlocking with the file of that key among others restores the invariant |

## Left out

- The internals of AES, HMAC-SHA1 and the random generator, wiping of memory, and the timing of the
  comparison: foreign calls, or not about results.
- Legacy key files (`load_legacy`, the deprecated arguments of the filters and of `init`) and
  `migrate-key`: a fixed-length format without a round trip of its own.
- `diff` and `Aes_ctr_encryptor::process_stream`: the loops of `smudge` over another input.
- `status`, `export-key`, `keygen`, the rest of `add-gpg-user`, help texts, the parsing of versions
  and of GPG's listings, commits: input and output only, or easy.
- Failing writes to files and streams, exceptions thrown by a handle in the middle of a write, and
  the directories that are made for files.
- Options of `init`, `unlock` and `lock` as strings: the commands take what the option parser, which
  is modelled, would have assigned.
- Substitutions git makes in a filter command itself ('%' in the program's path), and shell syntax
  beyond blanks, plain characters and double quotes: `ShellQuoting.Split` has no result for it.
- HandleStreams.PutAll: the mix of operations does not include switching to unbuffered output, which
  may drop characters; `OutBuffer.SetBufUnbuffered` says exactly when.
- HandleStreams.InBuffer.Underflow: says nothing about the putback area once the end of the source
  is reached, because the code has then moved characters but not the pointers.
- HandleStreams.GetAllThenUnget: for the same reason asks that no read met the end of the source.
- HandleStreams.Sink: a handle that accepts nothing for ever is not modelled; the loops would not end.
- Listing.RegularModes: `strtoul` on signs, blanks or overflowing digits is not modelled; git prints
  none of these.
- Repositories.Repository.Lock: a key name that is no plain directory entry ("", "." or a path) and
  a missing key directory are not modelled.
- Repositories.Repository.GitCheckoutBatch: which files git has written when one of them fails is
  left open by the specification; it is some of them.
- RepoState.WorldOk: file names with a blank at the front, which `ListingExactly` shows to be misread,
  are left out of the theorems about whole commands; of the spellings git takes for a required
  filter only "true" is one here.
- Repositories.LockAndUnlock: git may trust the time stamps of a file it has written itself and not
  look at its contents; here it always compares them.
- Sharing.SharingRoundTrip: an empty key name is left out, here and in `SharedKeyUnlocks`;
  `add-gpg-user` finds no key file to share by it.
- Repositories.RunAll: index, attributes and blobs stay the same over the sequence of commands; the
  invariant does not depend on them.
- Crypto.CtrEncryptor.Process: the counter block and the pad are values held by the object, not
  arrays of their own; the input and output buffers are arrays.
- KeyFiles.KeyFile.Load: entries and names are values in the fields of the object, and one field of
  an entry is replaced by building a new entry.
- WindowsQuoting.EscapeCmdlineArgument: the backslash counter is unbounded; in the code it wraps
  beyond 2^31 backslashes.
- Sharing.EncryptRepoKey: whether a collaborator's key is trusted only changes how GPG is called and
  is left out; a partial file left by a failing GPG is not modelled.
