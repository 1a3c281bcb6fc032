/** The clean and smudge filters: deterministic encryption of whole files. */
module Filters {
  import opened Basics
  import opened Bytes
  import opened Crypto
  import opened Streams
  import opened KeyFormat
  import opened KeyFiles

  const CHUNK := 1024
  const MEMORY_LIMIT := 8388608
  const MAX_CRYPT_BYTES := 0x10_0000_0000
  const HEADER_LEN := 22

  /** "\0GITCRYPT\0" */
  const FILE_MAGIC: seq<Byte> := [0, 71, 73, 84, 67, 82, 89, 80, 84, 0]

  /** How a filter run ends: with an exit status, or with the error for too much data. */
  datatype Exit = Exit(status: int) | CryptoError

  /** What a filter run amounts to: how it ends and what it wrote to standard output. */
  datatype Run = Run(exit: Exit, output: seq<Byte>)

  // --------------------------------------------------------- specifications

  /** The nonce is derived from the contents alone, so that encryption is deterministic. */
  function SyntheticNonce(suite: Suite, key: HmacKey, x: seq<Byte>): Nonce {
    suite.hmac(key, x)[..NONCE_LEN]
  }

  function FileHeader(suite: Suite, key: HmacKey, x: seq<Byte>): (h: seq<Byte>)
    ensures |h| == HEADER_LEN
  {
    FILE_MAGIC + SyntheticNonce(suite, key, x)
  }

  /** Everything that gets written before the counter runs out: all but the last full chunk. */
  function UpToLimit(x: seq<Byte>): (y: seq<Byte>)
    ensures |y| < WORDS
  {
    if |x| < WORDS then x else x[..WORDS - CHUNK]
  }

  ghost function CleanRun(suite: Suite, entries: map<Word32, Entry>, x: seq<Byte>): Run {
    if entries == map[] || |x| >= MAX_CRYPT_BYTES then Run(Exit(1), [])
    else
      var e := entries[Max(entries.Keys)];
      Run(if |x| < WORDS then Exit(0) else CryptoError,
          FileHeader(suite, e.hmacKey, x)
          + Ctr(suite, e.aesKey, SyntheticNonce(suite, e.hmacKey, x), 0, UpToLimit(x)))
  }

  function DecryptRun(suite: Suite, entries: map<Word32, Entry>, nonce: Nonce, body: seq<Byte>): Run {
    if 0 !in entries then Run(Exit(1), [])
    else
      var x := Ctr(suite, entries[0].aesKey, nonce, 0, UpToLimit(body));
      if |body| >= WORDS then Run(CryptoError, x)
      else Run(Exit(if SyntheticNonce(suite, entries[0].hmacKey, x) == nonce then 0 else 1), x)
  }

  predicate LooksEncrypted(c: seq<Byte>) {
    |c| >= HEADER_LEN && c[..10] == FILE_MAGIC
  }

  function SmudgeRun(suite: Suite, entries: map<Word32, Entry>, c: seq<Byte>): Run {
    if LooksEncrypted(c) then DecryptRun(suite, entries, c[10..HEADER_LEN], c[HEADER_LEN..])
    else Run(Exit(0), c)
  }

  // -------------------------------------------------------------- the HMAC

  class HmacState {
    const suite: Suite
    const key: HmacKey
    var message: seq<Byte>

    constructor (suite: Suite, key: HmacKey)
      ensures this.suite == suite && this.key == key && message == []
    {
      this.suite, this.key, message := suite, key, [];
    }

    method Add(bytes: seq<Byte>)
      modifies this
      ensures message == old(message) + bytes
    {
      message := message + bytes;
    }

    method Get() returns (digest: array<Byte>)
      ensures fresh(digest) && digest[..] == suite.hmac(key, message)
    {
      var d := suite.hmac(key, message);
      digest := new Byte[DIGEST_LEN](i requires 0 <= i < DIGEST_LEN => d[i]);
      assert digest[..] == d;
    }
  }

  // -------------------------------------------------------------- clean

  /** The bytes kept in the temporary file, if there is one yet. */
  ghost function Spilled(tempFile: Stream?): seq<Byte>
    reads tempFile
  {
    if tempFile == null then [] else tempFile.data
  }

  /**
   Keeps a chunk that brings the size to the given one: in memory up to 8 MiB, from then on in the
   temporary file, which is created when it is first needed.
   */
  method KeepChunk(fileSize: nat, fileContents: seq<Byte>, tempFile: Stream?, bytes: seq<Byte>)
    returns (contents: seq<Byte>, temp: Stream?)
    requires tempFile != null ==> tempFile.Valid() && fileSize > MEMORY_LIMIT
    modifies tempFile
    ensures temp == null <==> fileSize <= MEMORY_LIMIT
    ensures temp != null ==> temp.Valid() && (temp == tempFile || fresh(temp))
    ensures contents == if temp == null then fileContents + bytes else fileContents
    ensures contents + Spilled(temp) == fileContents + old(Spilled(tempFile)) + bytes
  {
    contents, temp := fileContents, tempFile;
    if fileSize <= MEMORY_LIMIT {
      contents := contents + bytes;
    } else {
      if temp == null {
        temp := new Stream([]);
      }
      temp.Write(bytes);
    }
    Assoc(fileContents, old(Spilled(tempFile)), bytes);
  }

  /**
   Reads the whole input, computing the HMAC on the way. The first 8 MiB stay in memory, the rest
   goes to a temporary file; reading stops at the length that could never be encrypted.
   */
  method ReadAll(hmac: HmacState, input: Stream)
    returns (fileSize: nat, fileContents: seq<Byte>, tempFile: Stream?)
    requires input.Valid() && input.good && hmac.message == []
    modifies hmac, input
    ensures tempFile != null ==> fresh(tempFile) && tempFile.Valid() && |fileContents| == MEMORY_LIMIT
    ensures tempFile == null ==> |fileContents| <= MEMORY_LIMIT
    ensures var x := old(input.Rest());
            && (fileSize >= MAX_CRYPT_BYTES <==> |x| >= MAX_CRYPT_BYTES)
            && (|x| < MAX_CRYPT_BYTES ==> hmac.message == x && fileContents + Spilled(tempFile) == x)
  {
    ghost var x := input.Rest();
    fileSize, fileContents, tempFile := 0, [], null;
    var buffer := new Byte[CHUNK](i => 0);
    while input.good && fileSize < MAX_CRYPT_BYTES
      invariant input.Valid() && fileSize + |input.Rest()| == |x|
      invariant if input.good then fileSize % 1024 == 0 else input.Rest() == []
      invariant tempFile != null ==> fresh(tempFile) && tempFile != input && tempFile.Valid()
      invariant if tempFile == null then fileSize == |fileContents| <= MEMORY_LIMIT
                else fileSize > MEMORY_LIMIT == |fileContents|
      invariant fileContents + Spilled(tempFile) == hmac.message
      invariant hmac.message + input.Rest() == x
      decreases input.good, |input.Rest()|
    {
      ghost var rest := input.Rest();
      var bytesRead := input.Read(buffer, CHUNK);
      ghost var chunk := buffer[..bytesRead];
      assert rest == chunk + input.Rest();
      Assoc(hmac.message, chunk, input.Rest());
      hmac.Add(buffer[..bytesRead]);
      fileSize := fileSize + bytesRead;
      fileContents, tempFile := KeepChunk(fileSize, fileContents, tempFile, buffer[..bytesRead]);
    }
  }

  /**
   The keystream position at the start of a full or last chunk, and what one more chunk makes of the
   output; the error can only come at the end of the very last full chunk.
   */
  lemma ChunkStep(suite: Suite, key: AesKey, nonce: Nonce, start: nat, data: seq<Byte>, done: nat, n: nat)
    requires start + done < WORDS && start % 1024 == 0 && done % 1024 == 0 && n <= CHUNK && done + n <= |data|
    ensures start + done + n >= WORDS ==> start + done == WORDS - CHUNK && n == CHUNK
    ensures n == CHUNK ==> (done + n) % 1024 == 0
    ensures start + done + n <= WORDS ==>
              Ctr(suite, key, nonce, start, data[..done]) + Ctr(suite, key, nonce, start + done, data[done..][..n])
              == Ctr(suite, key, nonce, start, data[..done + n])
  {
    hide Ctr;
    assert start % 1024 == 0 && done % 1024 == 0 ==> (start + done) % 1024 == 0;
    if start + done + n <= WORDS {
      assert data[..done + n] == data[..done] + data[done..][..n];
      CtrSplit(suite, key, nonce, start, data[..done], data[done..][..n]);
    }
  }

  /** Encrypts the part held in memory, reading it through a moving pointer. */
  method EncryptMemory(aes: CtrEncryptor, fileData: array<Byte>, buffer: array<Byte>, out: Stream)
    requires aes.Valid() && out.Valid() && buffer.Length == CHUNK && buffer != fileData
    requires aes.byteCounter == 0 && fileData.Length <= MEMORY_LIMIT
    modifies aes, buffer, out
    ensures aes.Valid() && out.Valid()
    ensures aes.byteCounter == fileData.Length && aes.exhausted == old(aes.exhausted)
    ensures out.data == old(out.data) + Ctr(aes.suite, aes.key, aes.nonce, 0, fileData[..])
  {
    hide Ctr, CtrEncryptor.Valid;
    ghost var x := fileData[..];
    var p, fileDataLen := 0, fileData.Length;
    CtrEmpty(aes.suite, aes.key, aes.nonce, 0);
    while fileDataLen > 0
      invariant 0 <= p && 0 <= fileDataLen && p + fileDataLen == |x| && (fileDataLen > 0 ==> p % 1024 == 0)
      invariant aes.Valid() && out.Valid() && aes.byteCounter == p && aes.exhausted == old(aes.exhausted)
      invariant out.data == old(out.data) + Ctr(aes.suite, aes.key, aes.nonce, 0, x[..p])
      invariant fileData[..] == x
    {
      var bufferLen := Min(CHUNK, fileDataLen);
      ChunkStep(aes.suite, aes.key, aes.nonce, 0, x, p, bufferLen);
      TakenAt(x, p, bufferLen);
      assert fileData[p..p + bufferLen] == x[p..p + bufferLen];
      var tooMuch := aes.Process(fileData, p, buffer, bufferLen);
      assert buffer[..bufferLen] == Ctr(aes.suite, aes.key, aes.nonce, p, x[p..][..bufferLen]);
      Assoc(old(out.data), Ctr(aes.suite, aes.key, aes.nonce, 0, x[..p]), buffer[..bufferLen]);
      out.Write(buffer[..bufferLen]);
      p := p + bufferLen;
      fileDataLen := fileDataLen - bufferLen;
    }
    assert x[..p] == x;
  }

  lemma TakenAt(x: seq<Byte>, p: nat, n: nat)
    requires p + n <= |x|
    ensures x[p..][..n] == x[p..p + n]
  {
  }

  lemma CtrEmpty(suite: Suite, key: AesKey, nonce: Nonce, offset: nat)
    requires offset <= WORDS
    ensures Ctr(suite, key, nonce, offset, []) == []
  {
  }

  /** Reads one chunk into the buffer and encrypts or decrypts it in place. */
  method ProcessChunk(aes: CtrEncryptor, input: Stream, buffer: array<Byte>) returns (n: nat, tooMuch: bool)
    requires aes.Valid() && input.Valid() && buffer.Length == CHUNK
    modifies aes, input, buffer
    ensures aes.Valid() && input.Valid()
    ensures n == if old(input.good) then Min(CHUNK, |old(input.Rest())|) else 0
    ensures input.Rest() == old(input.Rest())[n..] && input.good == (old(input.good) && n == CHUNK)
    ensures tooMuch == (old(aes.byteCounter) + n >= WORDS)
    ensures !tooMuch ==> aes.byteCounter == old(aes.byteCounter) + n
    ensures !tooMuch ==>
              buffer[..n] == Ctr(aes.suite, aes.key, aes.nonce, old(aes.byteCounter), old(input.Rest())[..n])
  {
    hide Ctr, CtrEncryptor.Valid;
    n := input.Read(buffer, CHUNK);
    assert buffer[0..n] == buffer[..n];
    tooMuch := aes.Process(buffer, 0, buffer, n);
  }

  /** Encrypts the temporary file. */
  method EncryptTempFile(aes: CtrEncryptor, tempFile: Stream, buffer: array<Byte>, out: Stream) returns (tooMuch: bool)
    requires aes.Valid() && tempFile.Valid() && out.Valid() && buffer.Length == CHUNK && tempFile != out
    requires aes.byteCounter == MEMORY_LIMIT
    modifies aes, tempFile, buffer, out
    ensures out.Valid()
    ensures tooMuch == (MEMORY_LIMIT + |old(tempFile.data)| >= WORDS)
    ensures var x := old(tempFile.data);
            out.data == old(out.data)
              + Ctr(aes.suite, aes.key, aes.nonce, MEMORY_LIMIT,
                    if tooMuch then x[..WORDS - CHUNK - MEMORY_LIMIT] else x)
  {
    hide Ctr, CtrEncryptor.Valid, Stream.Valid, Stream.Rest;
    ghost var x, start := tempFile.data, aes.byteCounter;
    ghost var done := 0;
    tempFile.SeekToStart();
    CtrEmpty(aes.suite, aes.key, aes.nonce, start);
    var eof := tempFile.AtEnd();
    while !eof
      invariant 0 <= done <= |x| && aes.Valid() && tempFile.Valid() && out.Valid()
      invariant tempFile.Rest() == x[done..] && eof == (done == |x|) && tempFile.good == !eof
      invariant start + done < WORDS && aes.byteCounter == start + done
      invariant !eof ==> done % 1024 == 0
      invariant out.data == old(out.data) + Ctr(aes.suite, aes.key, aes.nonce, start, x[..done])
      decreases |x| - done
    {
      var bufferLen;
      bufferLen, tooMuch := ProcessChunk(aes, tempFile, buffer);
      ChunkStep(aes.suite, aes.key, aes.nonce, start, x, done, bufferLen);
      if tooMuch {
        return;
      }
      Assoc(old(out.data), Ctr(aes.suite, aes.key, aes.nonce, start, x[..done]), buffer[..bufferLen]);
      out.Write(buffer[..bufferLen]);
      done := done + bufferLen;
      eof := tempFile.AtEnd();
    }
    assert x[..done] == x;
    return false;
  }

  /** Memory first, then the temporary file: together the keystream runs over the whole input. */
  lemma TwoParts(suite: Suite, key: AesKey, nonce: Nonce, memory: seq<Byte>, spilled: seq<Byte>)
    requires |memory| == MEMORY_LIMIT
    ensures var y := if |memory| + |spilled| < WORDS then spilled else spilled[..WORDS - CHUNK - MEMORY_LIMIT];
            Ctr(suite, key, nonce, 0, UpToLimit(memory + spilled))
            == Ctr(suite, key, nonce, 0, memory) + Ctr(suite, key, nonce, MEMORY_LIMIT, y)
  {
    hide Ctr;
    var y := if |memory| + |spilled| < WORDS then spilled else spilled[..WORDS - CHUNK - MEMORY_LIMIT];
    assert UpToLimit(memory + spilled) == memory + y;
    CtrSplit(suite, key, nonce, 0, memory, y);
  }

  /** Encrypts everything that was read: first the copy in memory, then the temporary file. */
  method EncryptAll(aes: CtrEncryptor, fileContents: seq<Byte>, tempFile: Stream?, out: Stream) returns (tooMuch: bool)
    requires aes.Valid() && out.Valid() && aes.byteCounter == 0
    requires tempFile == null ==> |fileContents| <= MEMORY_LIMIT
    requires tempFile != null ==> tempFile.Valid() && tempFile != out && |fileContents| == MEMORY_LIMIT
    modifies aes, tempFile, out
    ensures out.Valid()
    ensures var x := fileContents + old(Spilled(tempFile));
            && tooMuch == (|x| >= WORDS)
            && out.data == old(out.data) + Ctr(aes.suite, aes.key, aes.nonce, 0, UpToLimit(x))
  {
    hide Ctr, CtrEncryptor.Valid, UpToLimit;
    var buffer := new Byte[CHUNK](i => 0);
    var fileData := new Byte[|fileContents|](i requires 0 <= i < |fileContents| => fileContents[i]);
    assert fileData[..] == fileContents;
    EncryptMemory(aes, fileData, buffer, out);
    if tempFile != null {
      ghost var memory := Ctr(aes.suite, aes.key, aes.nonce, 0, fileContents);
      ghost var spilled := tempFile.data;
      TwoParts(aes.suite, aes.key, aes.nonce, fileContents, spilled);
      tooMuch := EncryptTempFile(aes, tempFile, buffer, out);
      ghost var y := if tooMuch then spilled[..WORDS - CHUNK - MEMORY_LIMIT] else spilled;
      Assoc(old(out.data), memory, Ctr(aes.suite, aes.key, aes.nonce, MEMORY_LIMIT, y));
    } else {
      WholeInput(fileContents);
      assert fileContents + [] == fileContents;
      tooMuch := false;
    }
  }

  /** Encrypts standard input to standard output with the latest key. */
  method Clean(suite: Suite, keyFile: KeyFile, input: Stream, out: Stream) returns (exit: Exit)
    requires keyFile.Valid() && input.Valid() && input.good && out.Valid() && input != out
    modifies input, out
    ensures out.Valid()
    ensures var run := CleanRun(suite, keyFile.entries, old(input.Rest()));
            exit == run.exit && out.data == old(out.data) + run.output
  {
    hide Ctr, CtrEncryptor.Valid, UpToLimit, KeyFile.Valid;
    ghost var x := input.Rest();
    var key := keyFile.GetLatest();
    if key.None? {
      return Exit(1);
    }
    var hmac := new HmacState(suite, key.value.hmacKey);
    var fileSize, fileContents, tempFile := ReadAll(hmac, input);
    if fileSize >= MAX_CRYPT_BYTES {
      return Exit(1);
    }
    var digest := hmac.Get();
    out.Write(FILE_MAGIC);
    out.Write(digest[..NONCE_LEN]);
    Assoc(old(out.data), FILE_MAGIC, digest[..NONCE_LEN]);
    var aes := new CtrEncryptor(suite, key.value.aesKey, digest, 0);
    assert aes.nonce == SyntheticNonce(suite, key.value.hmacKey, x);
    var tooMuch := EncryptAll(aes, fileContents, tempFile, out);
    Assoc(old(out.data), FileHeader(suite, key.value.hmacKey, x), Ctr(suite, aes.key, aes.nonce, 0, UpToLimit(x)));
    exit := if tooMuch then CryptoError else Exit(0);
  }

  lemma WholeInput(x: seq<Byte>)
    ensures |x| < WORDS ==> UpToLimit(x) == x
  {
  }

  // -------------------------------------------------------------- smudge

  /** Decrypts to the end of the input, computing the HMAC of what comes out. */
  method DecryptInput(aes: CtrEncryptor, hmac: HmacState, input: Stream, out: Stream) returns (tooMuch: bool)
    requires aes.Valid() && aes.byteCounter == 0 && hmac.message == []
    requires input.Valid() && input.good && out.Valid() && input != out
    modifies aes, hmac, input, out
    ensures out.Valid()
    ensures var body := old(input.Rest()); var x := Ctr(aes.suite, aes.key, aes.nonce, 0, UpToLimit(body));
            && tooMuch == (|body| >= WORDS)
            && out.data == old(out.data) + x && (!tooMuch ==> hmac.message == x)
  {
    hide Ctr, CtrEncryptor.Valid;
    ghost var body := input.Rest();
    var buffer := new Byte[CHUNK](i => 0);
    ghost var done := 0;
    CtrEmpty(aes.suite, aes.key, aes.nonce, 0);
    while input.good
      invariant 0 <= done <= |body| && aes.Valid() && input.Valid() && out.Valid()
      invariant input.Rest() == body[done..] && aes.byteCounter == done < WORDS
      invariant if input.good then done % 1024 == 0 else done == |body|
      invariant hmac.message == Ctr(aes.suite, aes.key, aes.nonce, 0, body[..done])
      invariant out.data == old(out.data) + hmac.message
      decreases input.good, |body| - done
    {
      ghost var soFar := hmac.message;
      var n;
      n, tooMuch := ProcessChunk(aes, input, buffer);
      ChunkStep(aes.suite, aes.key, aes.nonce, 0, body, done, n);
      if tooMuch {
        return;
      }
      hmac.Add(buffer[..n]);
      out.Write(buffer[..n]);
      Assoc(old(out.data), soFar, buffer[..n]);
      done := done + n;
    }
    assert body[..done] == body;
    tooMuch := false;
  }

  method DecryptFileToStdout(suite: Suite, keyFile: KeyFile, header: array<Byte>, input: Stream, out: Stream)
    returns (exit: Exit)
    requires header.Length == HEADER_LEN && input.Valid() && input.good && out.Valid() && input != out
    modifies input, out
    ensures out.Valid()
    ensures var run := DecryptRun(suite, keyFile.entries, header[10..HEADER_LEN], old(input.Rest()));
            exit == run.exit && out.data == old(out.data) + run.output
  {
    hide Ctr, CtrEncryptor.Valid;
    var key := keyFile.Get(0);
    if key.None? {
      return Exit(1);
    }
    var aes := new CtrEncryptor(suite, key.value.aesKey, header, 10);
    var hmac := new HmacState(suite, key.value.hmacKey);
    var tooMuch := DecryptInput(aes, hmac, input, out);
    if tooMuch {
      return CryptoError;
    }
    var digest := hmac.Get();
    var genuine := LeaklessEquals(digest, 0, header, 10, NONCE_LEN);
    exit := Exit(if genuine then 0 else 1);
  }

  /** Decrypts standard input to standard output; what does not look encrypted is copied. */
  method Smudge(suite: Suite, keyFile: KeyFile, input: Stream, out: Stream) returns (exit: Exit)
    requires input.Valid() && input.good && out.Valid() && input != out
    modifies input, out
    ensures out.Valid()
    ensures var run := SmudgeRun(suite, keyFile.entries, old(input.Rest()));
            exit == run.exit && out.data == old(out.data) + run.output
    ensures var c := old(input.Rest());
            |c| < 22 || c[..10] != [0, 71, 73, 84, 67, 82, 89, 80, 84, 0] ==>
              exit == Exit(0) && out.data == old(out.data) + c
  {
    ghost var c := input.Rest();
    var header := new Byte[HEADER_LEN](i => 0);
    var gcount := input.Read(header, HEADER_LEN);
    assert header[..gcount] + input.Rest() == c;
    if gcount != HEADER_LEN || header[..10] != FILE_MAGIC {
      assert gcount == HEADER_LEN ==> header[..10] == c[..10];
      out.Write(header[..gcount]);
      Assoc(old(out.data), header[..gcount], input.Rest());
      out.Write(input.data[input.pos..]);
      return Exit(0);
    }
    assert header[..] == c[..HEADER_LEN];
    assert header[10..HEADER_LEN] == c[10..HEADER_LEN];
    exit := DecryptFileToStdout(suite, keyFile, header, input, out);
  }
}
