/** What clean and smudge mean for each other. */
module FilterTheorems {
  import opened Basics
  import opened Bytes
  import opened Crypto
  import opened KeyFormat
  import opened Filters

  // ------------------------------------------------------------ pieces of CTR

  ghost function Concat(pieces: seq<seq<Byte>>): seq<Byte> {
    if pieces == [] then [] else pieces[0] + Concat(pieces[1..])
  }

  lemma {:induction false} ConcatOneMore(pieces: seq<seq<Byte>>, i: nat)
    requires i < |pieces|
    ensures Concat(pieces[..i + 1]) == Concat(pieces[..i]) + pieces[i]
  {
    assert pieces[..i + 1][1..] == pieces[1..][..i];
    if i > 0 {
      assert pieces[..i][1..] == pieces[1..][..i - 1];
      ConcatOneMore(pieces[1..], i - 1);
      Assoc(pieces[0], Concat(pieces[1..][..i - 1]), pieces[i]);
    } else {
      assert Concat(pieces[..1]) == pieces[0] + [];
    }
  }

  /** The first i pieces are where the whole message starts. */
  lemma {:induction false} ConcatPrefix(pieces: seq<seq<Byte>>, i: nat)
    requires i <= |pieces|
    ensures Concat(pieces[..i]) <= Concat(pieces)
    decreases |pieces|
  {
    if i > 0 {
      assert pieces[..i][1..] == pieces[1..][..i - 1];
      ConcatPrefix(pieces[1..], i - 1);
    }
  }

  /** What is written for the message when the counter runs out at 2^32 bytes. */
  function BeforeLimit(start: Word32, message: seq<Byte>): (y: seq<Byte>)
    ensures start + |y| <= WORDS
  {
    if start + |message| < WORDS then message else message[..WORDS - start]
  }

  /** One call of process, in place or into other memory: what it writes before it returns or throws. */
  method ProcessPiece(aes: CtrEncryptor, piece: seq<Byte>, inPlace: bool) returns (written: seq<Byte>, tooMuch: bool)
    requires aes.Valid()
    modifies aes
    ensures aes.Valid() && aes.exhausted == (old(aes.exhausted) || tooMuch)
    ensures tooMuch == (old(aes.byteCounter) + |piece| >= WORDS)
    ensures !tooMuch ==> aes.byteCounter == old(aes.byteCounter) + |piece|
    ensures written == Ctr(aes.suite, aes.key, aes.nonce, old(aes.byteCounter),
                           BeforeLimit(old(aes.byteCounter), piece))
  {
    hide CtrEncryptor.Valid, Ctr;
    var done := Min(|piece|, WORDS - aes.byteCounter);
    var input := new Byte[|piece|](i requires 0 <= i < |piece| => piece[i]);
    var output := input;
    if !inPlace {
      output := new Byte[|piece|](i => 0);
    }
    assert input[..] == piece && input[0..0 + done] == piece[..done] == BeforeLimit(aes.byteCounter, piece);
    tooMuch := aes.Process(input, 0, output, |piece|);
    written := output[..done];
  }

  /**
   However a message is cut into successive calls, each in place or not, the bytes written are the
   message XORed with the one keystream; the error comes exactly if the total reaches 2^32 bytes.
   */
  method ProcessPieces(aes: CtrEncryptor, pieces: seq<seq<Byte>>, inPlace: seq<bool>)
    returns (written: seq<Byte>, tooMuch: bool)
    requires aes.Valid() && |inPlace| == |pieces|
    modifies aes
    ensures aes.Valid() && aes.exhausted == (old(aes.exhausted) || tooMuch)
    ensures var start, message := old(aes.byteCounter), Concat(pieces);
            && tooMuch == (start + |message| >= WORDS)
            && written == Ctr(aes.suite, aes.key, aes.nonce, start, BeforeLimit(start, message))
  {
    hide CtrEncryptor.Valid, Ctr, BeforeLimit;
    ghost var start, message := aes.byteCounter, Concat(pieces);
    written, tooMuch := [], false;
    NothingWritten(aes.suite, aes.key, aes.nonce, start);
    assert pieces[..0] == [];
    var i := 0;
    while i < |pieces| && !tooMuch
      invariant 0 <= i <= |pieces| && aes.Valid() && aes.exhausted == (old(aes.exhausted) || tooMuch)
      invariant var sofar := Concat(pieces[..i]);
                && tooMuch == (start + |sofar| >= WORDS) && (!tooMuch ==> aes.byteCounter == start + |sofar|)
                && written == Ctr(aes.suite, aes.key, aes.nonce, start, BeforeLimit(start, sofar))
    {
      ghost var sofar := Concat(pieces[..i]);
      var more;
      more, tooMuch := ProcessPiece(aes, pieces[i], inPlace[i]);
      ConcatOneMore(pieces, i);
      OnePieceMore(aes.suite, aes.key, aes.nonce, start, sofar, pieces[i]);
      written := written + more;
      i := i + 1;
    }
    ConcatPrefix(pieces, i);
    LimitOfPrefix(start, Concat(pieces[..i]), message);
    assert i == |pieces| ==> pieces[..i] == pieces;
  }

  lemma NothingWritten(suite: Suite, key: AesKey, nonce: Nonce, start: Word32)
    ensures Ctr(suite, key, nonce, start, BeforeLimit(start, [])) == []
  {
  }

  lemma OnePieceMore(suite: Suite, key: AesKey, nonce: Nonce, start: Word32, sofar: seq<Byte>, piece: seq<Byte>)
    requires start + |sofar| < WORDS
    ensures Ctr(suite, key, nonce, start, BeforeLimit(start, sofar + piece))
         == Ctr(suite, key, nonce, start, BeforeLimit(start, sofar))
            + Ctr(suite, key, nonce, start + |sofar|, BeforeLimit(start + |sofar|, piece))
  {
    hide Ctr;
    var rest := BeforeLimit(start + |sofar|, piece);
    assert BeforeLimit(start, sofar + piece) == sofar + rest;
    CtrSplit(suite, key, nonce, start, sofar, rest);
  }

  lemma LimitOfPrefix(start: Word32, sofar: seq<Byte>, message: seq<Byte>)
    requires sofar <= message
    ensures start + |sofar| >= WORDS ==>
              start + |message| >= WORDS && BeforeLimit(start, sofar) == BeforeLimit(start, message)
  {
  }

  // ------------------------------------------------- what the bytes are

  /** The byte that is left of b at position i of the keystream for this nonce. */
  function Mixed(suite: Suite, key: AesKey, nonce: Nonce, b: Byte, i: nat): Byte
    requires i < 0x1_0000_0000
  {
    var n := i / 16;
    Xor(b, suite.aes(key, nonce + [n / 256 / 256 / 256, n / 256 / 256 % 256, n / 256 % 256, n % 256])[i % 16])
  }

  /**
   Everything clean writes, byte by byte: the ten bytes that mark an encrypted file, the first twelve of
   the HMAC under the latest version, and the input mixed with the keystream. Without a key, or from
   2^36 bytes on, it writes nothing and returns 1; from 2^32 bytes on it stops short and throws.
   */
  lemma CleanByteByByte(suite: Suite, entries: map<Word32, Entry>, x: seq<Byte>)
    ensures var run := CleanRun(suite, entries, x);
            if entries == map[] || |x| >= 0x10_0000_0000 then run == Run(Exit(1), [])
            else
              && run.exit == (if |x| < 0x1_0000_0000 then Exit(0) else CryptoError)
              && |run.output| == 22 + (if |x| < 0x1_0000_0000 then |x| else 0x1_0000_0000 - 1024)
              && run.output[..10] == [0, 71, 73, 84, 67, 82, 89, 80, 84, 0]
              && exists v ::
                   && v in entries && (forall w :: w in entries ==> w <= v)
                   && run.output[10..22] == suite.hmac(entries[v].hmacKey, x)[..12]
                   && forall i :: 0 <= i < |run.output| - 22 ==>
                        run.output[22 + i] == Mixed(suite, entries[v].aesKey, run.output[10..22], x[i], i)
  {
    hide Ctr, Xor, Mixed;
    if entries != map[] && |x| < MAX_CRYPT_BYTES {
      var v := Max(entries.Keys);
      assert v in entries && forall w :: w in entries ==> w in entries.Keys && w <= v;
      var e := entries[v];
      var nonce := SyntheticNonce(suite, e.hmacKey, x);
      var run := CleanRun(suite, entries, x);
      assert run.output[..10] == FILE_MAGIC && run.output[10..22] == nonce;
      forall i | 0 <= i < |run.output| - 22
        ensures run.output[22 + i] == Mixed(suite, e.aesKey, nonce, x[i], i)
      {
        MixedIs(suite, e.aesKey, nonce, UpToLimit(x), i);
      }
    }
  }

  lemma MixedIs(suite: Suite, key: AesKey, nonce: Nonce, data: seq<Byte>, i: nat)
    requires |data| <= WORDS && i < |data|
    ensures Ctr(suite, key, nonce, 0, data)[i] == Mixed(suite, key, nonce, data[i], i)
  {
    hide Ctr, Xor;
    CtrByteByByte(suite, key, nonce, 0, data, i);
  }

  /**
   Everything smudge writes, byte by byte. What is shorter than the header or does not begin with its
   ten bytes is copied. Otherwise version 0 decrypts, and the result is genuine, with status 0, exactly
   if the first twelve bytes of its HMAC are in the header.
   */
  lemma SmudgeByteByByte(suite: Suite, entries: map<Word32, Entry>, c: seq<Byte>)
    ensures var run := SmudgeRun(suite, entries, c);
            if |c| < 22 || c[..10] != [0, 71, 73, 84, 67, 82, 89, 80, 84, 0] then run == Run(Exit(0), c)
            else if 0 !in entries then run == Run(Exit(1), [])
            else
              && |run.output| == (if |c| - 22 < 0x1_0000_0000 then |c| - 22 else 0x1_0000_0000 - 1024)
              && (forall i :: 0 <= i < |run.output| ==>
                    run.output[i] == Mixed(suite, entries[0].aesKey, c[10..22], c[22 + i], i))
              && run.exit == if |c| - 22 >= 0x1_0000_0000 then CryptoError
                             else if suite.hmac(entries[0].hmacKey, run.output)[..12] == c[10..22] then Exit(0)
                             else Exit(1)
  {
    hide Ctr, Xor, Mixed;
    if LooksEncrypted(c) && 0 in entries {
      var nonce: Nonce := c[10..22];
      var body := c[22..];
      var run := SmudgeRun(suite, entries, c);
      forall i | 0 <= i < |run.output|
        ensures run.output[i] == Mixed(suite, entries[0].aesKey, nonce, c[22 + i], i)
      {
        MixedIs(suite, entries[0].aesKey, nonce, UpToLimit(body), i);
      }
    }
  }

  // ---------------------------------------------------------- the round trip

  /**
   Clean uses the latest version of a key and smudge always version 0. These are the key files for
   which that is the same key material, as it is when version 0 is the only one.
   */
  ghost predicate SameKeyBothWays(entries: map<Word32, Entry>) {
    && 0 in entries
    && entries[0].aesKey == entries[Max(entries.Keys)].aesKey
    && entries[0].hmacKey == entries[Max(entries.Keys)].hmacKey
  }

  lemma OnlyVersionZero(entries: map<Word32, Entry>)
    requires entries.Keys == {0}
    ensures SameKeyBothWays(entries)
  {
    assert Max(entries.Keys) in entries.Keys;
  }

  /** Smudging what clean wrote gives back the input and succeeds. */
  lemma RoundTrip(suite: Suite, entries: map<Word32, Entry>, x: seq<Byte>)
    requires SameKeyBothWays(entries) && |x| < WORDS
    ensures var cleaned := CleanRun(suite, entries, x);
            && cleaned.exit == Exit(0)
            && SmudgeRun(suite, entries, cleaned.output) == Run(Exit(0), x)
  {
    hide Ctr;
    var e := entries[0];
    var nonce := SyntheticNonce(suite, e.hmacKey, x);
    var body := Ctr(suite, e.aesKey, nonce, 0, x);
    var c := FileHeader(suite, e.hmacKey, x) + body;
    assert CleanRun(suite, entries, x) == Run(Exit(0), c);
    assert c[..10] == FILE_MAGIC && c[10..HEADER_LEN] == nonce && c[HEADER_LEN..] == body;
    CtrInvolution(suite, e.aesKey, nonce, 0, x);
  }

  /** Whatever carries the header and is accepted is exactly what clean writes for the result. */
  lemma AcceptedIsCleaned(suite: Suite, entries: map<Word32, Entry>, c: seq<Byte>)
    requires SameKeyBothWays(entries) && LooksEncrypted(c)
    ensures var run := SmudgeRun(suite, entries, c);
            run.exit == Exit(0) ==> CleanRun(suite, entries, run.output) == Run(Exit(0), c)
  {
    hide Ctr;
    var e := entries[0];
    var nonce: Nonce := c[10..HEADER_LEN];
    var body := c[HEADER_LEN..];
    if SmudgeRun(suite, entries, c).exit == Exit(0) {
      var x := Ctr(suite, e.aesKey, nonce, 0, body);
      assert SmudgeRun(suite, entries, c).output == x;
      CtrInvolution(suite, e.aesKey, nonce, 0, body);
      assert c == FILE_MAGIC + nonce + body;
    }
  }

  /** Among files with the header, those that smudge accepts are exactly those that clean writes. */
  lemma AcceptedIffCleaned(suite: Suite, entries: map<Word32, Entry>, c: seq<Byte>)
    requires SameKeyBothWays(entries) && LooksEncrypted(c)
    ensures SmudgeRun(suite, entries, c).exit == Exit(0)
       <==> exists x: seq<Byte> :: CleanRun(suite, entries, x) == Run(Exit(0), c)
  {
    AcceptedIsCleaned(suite, entries, c);
    forall x: seq<Byte> | CleanRun(suite, entries, x) == Run(Exit(0), c)
      ensures SmudgeRun(suite, entries, c).exit == Exit(0)
    {
      RoundTrip(suite, entries, x);
    }
  }

  /** Different inputs are never encrypted to the same file. */
  lemma CleanInjective(suite: Suite, entries: map<Word32, Entry>, x: seq<Byte>, y: seq<Byte>)
    requires entries != map[] && |x| < WORDS && |y| < WORDS
    requires CleanRun(suite, entries, x).output == CleanRun(suite, entries, y).output
    ensures x == y
  {
    var only := map[0 := entries[Max(entries.Keys)]];
    OnlyVersionZero(only);
    CleansAlike(suite, entries, x);
    CleansAlike(suite, entries, y);
    RoundTrip(suite, only, x);
    RoundTrip(suite, only, y);
  }

  /** Clean makes no difference between a key file and its latest entry on its own. */
  lemma CleansAlike(suite: Suite, entries: map<Word32, Entry>, x: seq<Byte>)
    requires entries != map[]
    ensures CleanRun(suite, entries, x) == CleanRun(suite, map[0 := entries[Max(entries.Keys)]], x)
  {
    hide Ctr;
    assert Max({0}) in {0};
    assert map[0 := entries[Max(entries.Keys)]].Keys == {0};
  }

  // ------------------------------------------------- exactly when it round-trips

  ghost predicate AlwaysRoundTrips(entries: map<Word32, Entry>) {
    forall suite: Suite, x: seq<Byte> :: |x| < WORDS ==>
      SmudgeRun(suite, entries, CleanRun(suite, entries, x).output) == Run(Exit(0), x)
  }

  function Repeated(b: Byte, n: nat): (s: seq<Byte>)
    ensures |s| == n && forall i :: 0 <= i < n ==> s[i] == b
  {
    seq(n, _ => b)
  }

  /** Primitives that answer 0s for one key and 1s for every other. */
  ghost function TellingApart(aes: AesKey, hmac: HmacKey): Suite {
    Suite((k: AesKey, b: Block) => if k == aes then Repeated(0, 16) else Repeated(1, 16),
          (k: HmacKey, m: seq<Byte>) => if k == hmac then Repeated(0, 20) else Repeated(1, 20))
  }

  /**
   A key file with several versions is safe for every choice of primitives and every input exactly
   if the latest version has the key material of version 0; adding a fresh version breaks it.
   */
  lemma RoundTripExactly(entries: map<Word32, Entry>)
    requires entries != map[]
    ensures AlwaysRoundTrips(entries) <==> SameKeyBothWays(entries)
  {
    if SameKeyBothWays(entries) {
      forall suite: Suite, x: seq<Byte> | |x| < WORDS
        ensures SmudgeRun(suite, entries, CleanRun(suite, entries, x).output) == Run(Exit(0), x)
      {
        RoundTrip(suite, entries, x);
      }
    } else {
      var latest := entries[Max(entries.Keys)];
      var suite := TellingApart(latest.aesKey, latest.hmacKey);
      DifferentKeysFail(suite, entries);
      assert |[0]| < WORDS;
    }
  }

  lemma DifferentKeysFail(suite: Suite, entries: map<Word32, Entry>)
    requires entries != map[] && !SameKeyBothWays(entries)
    requires var latest := entries[Max(entries.Keys)]; suite == TellingApart(latest.aesKey, latest.hmacKey)
    ensures SmudgeRun(suite, entries, CleanRun(suite, entries, [0]).output) != Run(Exit(0), [0])
  {
    var latest := entries[Max(entries.Keys)];
    var x: seq<Byte> := [0];
    var nonce := SyntheticNonce(suite, latest.hmacKey, x);
    var body := Ctr(suite, latest.aesKey, nonce, 0, x);
    var c := FileHeader(suite, latest.hmacKey, x) + body;
    assert CleanRun(suite, entries, x).output == c;
    assert c[..10] == FILE_MAGIC && c[10..HEADER_LEN] == nonce && c[HEADER_LEN..] == body;
    if 0 in entries && entries[0].hmacKey == latest.hmacKey {
      // The first byte comes out as 0 XOR 0 XOR 1.
      var back := Ctr(suite, entries[0].aesKey, nonce, 0, body);
      assert back[0] == Xor(Xor(0, 0), 1);
      XorZero(0, 0);
      XorZero(0, 1);
    } else if 0 in entries {
      var back := Ctr(suite, entries[0].aesKey, nonce, 0, body);
      assert SyntheticNonce(suite, entries[0].hmacKey, back)[0] == 1 && nonce[0] == 0;
    }
  }
}
