/** The Mifare Ultralight / NTAG21x card session of `src/cards/MifareUltralight.js`.
    PWD_AUTH (0x1B) and FAST_READ (0x3A) are the commands of sections 10.7 and 10.3
    of the NXP NTAG213/215/216 data sheet. Each goes out wrapped in the reader's
    5-byte direct-transmit envelope `FF 00 00 00 07` and the data-exchange prefix
    `D4 42`. Command bytes, response checks, the configuration rewrite and the
    selection of differential writes are functions; the session is a class whose
    methods talk to a scripted `Reader` and are proved against those functions. */
module Ultralight {
  import opened Common
  import opened NdefHelper
  import opened Transceiver

  const CONFIG_BLOCK_START: int := 0x29
  /** The page that holds the 4-byte password. */
  const PASSWORD_PAGE: int := CONFIG_BLOCK_START + 2
  /** The number of configuration bytes read back and rewritten. */
  const CONFIG_LENGTH: nat := 8
  const USERDATA_BLOCK_START: byte := 0x04
  const USERDATA_BLOCK_END: byte := 0x27
  const BLOCKSIZE: nat := 4
  /** The user-data region, pages 4 to 0x27: 36 pages of 4 bytes. */
  const USER_DATA_LENGTH: nat := 144
  /** `optimizeWrites`, a constant in the source: differential writes are off. */
  const OPTIMIZE_WRITES: bool := false

  const DIRECT_TRANSMIT: seq<byte> := [0xFF, 0x00, 0x00, 0x00, 0x07]
  const DATA_EXCHANGE: seq<byte> := [0xD4, 0x42]
  const PWD_AUTH: byte := 0x1B
  const FAST_READ: byte := 0x3A
  const AUTH_RESPONSE_LENGTH: int := 7

  /** AUTH0: protection starts at the first user-data page. */
  const PROTECTED_FROM_PAGE: byte := 0x04
  /** The ACCESS byte written by `writeProtect`: bit 4 set, PROT, CFGLCK and AUTHLIM clear. */
  const ACCESS_BITS: byte := 0x10

  /** The first user-data bytes of a factory-blank tag. */
  const FACTORY_SIGNATURE: seq<byte> := [0x01, 0x03, 0xA0]

  const PASSWORD_NAME: string := "Password"
  const PACK_NAME: string := "Pack"

  const INVALID_RESPONSE_LENGTH: string := "invalid_response_length"
  const INVALID_PASSWORD: string := "invalid_password"
  const PACK_MISMATCH: string := "pack_mismatch"

  /** Everything a session operation can throw. The two protocol exceptions of the
      source carry their code string. */
  datatype CardError =
    | PasswordAuthenticationError(code: string)
    | FastReadError(code: string)
    | InvalidArgument(argument: ParseError)
    | NdefFailure(ndef: NdefError)
    | TransportError

  // ---------------------------------------------------------------------------
  // Commands and responses

  /** The PWD_AUTH command for a password. */
  function PwdAuthCommand(password: seq<byte>): (cmd: seq<byte>)
    ensures |cmd| == 8 + |password| && cmd[8..] == password
    ensures |password| == 4 ==>
      cmd == [0xFF, 0x00, 0x00, 0x00, 0x07, 0xD4, 0x42, 0x1B,
              password[0], password[1], password[2], password[3]]
    ensures |password| == 4 ==> cmd[4] == |cmd| - |DIRECT_TRANSMIT|
  {
    DIRECT_TRANSMIT + DATA_EXCHANGE + [PWD_AUTH] + password
  }

  /** The FAST_READ command for pages `startPage` to `endPage`. The envelope
      announces a 7-byte payload, as for PWD_AUTH, though this one has 5 bytes. */
  function FastReadCommand(startPage: byte, endPage: byte): (cmd: seq<byte>)
    ensures cmd == [0xFF, 0x00, 0x00, 0x00, 0x07, 0xD4, 0x42, 0x3A, startPage, endPage]
    ensures cmd[4] != |cmd| - |DIRECT_TRANSMIT|
  {
    DIRECT_TRANSMIT + DATA_EXCHANGE + [FAST_READ, startPage, endPage]
  }

  /** The response length expected from FAST_READ: 3 prefix bytes, 4 bytes per
      page, 2 trailer bytes. */
  function FastReadLength(startPage: int, endPage: int): (n: int)
    ensures startPage <= endPage ==> n >= 9 && (n - 5) % BLOCKSIZE == 0
  {
    3 + (endPage - startPage + 1) * BLOCKSIZE + 2
  }

  /** `response.slice(3, -2)`: the response without its 3-byte prefix and 2-byte trailer. */
  function Unwrap(response: seq<byte>): (u: seq<byte>)
    ensures |u| == Max(0, |response| - 5)
    ensures forall k :: 0 <= k < |u| ==> u[k] == response[3 + k]
  {
    Slice(response, 3, Max(0, |response| - 2))
  }

  /** The checks `passwordAuthenticate` applies to the PWD_AUTH response, in
      order: length, status byte and full length, then the returned PACK. No
      byte is looked at before the length guard allows it. */
  function AuthVerdict(response: seq<byte>, pack: seq<byte>): (r: Result<(), CardError>)
    ensures r.Success? <==> |response| >= 7 && response[2] == 0 && response[3..5] == pack
    ensures r == Failure(PasswordAuthenticationError(INVALID_RESPONSE_LENGTH)) <==> |response| < 5
    ensures r == Failure(PasswordAuthenticationError(INVALID_PASSWORD)) <==>
      |response| >= 5 && (response[2] != 0 || |response| < 7)
    ensures r == Failure(PasswordAuthenticationError(PACK_MISMATCH)) <==>
      |response| >= 7 && response[2] == 0 && response[3..5] != pack
  {
    if |response| < 5 then Failure(PasswordAuthenticationError(INVALID_RESPONSE_LENGTH))
    else if response[2] != 0 || |response| < 7 then Failure(PasswordAuthenticationError(INVALID_PASSWORD))
    else if response[3..5] != pack then Failure(PasswordAuthenticationError(PACK_MISMATCH))
    else Success(())
  }

  /** The FAST_READ response check as intended: a response shorter than expected
      is refused, any other loses its prefix and trailer. */
  function FastReadVerdict(response: seq<byte>, length: int): (r: Result<seq<byte>, CardError>)
    ensures r.Failure? <==> |response| < length
    ensures r.Failure? ==> r.error == FastReadError(INVALID_RESPONSE_LENGTH)
    ensures r.Success? ==> r.value == Unwrap(response)
    ensures r.Success? && length >= 5 ==>
      |r.value| == |response| - 5 && r.value == response[3..|response| - 2]
  {
    if |response| < length then Failure(FastReadError(INVALID_RESPONSE_LENGTH))
    else Success(Unwrap(response))
  }

  /** The FAST_READ response check as written, `response < length`: the Buffer is
      coerced to the number its UTF-8 text spells, which for the empty response is
      0 and for a reader's binary response is NaN, so the guard fires on the empty
      response only. */
  function FastReadVerdictAsWritten(response: seq<byte>, length: int): (r: Result<seq<byte>, CardError>)
    ensures r.Failure? <==> response == [] && 0 < length
    ensures r.Success? ==> r.value == Unwrap(response)
  {
    if response == [] && 0 < length then Failure(FastReadError(INVALID_RESPONSE_LENGTH))
    else Success(Unwrap(response))
  }

  /** A complete response to FAST_READ of pages `s` to `e` yields 4 bytes per page. */
  lemma FastReadPages(startPage: byte, endPage: byte, response: seq<byte>)
    requires startPage <= endPage && |response| == FastReadLength(startPage, endPage)
    ensures FastReadVerdict(response, |response|).Success?
    ensures |FastReadVerdict(response, |response|).value| == (endPage - startPage + 1) * BLOCKSIZE
  {
  }

  /** Every truncated, non-empty response passes the guard as written and is
      refused by the intended one. */
  lemma FastReadGuardIneffective(response: seq<byte>, length: int)
    requires 0 < |response| < length
    ensures FastReadVerdictAsWritten(response, length).Success?
    ensures FastReadVerdict(response, length) == Failure(FastReadError(INVALID_RESPONSE_LENGTH))
  {
  }

  /** One byte in reply to FAST_READ of page 4 alone, where 9 are expected, is
      accepted by the code as written and yields no data. */
  lemma FastReadGuardCounterexample()
    ensures FastReadVerdictAsWritten([0xD5], FastReadLength(4, 4)) == Success([])
    ensures FastReadVerdict([0xD5], FastReadLength(4, 4)).Failure?
  {
  }

  /** The authentication response of the D5 43 00 AB CD 90 00 example. */
  lemma AuthVerdictExamples()
    ensures AuthVerdict([0xD5, 0x43, 0x00, 0xAB, 0xCD, 0x90, 0x00], [0xAB, 0xCD]).Success?
    ensures AuthVerdict([0xD5, 0x43, 0x00, 0xAB, 0xCD, 0x90, 0x00], [0x00, 0x00])
      == Failure(PasswordAuthenticationError(PACK_MISMATCH))
  {
  }

  /** A reply to PWD_AUTH: a transport failure, or the verdict on the response. */
  function AuthResult(reply: Reply, pack: seq<byte>): Result<(), CardError>
  {
    match reply
    case TransportFailed => Failure(TransportError)
    case Replied(response) => AuthVerdict(response, pack)
  }

  /** A reply to FAST_READ: a transport failure, or the intended verdict. */
  function FastReadResult(reply: Reply, length: int): Result<seq<byte>, CardError>
  {
    match reply
    case TransportFailed => Failure(TransportError)
    case Replied(response) => FastReadVerdict(response, length)
  }

  /** A reply to a write. */
  function Completed(reply: Reply): Result<(), CardError>
  {
    if reply.TransportFailed? then Failure(TransportError) else Success(())
  }

  // ---------------------------------------------------------------------------
  // Write protection

  /** `password[k]` as stored into a Buffer: an absent byte (`undefined`) stores 0. */
  function PasswordByte(password: seq<byte>, k: nat): byte
  {
    if k < |password| then password[k] else 0
  }

  /** The configuration block `writeProtect` writes back: AUTH0 at index 3, the
      ACCESS byte at index 4, and the password mirrored into indices 8 to 11,
      where each assignment past the end of the block is ignored. */
  function ProtectConfig(config: seq<byte>, password: seq<byte>): (c: seq<byte>)
    ensures |c| == |config|
    ensures forall i :: 0 <= i < |c| ==>
      c[i] == if i == 3 then PROTECTED_FROM_PAGE
              else if i == 4 then ACCESS_BITS
              else if 8 <= i < 12 then PasswordByte(password, i - 8)
              else config[i]
  {
    var c := Assign(Assign(config, 3, PROTECTED_FROM_PAGE), 4, ACCESS_BITS);
    var c := Assign(Assign(c, 8, PasswordByte(password, 0)), 9, PasswordByte(password, 1));
    Assign(Assign(c, 10, PasswordByte(password, 2)), 11, PasswordByte(password, 3))
  }

  /** On the 8-byte block the reader returns, only AUTH0 and ACCESS change: the
      password mirror lies past its end. */
  lemma ProtectConfigBlock(config: seq<byte>, password: seq<byte>)
    requires |config| == CONFIG_LENGTH
    ensures ProtectConfig(config, password) == config[3 := PROTECTED_FROM_PAGE][4 := ACCESS_BITS]
  {
    var c := ProtectConfig(config, password);
    var d := config[3 := PROTECTED_FROM_PAGE][4 := ACCESS_BITS];
    assert forall i :: 0 <= i < |c| ==> c[i] == d[i];
  }

  // ---------------------------------------------------------------------------
  // Differential writes

  /** Chunk `i` of a buffer: the bytes from `4i` up to `4i + 4`, cut short by
      the end of the buffer. */
  function Chunk(s: seq<byte>, i: nat): seq<byte>
  {
    s[Min(4 * i, |s|)..Min(4 * i + 4, |s|)]
  }

  /** A chunk is `buffer.slice(4i, 4i + 4)`. */
  lemma ChunkIsSlice(s: seq<byte>, i: nat)
    ensures Chunk(s, i) == Slice(s, i * BLOCKSIZE, (i + 1) * BLOCKSIZE)
  {
  }

  /** The number of chunks the differential loop looks at for an `n`-byte buffer. */
  function Considered(n: nat): nat
  {
    if n <= 4 then 0 else (n - 1) / 4
  }

  /** The loop bound `i < n / 4 - 1` of the source, a floating-point comparison,
      admits exactly the first `Considered(n)` chunks. */
  lemma LoopBound(n: nat, i: nat)
    ensures (i as real) < (n as real) / 4.0 - 1.0 <==> i < Considered(n)
  {
  }

  /** Chunk `i` is considered exactly when it ends before the buffer does: the
      last chunk, whole or partial, never is. */
  lemma ChunkConsidered(n: nat, i: nat)
    ensures i < Considered(n) <==> (i + 1) * BLOCKSIZE < n
  {
  }

  /** Whether chunk `i` of the buffer differs from the cached bytes at the same place. */
  predicate ChunkChanged(buffer: seq<byte>, cache: seq<byte>, i: nat)
  {
    Chunk(cache, i) != Chunk(buffer, i)
  }

  /** The writes the differential loop issues for chunks `0 .. k-1`: one for each
      chunk that differs from the cached bytes at the same place. */
  function DiffWrites(buffer: seq<byte>, cache: seq<byte>, k: nat): (w: seq<IoCall>)
    ensures |w| <= k
    ensures forall j :: 0 <= j < |w| ==>
      w[j].Write? && USERDATA_BLOCK_START as int <= w[j].page < USERDATA_BLOCK_START as int + k
      && |w[j].bytes| <= BLOCKSIZE
  {
    if k == 0 then []
    else
      var i := k - 1;
      DiffWrites(buffer, cache, i)
      + if ChunkChanged(buffer, cache, i)
        then [IoCall.Write(USERDATA_BLOCK_START as int + i, Chunk(buffer, i))]
        else []
  }

  /** Chunk `i` adds one write when it changed and none otherwise. */
  lemma DiffWritesStep(buffer: seq<byte>, cache: seq<byte>, i: nat)
    ensures ChunkChanged(buffer, cache, i) ==>
      DiffWrites(buffer, cache, i + 1)
        == DiffWrites(buffer, cache, i) + [IoCall.Write(USERDATA_BLOCK_START as int + i, Chunk(buffer, i))]
    ensures !ChunkChanged(buffer, cache, i) ==> DiffWrites(buffer, cache, i + 1) == DiffWrites(buffer, cache, i)
  {
  }

  /** The differential writes go out in ascending page order. */
  lemma {:induction false} DiffWritesAscending(buffer: seq<byte>, cache: seq<byte>, k: nat)
    ensures var w := DiffWrites(buffer, cache, k);
      forall j, j' :: 0 <= j < j' < |w| ==> w[j].page < w[j'].page
  {
    if k > 0 {
      DiffWritesAscending(buffer, cache, k - 1);
      DiffWritesStep(buffer, cache, k - 1);
      var before := DiffWrites(buffer, cache, k - 1);
      var w := DiffWrites(buffer, cache, k);
      if ChunkChanged(buffer, cache, k - 1) {
        forall j, j' | 0 <= j < j' < |w|
          ensures w[j].page < w[j'].page
        {
          assert w[j] == before[j];
          if j' < |before| {
            assert w[j'] == before[j'];
          }
        }
      }
    }
  }

  /** The pages a sequence of calls writes. */
  function WrittenPages(calls: seq<IoCall>): set<int>
  {
    set c | c in calls && c.Write? :: c.page
  }

  /** Each selected write carries chunk `i` of the buffer to page `4 + i`, for a
      chunk that differs from the cache, and every such chunk is written. */
  lemma {:induction false} DiffWritesSelect(buffer: seq<byte>, cache: seq<byte>, k: nat)
    ensures forall c :: c in DiffWrites(buffer, cache, k) <==>
      exists i :: 0 <= i < k && Chunk(cache, i) != Chunk(buffer, i)
        && c == IoCall.Write(USERDATA_BLOCK_START as int + i, Chunk(buffer, i))
  {
    if k > 0 {
      DiffWritesSelect(buffer, cache, k - 1);
    }
  }

  /** Page `4 + i` is written exactly when chunk `i` ends before the buffer does
      and differs from the cached bytes. */
  lemma DiffWritesPages(buffer: seq<byte>, cache: seq<byte>, i: int)
    ensures USERDATA_BLOCK_START as int + i in WrittenPages(DiffWrites(buffer, cache, Considered(|buffer|)))
      <==> 0 <= i && (i + 1) * BLOCKSIZE < |buffer| && Chunk(cache, i) != Chunk(buffer, i)
  {
    var k := Considered(|buffer|);
    DiffWritesSelect(buffer, cache, k);
    if 0 <= i {
      ChunkConsidered(|buffer|, i);
    }
    var w := DiffWrites(buffer, cache, k);
    if 0 <= i < k && Chunk(cache, i) != Chunk(buffer, i) {
      assert IoCall.Write(USERDATA_BLOCK_START as int + i, Chunk(buffer, i)) in w;
    }
  }

  /** Cached `00 00 00 00 01 01 01 01` and buffer `00 00 00 00 02 02 02 02`: the
      differing second chunk is the last one, so nothing is written. */
  lemma DiffWritesSkipLastChunk()
    ensures DiffWrites([0, 0, 0, 0, 2, 2, 2, 2], [0, 0, 0, 0, 1, 1, 1, 1], Considered(8)) == []
  {
    assert Considered(8) == 1;
    assert Chunk([0, 0, 0, 0, 2, 2, 2, 2], 0) == Chunk([0, 0, 0, 0, 1, 1, 1, 1], 0) == [0, 0, 0, 0];
  }

  // ---------------------------------------------------------------------------
  // Cached user data and NDEF content

  /** A factory-blank tag: user data starting `01 03 A0`. */
  predicate IsFactoryBlank(data: seq<byte>)
    ensures IsFactoryBlank(data) ==> !IsNdef(data)
  {
    |data| >= |FACTORY_SIGNATURE| && data[..|FACTORY_SIGNATURE|] == FACTORY_SIGNATURE
  }

  /** What `getUserData` returns: the cache when it holds data, else the outcome
      of one fast read of the user-data pages. */
  function UserDataResult(cache: seq<byte>, script: seq<Reply>): (r: Result<seq<byte>, CardError>)
    ensures cache != [] ==> r == Success(cache)
    ensures cache == [] && r.Success? ==> |r.value| >= USER_DATA_LENGTH
    ensures cache == [] && r.Success? ==> Next(script).Replied? && r.value == Unwrap(Next(script).bytes)
    ensures cache == [] ==>
      (r.Failure? <==> Next(script).TransportFailed?
                       || |Next(script).bytes| < FastReadLength(USERDATA_BLOCK_START, USERDATA_BLOCK_END))
    ensures cache == [] && r.Failure? ==>
      r.error == TransportError || r.error == FastReadError(INVALID_RESPONSE_LENGTH)
  {
    if cache != [] then Success(cache)
    else FastReadResult(Next(script), FastReadLength(USERDATA_BLOCK_START, USERDATA_BLOCK_END))
  }

  /** What `getNdefContent` returns for a user-data outcome: the decoded payload
      when the data is NDEF, `None` (the source's `null`) when it is not. */
  function NdefContent(userData: Result<seq<byte>, CardError>): (r: Result<Option<seq<byte>>, CardError>)
    ensures userData.Failure? ==> r == Failure(userData.error)
    ensures userData.Success? && !IsNdef(userData.value) ==> r == Success(None)
    ensures r.Success? && r.value.Some? ==>
      userData.Success? && Decapsulate(userData.value) == Success(Message(r.value.value))
    ensures r.Failure? && userData.Success? ==> r.error == NdefFailure(TruncatedLength)
    ensures forall p :: userData.Success? && Decapsulate(userData.value) == Success(Message(p)) ==>
      r == Success(Some(p))
    ensures userData.Success? && IsNdef(userData.value) ==>
      (r.Failure? <==> Decapsulate(userData.value).Failure?)
  {
    match userData
    case Failure(e) => Failure(e)
    case Success(bytes) =>
      if !IsNdef(bytes) then Success(None)
      else match Decapsulate(bytes)
        case Failure(e) => Failure(NdefFailure(e))
        case Success(NotNdef) => Success(None)
        case Success(Message(payload)) => Success(Some(payload))
  }

  /** User data holding a written NDEF frame, followed by whatever the rest of the
      region holds, reads back as the payload that was written. */
  lemma NdefContentReadsBackFrame(payload: seq<byte>, rest: seq<byte>)
    requires |payload| <= MAX_PAYLOAD
    ensures NdefContent(Success(Frame(payload, BLOCKSIZE) + rest)) == Success(Some(payload))
  {
    var f := Frame(payload, BLOCKSIZE);
    DecapsulateRoundTrip(payload, BLOCKSIZE, rest);
    FrameIsNdef(payload, BLOCKSIZE);
    assert (f + rest)[0] == f[0];
  }

  /** Data that does not start with the NDEF type byte is handed back as `None`. */
  lemma NdefContentOfRawData(bytes: seq<byte>)
    requires !IsNdef(bytes)
    ensures NdefContent(Success(bytes)) == Success(None)
  {
  }

  // ---------------------------------------------------------------------------
  // The session

  class MifareUltralight {
    const uid: seq<byte>
    const reader: Reader
    /** The cached user data; empty until first read. */
    var data: seq<byte>
    /** The password set by `setPassword`, if any. */
    var password: Option<ByteArg>

    constructor (uid: seq<byte>, reader: Reader)
      ensures this.uid == uid && this.reader == reader
      ensures data == [] && password == None
    {
      this.uid := uid;
      this.reader := reader;
      data := [];
      password := None;
    }

    /** `setPassword`: keeps the password for a later write protection. */
    method SetPassword(password: ByteArg)
      modifies this`password
      ensures this.password == Some(password)
    {
      this.password := Some(password);
    }

    /** `passwordAuthenticate`: validates the password (4 bytes) and the PACK
      (2 bytes) before any I/O, sends PWD_AUTH once, and checks the response. */
    method PasswordAuthenticate(password: ByteArg, pack: ByteArg) returns (r: Result<(), CardError>)
      modifies reader
      ensures ParseBytes(PASSWORD_NAME, password, 4).Failure? ==>
        r == Failure(InvalidArgument(ParseBytes(PASSWORD_NAME, password, 4).error)) && unchanged(reader)
      ensures ParseBytes(PASSWORD_NAME, password, 4).Success? && ParseBytes(PACK_NAME, pack, 2).Failure? ==>
        r == Failure(InvalidArgument(ParseBytes(PACK_NAME, pack, 2).error)) && unchanged(reader)
      ensures ParseBytes(PASSWORD_NAME, password, 4).Success? && ParseBytes(PACK_NAME, pack, 2).Success? ==>
        && reader.log == old(reader.log)
             + [IoCall.Transmit(PwdAuthCommand(ParseBytes(PASSWORD_NAME, password, 4).value), AUTH_RESPONSE_LENGTH)]
        && reader.script == Rest(old(reader.script))
        && r == AuthResult(Next(old(reader.script)), ParseBytes(PACK_NAME, pack, 2).value)
    {
      var pwd := ParseBytes(PASSWORD_NAME, password, 4);
      if pwd.Failure? {
        return Failure(InvalidArgument(pwd.error));
      }
      var pk := ParseBytes(PACK_NAME, pack, 2);
      if pk.Failure? {
        return Failure(InvalidArgument(pk.error));
      }
      var reply := reader.Transmit(PwdAuthCommand(pwd.value), AUTH_RESPONSE_LENGTH);
      if reply.TransportFailed? {
        return Failure(TransportError);
      }
      var response := reply.bytes;
      if |response| < 5 {
        return Failure(PasswordAuthenticationError(INVALID_RESPONSE_LENGTH));
      }
      if response[2] != 0x00 || |response| < 7 {
        return Failure(PasswordAuthenticationError(INVALID_PASSWORD));
      }
      if response[3..5] != pk.value {
        return Failure(PasswordAuthenticationError(PACK_MISMATCH));
      }
      r := Success(());
    }

    /** `fastRead`: sends FAST_READ once and strips the response, refusing a
      response shorter than expected (the intended guard; see FastReadVerdictAsWritten). */
    method FastRead(startPage: byte, endPage: byte) returns (r: Result<seq<byte>, CardError>)
      modifies reader
      ensures reader.log == old(reader.log)
        + [IoCall.Transmit(FastReadCommand(startPage, endPage), FastReadLength(startPage, endPage))]
      ensures reader.script == Rest(old(reader.script))
      ensures r == FastReadResult(Next(old(reader.script)), FastReadLength(startPage, endPage))
    {
      var length := FastReadLength(startPage, endPage);
      var reply := reader.Transmit(FastReadCommand(startPage, endPage), length);
      if reply.TransportFailed? {
        return Failure(TransportError);
      }
      var response := reply.bytes;
      if |response| < length {
        return Failure(FastReadError(INVALID_RESPONSE_LENGTH));
      }
      r := Success(Unwrap(response));
    }

    /** `writeProtect`: validates the password, then writes it to its page, reads
      the configuration block and writes it back rewritten, stopping at the
      first transport failure. */
    method WriteProtect(password: ByteArg) returns (r: Result<(), CardError>)
      modifies reader
      ensures ParseBytes(PASSWORD_NAME, password, 4).Failure? ==>
        r == Failure(InvalidArgument(ParseBytes(PASSWORD_NAME, password, 4).error)) && unchanged(reader)
      ensures ParseBytes(PASSWORD_NAME, password, 4).Success? && Next(old(reader.script)).TransportFailed? ==>
        && reader.log == old(reader.log)
             + [IoCall.Write(PASSWORD_PAGE, ParseBytes(PASSWORD_NAME, password, 4).value)]
        && reader.script == Rest(old(reader.script))
        && r == Failure(TransportError)
      ensures (ParseBytes(PASSWORD_NAME, password, 4).Success? && Next(old(reader.script)).Replied?
               && Next(Rest(old(reader.script))).TransportFailed?) ==>
        && reader.log == old(reader.log)
             + [IoCall.Write(PASSWORD_PAGE, ParseBytes(PASSWORD_NAME, password, 4).value),
                IoCall.Read(CONFIG_BLOCK_START, CONFIG_LENGTH)]
        && reader.script == Rest(Rest(old(reader.script)))
        && r == Failure(TransportError)
      ensures (ParseBytes(PASSWORD_NAME, password, 4).Success? && Next(old(reader.script)).Replied?
               && Next(Rest(old(reader.script))).Replied?) ==>
        && reader.log == old(reader.log)
             + [IoCall.Write(PASSWORD_PAGE, ParseBytes(PASSWORD_NAME, password, 4).value),
                IoCall.Read(CONFIG_BLOCK_START, CONFIG_LENGTH),
                IoCall.Write(CONFIG_BLOCK_START,
                  ProtectConfig(Next(Rest(old(reader.script))).bytes, ParseBytes(PASSWORD_NAME, password, 4).value))]
        && reader.script == Rest(Rest(Rest(old(reader.script))))
        && r == Completed(Next(Rest(Rest(old(reader.script)))))
      ensures (ParseBytes(PASSWORD_NAME, password, 4).Success? && Next(old(reader.script)).Replied?
               && Next(Rest(old(reader.script))).Replied?
               && |Next(Rest(old(reader.script))).bytes| == CONFIG_LENGTH) ==>
        reader.log == old(reader.log)
          + [IoCall.Write(PASSWORD_PAGE, ParseBytes(PASSWORD_NAME, password, 4).value),
             IoCall.Read(CONFIG_BLOCK_START, CONFIG_LENGTH),
             IoCall.Write(CONFIG_BLOCK_START,
               Next(Rest(old(reader.script))).bytes[3 := PROTECTED_FROM_PAGE][4 := ACCESS_BITS])]
    {
      var pwd := ParseBytes(PASSWORD_NAME, password, 4);
      if pwd.Failure? {
        return Failure(InvalidArgument(pwd.error));
      }
      var written := reader.Write(PASSWORD_PAGE, pwd.value);
      if written.TransportFailed? {
        return Failure(TransportError);
      }
      var read := reader.Read(CONFIG_BLOCK_START, CONFIG_LENGTH);
      if read.TransportFailed? {
        return Failure(TransportError);
      }
      var config := read.bytes;
      if |config| == CONFIG_LENGTH {
        ProtectConfigBlock(config, pwd.value);
      }
      config := Assign(config, 3, PROTECTED_FROM_PAGE);
      config := Assign(config, 4, ACCESS_BITS);
      config := Assign(config, 8, PasswordByte(pwd.value, 0));
      config := Assign(config, 9, PasswordByte(pwd.value, 1));
      config := Assign(config, 10, PasswordByte(pwd.value, 2));
      config := Assign(config, 11, PasswordByte(pwd.value, 3));
      var done := reader.Write(CONFIG_BLOCK_START, config);
      r := Completed(done);
    }

    /** `getUserData`: one fast read of the user-data pages when the cache is
      empty, which fills the cache on success; otherwise the cache, with no I/O. */
    method GetUserData() returns (r: Result<seq<byte>, CardError>)
      modifies this`data, reader
      ensures r == UserDataResult(old(data), old(reader.script))
      ensures old(data) != [] ==> data == old(data) && unchanged(reader)
      ensures old(data) == [] ==>
        && reader.log == old(reader.log)
             + [IoCall.Transmit(FastReadCommand(USERDATA_BLOCK_START, USERDATA_BLOCK_END),
                                FastReadLength(USERDATA_BLOCK_START, USERDATA_BLOCK_END))]
        && reader.script == Rest(old(reader.script))
        && data == (if r.Success? then r.value else [])
        && (r.Success? ==> |data| >= USER_DATA_LENGTH)
    {
      if |data| == 0 {
        var loaded := FastRead(USERDATA_BLOCK_START, USERDATA_BLOCK_END);
        if loaded.Failure? {
          return Failure(loaded.error);
        }
        data := loaded.value;
      }
      r := Success(data);
    }

    /** `write`: with `optimizeWrites` off, or nothing cached, one write of the
      whole buffer from page 4; otherwise one write per considered chunk that
      differs from the cache, where failure of any write fails the operation.
      The cache is not updated either way. */
    method Write(buffer: seq<byte>, optimizeWrites: bool) returns (r: Result<(), CardError>)
      modifies this`data, reader
      ensures data == old(data)
      ensures !(optimizeWrites && old(data) != []) ==>
        && reader.log == old(reader.log) + [IoCall.Write(USERDATA_BLOCK_START as int, buffer)]
        && reader.script == Rest(old(reader.script))
        && r == Completed(Next(old(reader.script)))
      ensures optimizeWrites && old(data) != [] ==>
        && reader.log == old(reader.log) + DiffWrites(buffer, old(data), Considered(|buffer|))
        && reader.script == Drop(old(reader.script), |DiffWrites(buffer, old(data), Considered(|buffer|))|)
        && (r.Failure? <==> AnyFailed(old(reader.script), |DiffWrites(buffer, old(data), Considered(|buffer|))|))
        && (r.Failure? ==> r.error == TransportError)
    {
      if optimizeWrites && |data| > 0 {
        var userData := GetUserData();
        var failed := WriteChangedBlocks(buffer, userData.value);
        r := if failed then Failure(TransportError) else Success(());
        return;
      }
      var reply := reader.Write(USERDATA_BLOCK_START as int, buffer);
      r := Completed(reply);
    }

    /** The loop of the differential branch of `write`: one write per considered
      chunk of `buffer` that differs from `cache`; reports whether any failed. */
    method WriteChangedBlocks(buffer: seq<byte>, cache: seq<byte>) returns (failed: bool)
      modifies reader
      ensures reader.log == old(reader.log) + DiffWrites(buffer, cache, Considered(|buffer|))
      ensures reader.script == Drop(old(reader.script), |DiffWrites(buffer, cache, Considered(|buffer|))|)
      ensures failed == AnyFailed(old(reader.script), |DiffWrites(buffer, cache, Considered(|buffer|))|)
    {
      // The source's floating-point bound `i < buffer.length / 4 - 1`; LoopBound
      // shows it admits exactly the first Considered(|buffer|) chunks.
      var bound := Considered(|buffer|);
      failed := false;
      var i: nat := 0;
      ghost var issued: seq<IoCall> := [];
      ghost var log0, script0 := reader.log, reader.script;
      while i < bound
        invariant i <= bound
        invariant issued == DiffWrites(buffer, cache, i)
        invariant reader.log == log0 + issued
        invariant reader.script == Drop(script0, |issued|)
        invariant failed == AnyFailed(script0, |issued|)
      {
        DiffWritesStep(buffer, cache, i);
        var written, reply := WriteIfChanged(buffer, cache, i);
        if written {
          CallStep(script0, |issued|);
          failed := failed || reply.TransportFailed?;
          issued := issued + [IoCall.Write(USERDATA_BLOCK_START as int + i, Chunk(buffer, i))];
        }
        i := i + 1;
      }
    }

    /** The body of that loop for chunk `i`: compares it with the cached bytes and
      writes it to page `4 + i` when they differ. */
    method WriteIfChanged(buffer: seq<byte>, cache: seq<byte>, i: nat) returns (written: bool, reply: Reply)
      modifies reader
      ensures written == ChunkChanged(buffer, cache, i)
      ensures written ==>
        && reader.log == old(reader.log) + [IoCall.Write(USERDATA_BLOCK_START as int + i, Chunk(buffer, i))]
        && reader.script == Rest(old(reader.script))
        && reply == Next(old(reader.script))
      ensures !written ==> reader.log == old(reader.log) && reader.script == old(reader.script)
    {
      var part := Chunk(buffer, i);
      written := IsDifferent(Chunk(cache, i), part);
      reply := TransportFailed;
      if written {
        reply := reader.Write(USERDATA_BLOCK_START as int + i, part);
      }
    }

    /** `isDifferent`: whether two byte sequences differ in length or in some byte. */
    method IsDifferent(existing: seq<byte>, replacement: seq<byte>) returns (different: bool)
      ensures different <==> existing != replacement
    {
      if |existing| != |replacement| {
        return true;
      }
      var i := 0;
      while i < |replacement|
        invariant 0 <= i <= |replacement|
        invariant existing[..i] == replacement[..i]
      {
        if existing[i] != replacement[i] {
          return true;
        }
        i := i + 1;
      }
      assert existing == existing[..i] && replacement == replacement[..i];
      return false;
    }

    /** `writeNdef`: frames the payload as an NDEF message in 4-byte blocks and
      writes it with a plain write; an oversized payload is refused before any I/O. */
    method WriteNdef(buffer: seq<byte>) returns (r: Result<(), CardError>)
      modifies this`data, reader
      ensures data == old(data)
      ensures |buffer| > MAX_PAYLOAD ==> r == Failure(NdefFailure(MessageTooLarge)) && unchanged(reader)
      ensures |buffer| <= MAX_PAYLOAD ==>
        && reader.log == old(reader.log) + [IoCall.Write(USERDATA_BLOCK_START as int, Frame(buffer, BLOCKSIZE))]
        && reader.script == Rest(old(reader.script))
        && r == Completed(Next(old(reader.script)))
    {
      var framed := EncapsulateUnsigned(buffer, BLOCKSIZE);
      if framed.Failure? {
        return Failure(NdefFailure(framed.error));
      }
      r := Write(framed.value, OPTIMIZE_WRITES);
    }

    /** `isNewCard`: whether the cached user data carries the factory-blank
      signature; an empty cache never does. No I/O. */
    method IsNewCard() returns (isNew: bool)
      ensures isNew <==> IsFactoryBlank(data)
    {
      var i := 0;
      while i < |FACTORY_SIGNATURE|
        invariant 0 <= i <= |FACTORY_SIGNATURE|
        invariant i <= |data| && data[..i] == FACTORY_SIGNATURE[..i]
      {
        if i >= |data| || data[i] != FACTORY_SIGNATURE[i] {
          return false;
        }
        i := i + 1;
      }
      return true;
    }

    /** `getNdefContent`: the user data (loaded as by `getUserData`), decoded when
      it is NDEF. */
    method GetNdefContent() returns (r: Result<Option<seq<byte>>, CardError>)
      modifies this`data, reader
      ensures r == NdefContent(UserDataResult(old(data), old(reader.script)))
      ensures old(data) != [] ==> data == old(data) && unchanged(reader)
      ensures old(data) == [] ==>
        && reader.log == old(reader.log)
             + [IoCall.Transmit(FastReadCommand(USERDATA_BLOCK_START, USERDATA_BLOCK_END),
                                FastReadLength(USERDATA_BLOCK_START, USERDATA_BLOCK_END))]
        && reader.script == Rest(old(reader.script))
        && data == (if UserDataResult(old(data), old(reader.script)).Success?
                    then UserDataResult(old(data), old(reader.script)).value else [])
    {
      var userData := GetUserData();
      if userData.Failure? {
        return Failure(userData.error);
      }
      if !IsNdef(userData.value) {
        return Success(None);
      }
      var cleaned := Decapsulate(userData.value);
      match cleaned {
        case Failure(e) => r := Failure(NdefFailure(e));
        case Success(NotNdef) => r := Success(None);
        case Success(Message(payload)) => r := Success(Some(payload));
      }
    }
  }
}
