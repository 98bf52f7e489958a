/** The message formats and buffer rules of main.c, the BLE-to-UART bridge:
    the one-byte key-exchange header, the outbound key request, the retry
    rule for notifications, the AES padding, the trim of decrypted text and
    the condition that closes a UART frame. The crypto library is an oracle. */
module Link {
  import opened Platform
  import Base64
  import FlashManager

  // ---------------------------------------------------------------------------
  // Constants

  /** `MSG_TYPE_KEY_EXCHANGE_REQ`, `MSG_TYPE_KEY_EXCHANGE_RESP`, `MSG_TYPE_DATA`. */
  const MsgKeyRequest: Byte := 0x01
  const MsgKeyResponse: Byte := 0x02
  const MsgData: Byte := 0x03

  /** `KEY_EXCHANGE_MSG_HEADER_SIZE`, `PUBLIC_KEY_SIZE` (a raw secp192r1
      point), `MAX_MESSAGE_SIZE`, and the size of `m_shared_secret`. */
  const HeaderSize: nat := 1
  const PublicKeySize: nat := 48
  const MaxMessageSize: nat := HeaderSize + PublicKeySize
  const SecretSize: nat := 24

  /** `sizeof(m_key)`, the AES block, `NRF_CRYPTO_AES_MAX_DATA_SIZE` and
      `BASE64_MAX_DATA_SIZE`. */
  const AesKeySize: nat := 32
  const AesBlockSize: nat := 16
  const AesBufferSize: nat := 256
  const Base64BufferSize: nat := 256

  /** The size of the key request the UART side sends: a two-byte header,
      the public key and 16 bytes that are never written. */
  const OutboundRequestSize: nat := 66

  /** `BLE_GATT_ATT_MTU_DEFAULT` and `OPCODE_LENGTH + HANDLE_LENGTH`. */
  const AttMtuDefault: nat := 23
  const AttHeaderLength: nat := 3

  /** The byte the pad is filled with, and `' '`. */
  const PadByte: Byte := 0x04
  const Space: Byte := 0x20

  /** The three bytes that end a UART frame. */
  const Sentinel: seq<Byte> := [0xA5, 0xA6, 0xA7]

  type PublicKey = k: seq<Byte> | |k| == PublicKeySize witness Zeros(PublicKeySize)
  type Secret = s: seq<Byte> | |s| == SecretSize witness Zeros(SecretSize)
  type AesKey = k: seq<Byte> | |k| == AesKeySize witness Zeros(AesKeySize)

  /** Contents of one of the 256-byte AES buffers, up to its length variable. */
  type Block = b: seq<Byte> | |b| <= AesBufferSize

  /** The initial value of the static `m_key`. */
  function InitialKey(): (k: AesKey)
  {
    Ascii("AORDIC SEMICONDUCTORAES&MAC TEST")
  }

  /** The compiled-in `m_key` differs from the flash store's default key in
      its first byte only; `main` overwrites it with the stored key. */
  lemma InitialKeyNotDefault()
    ensures InitialKey()[0] != FlashManager.DefaultKey()[0]
    ensures InitialKey()[1..] == FlashManager.DefaultKey()[1..]
  {
    var a, b := InitialKey(), FlashManager.DefaultKey();
    assert a[0] == 'A' as int && b[0] == 'N' as int;
    forall i | 1 <= i < AesKeySize
      ensures a[i] == b[i]
    {
    }
  }

  // ---------------------------------------------------------------------------
  // The crypto library

  /** The nrf_crypto calls, as functions of their inputs: ECDH on the
      private key and a peer's raw public key (`public_key_from_raw` then
      `ecdh_compute`), AES-CBC encryption under a 32-byte key and AES-CBC
      decryption under the shared secret, both with the all-zero IV. */
  datatype Crypto = Crypto(
    agree: (seq<Byte>, PublicKey) -> Result<Secret>,
    encrypt: (AesKey, seq<Byte>) -> Result<Block>,
    decrypt: (Secret, seq<Byte>) -> Result<Block>)

  /** What `nrf_crypto_aes_init`, `_key_set` and `_iv_set` return inside
      `crypt_init`. */
  datatype AesSetup = AesSetup(init: RetCode, keySet: RetCode, ivSet: RetCode)

  /** `crypt_init`: each step is passed to `APP_ERROR_CHECK`, so the first
      failure resets the device. */
  function SetupOutcome(s: AesSetup): (o: Outcome)
    ensures o == Returned(Success) <==> s.init == Success && s.keySet == Success && s.ivSet == Success
    ensures o.Fatal? ==> o.rc != Success && o.rc in {s.init, s.keySet, s.ivSet}
    ensures o.Returned? ==> o == Returned(Success)
    ensures s.init != Success ==> o == Fatal(s.init)
    ensures s.init == Success && s.keySet != Success ==> o == Fatal(s.keySet)
    ensures s.init == Success && s.keySet == Success && s.ivSet != Success ==> o == Fatal(s.ivSet)
  {
    if s.init != Success then Fatal(s.init)
    else if s.keySet != Success then Fatal(s.keySet)
    else if s.ivSet != Success then Fatal(s.ivSet)
    else Returned(Success)
  }

  // ---------------------------------------------------------------------------
  // Key-exchange messages

  /** How `handle_key_exchange` reads a message before any crypto. */
  datatype KeyMessage =
    | Empty                       // shorter than the header
    | BadLength                   // a key type, but not 49 bytes
    | Request(peer: PublicKey)
    | Response(peer: PublicKey)
    | NotKeyMessage               // any other type byte

  function Classify(msg: seq<Byte>): (k: KeyMessage)
    ensures k.Empty? <==> msg == []
    ensures (k.Request? || k.Response?) ==> |msg| == MaxMessageSize && k.peer == msg[HeaderSize..]
    ensures k.Request? <==> |msg| == MaxMessageSize && msg[0] == MsgKeyRequest
    ensures k.Response? <==> |msg| == MaxMessageSize && msg[0] == MsgKeyResponse
    ensures k.NotKeyMessage? <==> msg != [] && msg[0] != MsgKeyRequest && msg[0] != MsgKeyResponse
  {
    if |msg| < HeaderSize then Empty
    else if msg[0] != MsgKeyRequest && msg[0] != MsgKeyResponse then NotKeyMessage
    else if |msg| != MaxMessageSize then BadLength
    else if msg[0] == MsgKeyRequest then Request(msg[HeaderSize..])
    else Response(msg[HeaderSize..])
  }

  /** The code returned for a message refused before any crypto. */
  function RejectCode(k: KeyMessage): (rc: RetCode)
    requires !k.Request? && !k.Response?
    ensures rc != Success
    ensures rc == ErrInvalidData <==> k.NotKeyMessage?
  {
    if k.NotKeyMessage? then ErrInvalidData else ErrInvalidLength
  }

  /** A key request in the inbound format. */
  function RequestMessage(pk: PublicKey): seq<Byte>
  {
    [MsgKeyRequest] + pk
  }

  /** The answer to a request: the response type, then our public key. */
  function ResponseMessage(pk: PublicKey): seq<Byte>
  {
    [MsgKeyResponse] + pk
  }

  /** Request and response messages are recognised as such, and carry back
      the key they were built from. */
  lemma KeyMessagesRoundTrip(pk: PublicKey)
    ensures |RequestMessage(pk)| == MaxMessageSize && Classify(RequestMessage(pk)) == Request(pk)
    ensures |ResponseMessage(pk)| == MaxMessageSize && Classify(ResponseMessage(pk)) == Response(pk)
  {
    assert RequestMessage(pk)[HeaderSize..] == pk;
    assert ResponseMessage(pk)[HeaderSize..] == pk;
  }

  /** The key request the UART side sends: a two-byte header `00 01`, the
      key, and 16 bytes of whatever the stack held (`junk`). */
  function OutboundRequest(pk: PublicKey, junk: seq<Byte>): (m: seq<Byte>)
    requires |junk| == OutboundRequestSize - 2 - PublicKeySize
    ensures |m| == OutboundRequestSize
    ensures m[0] == 0x00 && m[1] == MsgKeyRequest && m[2..2 + PublicKeySize] == pk
  {
    [0x00, MsgKeyRequest] + pk + junk
  }

  /** The outbound request is not in the inbound format: a receiver running
      the same handler classifies it as no key message at all, so its key is
      never used. */
  lemma OutboundRequestNotRecognised(pk: PublicKey, junk: seq<Byte>)
    requires |junk| == OutboundRequestSize - 2 - PublicKeySize
    ensures Classify(OutboundRequest(pk, junk)) == NotKeyMessage
    ensures forall pk' :: OutboundRequest(pk, junk) != RequestMessage(pk')
  {
    var m := OutboundRequest(pk, junk);
    forall pk': PublicKey
      ensures m != RequestMessage(pk')
    {
      assert |RequestMessage(pk')| == MaxMessageSize;
    }
  }

  // ---------------------------------------------------------------------------
  // Sending a notification

  /** The transport answers `ble_nus_data_send` with `answers[0]`,
      `answers[1]`, ... on successive attempts; it stops reporting
      `NRF_ERROR_RESOURCES` at some point. */
  predicate Settles(answers: seq<RetCode>)
  {
    exists k :: 0 <= k < |answers| && answers[k] != ErrResources
  }

  /** The answer that ends the retry loop: the first one that is not
      `NRF_ERROR_RESOURCES`. */
  function Settled(answers: seq<RetCode>): (rc: RetCode)
    requires Settles(answers)
    ensures rc != ErrResources && rc in answers
    decreases |answers|
  {
    if answers[0] != ErrResources then answers[0]
    else
      var k :| 0 <= k < |answers| && answers[k] != ErrResources;
      assert answers[1..][k - 1] == answers[k];
      Settled(answers[1..])
  }

  /** Every attempt before the settling one was refused for lack of buffers. */
  lemma {:induction false} SettledIsFirst(answers: seq<RetCode>, k: nat)
    requires k < |answers| && answers[k] != ErrResources
    requires forall j :: 0 <= j < k ==> answers[j] == ErrResources
    ensures Settles(answers) && Settled(answers) == answers[k]
    decreases k
  {
    if k > 0 {
      assert answers[1..][k - 1] == answers[k];
      SettledIsFirst(answers[1..], k - 1);
    }
  }

  /** The send results the code lets pass: success, and the two that mean
      no peer is listening (`INVALID_STATE`, `NOT_FOUND`). */
  predicate Tolerated(rc: RetCode)
  {
    rc == Success || rc == ErrInvalidState || rc == ErrNotFound
  }

  // ---------------------------------------------------------------------------
  // AES padding

  /** `((len / 16) + 1) * 16`: the next multiple of 16 above `len`, a full
      block more when `len` is already a multiple. */
  function PaddedLength(len: nat): (n: nat)
    ensures n % AesBlockSize == 0 && len < n <= len + AesBlockSize
  {
    var q, r := len / AesBlockSize, len % AesBlockSize;
    DivMod((q + 1) * AesBlockSize, AesBlockSize, q + 1, 0);
    (q + 1) * AesBlockSize
  }

  /** It is the least such multiple. */
  lemma PaddedLengthLeast(len: nat, m: nat)
    requires m % AesBlockSize == 0 && m > len
    ensures m >= PaddedLength(len)
  {
    var q := m / AesBlockSize;
    assert m == q * AesBlockSize;
    assert len / AesBlockSize < q;
  }

  /** `data_to_encrypt` after `memset(…, 4, 256)` and `memcpy(…, data, len)`. */
  function PadBuffer(data: seq<Byte>, len: nat): (b: seq<Byte>)
    requires len <= |data| && len <= AesBufferSize
  {
    data[..len] + seq(AesBufferSize - len, _ => PadByte)
  }

  /** The plaintext handed to the cipher: the data, then pad bytes 0x04 up
      to PaddedLength(len). */
  function Padded(data: seq<Byte>, len: nat): (p: seq<Byte>)
    requires len <= |data| && len < AesBufferSize
    ensures |p| == PaddedLength(len) && |p| % AesBlockSize == 0
    ensures p[..len] == data[..len]
    ensures forall i :: len <= i < |p| ==> p[i] == PadByte
  {
    PadBuffer(data, len)[..PaddedLength(len)]
  }

  // ---------------------------------------------------------------------------
  // Trimming decrypted text

  /** The decrypted text without its trailing bytes below `' '` (the pad
      bytes 0x04 among them). */
  function Trimmed(s: seq<Byte>): (t: seq<Byte>)
    ensures |t| <= |s| && t == s[..|t|]
    ensures t != [] ==> t[|t| - 1] >= Space
    ensures forall i :: |t| <= i < |s| ==> s[i] < Space
  {
    if s != [] && s[|s| - 1] < Space then
      var t := Trimmed(s[..|s| - 1]);
      assert s[..|s| - 1][..|t|] == s[..|t|];
      t
    else s
  }

  /** The trim is the only prefix with those properties: it drops exactly the
      trailing run of bytes below `' '`. */
  lemma {:induction false} TrimmedUnique(s: seq<Byte>, n: nat)
    requires n <= |s|
    requires n > 0 ==> s[n - 1] >= Space
    requires forall i :: n <= i < |s| ==> s[i] < Space
    ensures Trimmed(s) == s[..n]
    decreases |s|
  {
    if |s| > n {
      var s' := s[..|s| - 1];
      assert s'[..n] == s[..n];
      TrimmedUnique(s', n);
    } else {
      assert s[..n] == s;
    }
  }

  /** Trimming twice is trimming once. */
  lemma TrimIdempotent(s: seq<Byte>)
    ensures Trimmed(Trimmed(s)) == Trimmed(s)
  {
    var t := Trimmed(s);
    TrimmedUnique(t, |t|);
  }

  /** One step of the trim loop: dropping a last byte below `' '` does not
      change the result. */
  lemma TrimStep(s: seq<Byte>)
    requires s != [] && s[|s| - 1] < Space
    ensures Trimmed(s[..|s| - 1]) == Trimmed(s)
  {
  }

  // ---------------------------------------------------------------------------
  // UART frames

  /** The buffer holds more than three bytes and ends with A5 A6 A7. */
  predicate EndsWithSentinel(buf: seq<Byte>)
  {
    |buf| > 3 && buf[|buf| - 3..] == Sentinel
  }

  /** The condition that closes a frame after a byte is appended. */
  predicate FrameComplete(buf: seq<Byte>, maxLen: nat)
    ensures FrameComplete(buf, maxLen) && |buf| < maxLen ==> |buf| > 3 && buf == buf[..|buf| - 3] + Sentinel
    ensures !FrameComplete(buf, maxLen) ==> |buf| < maxLen
  {
    EndsWithSentinel(buf) || |buf| >= maxLen
  }

  /** The bytes of a closed frame that are encoded: all but the last three,
      whether the frame closed on the sentinel or on the size limit. */
  function Payload(buf: seq<Byte>): (p: seq<Byte>)
    requires |buf| > 3
    ensures |p| == |buf| - 3 && buf == p + buf[|p|..]
    ensures EndsWithSentinel(buf) ==> buf == p + Sentinel
  {
    buf[..|buf| - 3]
  }

  /** A sentinel on its own does not close a frame: it must follow at least
      one byte. */
  lemma LoneSentinelKeepsFrameOpen(maxLen: nat)
    requires maxLen > |Sentinel|
    ensures !FrameComplete(Sentinel, maxLen)
  {
  }

  /** The text of the base64 encoding of `payload`, as the bytes the
      `char` buffer `encoded_data` holds. */
  function EncodedText(payload: seq<Byte>): (t: seq<Byte>)
    ensures |t| == 4 * ((|payload| + 2) / 3)
    ensures forall i :: 0 <= i < |t| ==> t[i] == Base64.Encoded(payload)[i] as int
  {
    var e := Base64.Encoded(payload);
    Base64.EncodedShape(payload);
    seq(|e|, i requires 0 <= i < |e| => EncodedByte(e[i]))
  }

  /** An encoded character is ASCII. */
  function EncodedByte(c: char): (b: Byte)
    requires Base64.SextetOf(c).Some? || c == Base64.Pad
    ensures b == c as int
  {
    c as int
  }

  /** `mbedtls_base64_encode` into `encoded_data` needs room for the text
      and its terminator. */
  predicate EncodingFits(n: nat)
  {
    4 * ((n + 2) / 3) + 1 <= Base64BufferSize
  }

  /** Payloads of up to 189 bytes fit; longer ones do not. */
  lemma EncodingFitsExactly(n: nat)
    ensures EncodingFits(n) <==> n <= 189
  {
    if n <= 189 {
      assert (n + 2) / 3 <= 63;
    } else {
      assert (n + 2) / 3 >= 64;
    }
  }

  /** An encoded payload that fits is short enough for `encrypt_data`'s
      pad buffer. */
  lemma FittingTextIsEncryptable(payload: seq<Byte>)
    requires EncodingFits(|payload|)
    ensures |EncodedText(payload)| < AesBufferSize
    ensures PaddedLength(|EncodedText(payload)|) <= AesBufferSize
  {
    var n := |EncodedText(payload)|;
    assert n % 4 == 0;
    assert n <= 252;
    var q := n / AesBlockSize;
    assert q <= 15;
  }
}
