/** The stateful part of main.c: the static variables of the BLE-to-UART
    bridge and the handlers that update them. ECDH key setup and agreement,
    the key-exchange handshake, the inbound handler that decrypts and trims
    what the peer sends, the UART framer that encrypts what the serial side
    sends, and the GATT event that sets the notification size. */
module Bridge {
  import opened Platform
  import opened Link
  import FlashManager

  /** `BLE_CONN_HANDLE_INVALID`. */
  const ConnHandleInvalid: nat := 0xFFFF

  /** What the inbound handler does with one received message. */
  datatype Delivery =
    | Consumed                  // a key-exchange message, handled
    | Dropped(rc: RetCode)      // refused by the handshake; nothing else happens
    | Forwarded(text: seq<Byte>) // decrypted and trimmed; handed to base64 decoding
    | Halted(rc: RetCode)       // `APP_ERROR_CHECK` resets the device

  /** What the UART handler does with one received byte. */
  datatype UartOutcome =
    | Buffered                  // the frame is still open
    | Flushed(rc: RetCode)      // the frame was sent (or the send tolerated); the buffer is empty
    | Aborted(rc: RetCode)      // `APP_ERROR_CHECK` resets the device
    | Emptied                   // the frame closed with nothing to send; the buffer is empty
    | Overrun                   // the encoded frame does not fit `encoded_data`

  /** What `decrypt_data` does with a message, given the state. */
  datatype Decryption =
    | Refused(out: Outcome)     // a guard, or `crypt_init`; the buffer is untouched
    | CipherFailed(rc: Failure) // the cipher failed after the buffer was cleared
    | Plain(text: Block)

  /** What `encrypt_data` does with a text, given the state. */
  datatype Encryption =
    | NotStarted(out: Outcome)
    | Encrypted(cipher: Result<Block>)

  /** The length of a message (0 for a null pointer). */
  function Length(msg: Option<seq<Byte>>): nat
  {
    if msg.Some? then |msg.value| else 0
  }

  /** `decrypt_data(data, len)`: its guards in the order the code tests
      them (state, then parameters, then block alignment), then
      `crypt_init`, then the cipher under the shared secret. */
  function Decrypting(c: Crypto, ready: bool, secret: Secret, data: Option<seq<Byte>>, len: int, setup: AesSetup): (d: Decryption)
    requires data.Some? && len > 0 ==> len <= |data.value|
    ensures !d.Refused? <==>
      ready && data.Some? && len > 0 && len % AesBlockSize == 0 && SetupOutcome(setup) == Returned(Success)
    ensures d.Refused? ==> d.out.rc != Success
    ensures !ready ==> d == Refused(Returned(ErrInvalidState))
    ensures ready && (data.None? || len <= 0) ==> d == Refused(Returned(ErrInvalidParam))
    ensures ready && data.Some? && len > 0 && len % AesBlockSize != 0 ==> d == Refused(Returned(ErrInvalidLength))
    ensures ready && data.Some? && len > 0 && len % AesBlockSize == 0 && SetupOutcome(setup).Fatal? ==>
      d == Refused(SetupOutcome(setup))
    ensures !d.Refused? ==> c.decrypt(secret, data.value[..len]) == (if d.Plain? then Ok(d.text) else Err(d.rc))
  {
    if !ready then Refused(Returned(ErrInvalidState))
    else if data.None? || len <= 0 then Refused(Returned(ErrInvalidParam))
    else if len % AesBlockSize != 0 then Refused(Returned(ErrInvalidLength))
    else if SetupOutcome(setup).Fatal? then Refused(SetupOutcome(setup))
    else match c.decrypt(secret, data.value[..len])
      case Err(rc) => CipherFailed(rc)
      case Ok(text) => Plain(text)
  }

  /** `encrypt_data(data, len)`: state, then parameters, then `crypt_init`,
      then the cipher under `m_key` on the padded text. */
  function Encrypting(c: Crypto, ready: bool, key: AesKey, data: Option<seq<Byte>>, len: int, setup: AesSetup): (e: Encryption)
    requires data.Some? && len > 0 ==> len < AesBufferSize && len <= |data.value|
    ensures e.Encrypted? <==> ready && data.Some? && len > 0 && SetupOutcome(setup) == Returned(Success)
    ensures e.NotStarted? ==> e.out.rc != Success
    ensures !ready ==> e == NotStarted(Returned(ErrInvalidState))
    ensures ready && (data.None? || len <= 0) ==> e == NotStarted(Returned(ErrInvalidParam))
    ensures ready && data.Some? && len > 0 && SetupOutcome(setup).Fatal? ==> e == NotStarted(SetupOutcome(setup))
    ensures e.Encrypted? ==> e.cipher == c.encrypt(key, Padded(data.value, len))
  {
    if !ready then NotStarted(Returned(ErrInvalidState))
    else if data.None? || len <= 0 then NotStarted(Returned(ErrInvalidParam))
    else if SetupOutcome(setup).Fatal? then NotStarted(SetupOutcome(setup))
    else Encrypted(c.encrypt(key, Padded(data.value, len)))
  }

  /** What the inbound handler makes of a decryption: `APP_ERROR_CHECK` on
      any failure, otherwise the trimmed text. */
  function Delivered(d: Decryption): (r: Delivery)
    requires d.Refused? ==> d.out.rc != Success
    ensures r.Forwarded? <==> d.Plain?
    ensures d.Plain? ==> r.text == Trimmed(d.text)
    ensures r.Halted? ==> r.rc != Success
    ensures d.Refused? ==> r == Halted(d.out.rc)
    ensures d.CipherFailed? ==> r == Halted(d.rc)
  {
    match d
    case Refused(out) => Halted(out.rc)
    case CipherFailed(rc) => Halted(rc)
    case Plain(text) => Forwarded(Trimmed(text))
  }

  /** A data message with a type byte in front of whole cipher blocks is
      decrypted whole, type byte included: its length is not a multiple of
      16, so once keys are set up it resets the device. */
  lemma TypedDataMessageHalts(c: Crypto, secret: Secret, cipher: seq<Byte>, setup: AesSetup)
    requires |cipher| % AesBlockSize == 0
    ensures Delivered(Decrypting(c, true, secret, Some([MsgData] + cipher), |cipher| + 1, setup))
      == Halted(ErrInvalidLength)
  {
    var msg := [MsgData] + cipher;
    assert (|cipher| + 1) % AesBlockSize == 1 by {
      DivMod(|cipher| + 1, AesBlockSize, |cipher| / AesBlockSize, 1);
    }
  }

  /** ECDH with a peer's key in a given ECDH state: refused before
      `ecdh_init` has succeeded. */
  function Agreed(c: Crypto, ready: bool, privateKey: seq<Byte>, peer: PublicKey): Result<Secret>
  {
    if !ready then Err(ErrInvalidState) else c.agree(privateKey, peer)
  }

  /** What `handle_key_exchange` returns and leaves behind: its return code,
      its flag, the shared secret and the notifications sent. */
  datatype Handshake = Handshake(rc: RetCode, exchanged: bool, secret: Secret, sent: seq<seq<Byte>>)

  /** `handle_key_exchange(msg)` from a state with the given flag, secret
      and sent notifications, with the ECDH state `ready`/`privateKey`, our
      public key `pk`, and the transport's answers to a reply. */
  function KeyExchange(c: Crypto, ready: bool, privateKey: seq<Byte>, pk: PublicKey,
                       msg: Option<seq<Byte>>, answers: seq<RetCode>,
                       exchanged: bool, secret: Secret, sent: seq<seq<Byte>>): (h: Handshake)
    requires Settles(answers)
    // The flag is never cleared, and it is only ever set by a call that succeeds.
    ensures exchanged ==> h.exchanged
    ensures h.exchanged && !exchanged ==> h.rc == Success
    // The one success that leaves the flag clear: a request whose reply was sent.
    ensures h.rc == Success && !h.exchanged ==>
      msg.Some? && Classify(msg.value).Request? && h.sent == sent + [ResponseMessage(pk)]
    // The secret only changes to an agreement with the key a message carries.
    ensures h.secret != secret ==>
      && msg.Some? && !exchanged
      && (Classify(msg.value).Request? || Classify(msg.value).Response?)
      && Agreed(c, ready, privateKey, Classify(msg.value).peer) == Ok(h.secret)
    // At most one notification goes out: our key, in answer to a request.
    ensures h.sent == sent || (msg.Some? && Classify(msg.value).Request? && h.sent == sent + [ResponseMessage(pk)])
    // A message refused before any crypto changes nothing, and falls through
    // to decryption (`INVALID_DATA`) exactly when it is not a key message.
    ensures msg.Some? && !exchanged && !Classify(msg.value).Request? && !Classify(msg.value).Response? ==>
      && h == Handshake(h.rc, false, secret, sent)
      && (h.rc == ErrInvalidData <==> Classify(msg.value).NotKeyMessage?)
  {
    if msg.None? then Handshake(ErrNull, exchanged, secret, sent)
    else if exchanged then Handshake(Success, true, secret, sent)
    else
      var kind := Classify(msg.value);
      if !kind.Request? && !kind.Response? then Handshake(RejectCode(kind), false, secret, sent)
      else match Agreed(c, ready, privateKey, kind.peer)
        case Err(code) => Handshake(code, false, secret, sent)
        case Ok(agreed) =>
          if kind.Response? then Handshake(Success, true, agreed, sent)
          else
            var s := Settled(answers);
            var sent' := sent + (if s == Success then [ResponseMessage(pk)] else []);
            if s == ErrInvalidState || s == ErrNotFound then Handshake(Success, true, agreed, sent')
            else Handshake(s, false, agreed, sent')
  }

  /** `memset(data_to_encrypt, 4, 256); memcpy(data_to_encrypt, data, len)`. */
  method PadBlock(data: seq<Byte>, len: nat) returns (buf: array<Byte>)
    requires len <= |data| && len <= AesBufferSize
    ensures fresh(buf) && buf[..] == PadBuffer(data, len)
  {
    buf := new Byte[AesBufferSize];
    var i := 0;
    while i < AesBufferSize
      invariant 0 <= i <= AesBufferSize
      invariant forall j :: 0 <= j < i ==> buf[j] == PadByte
    {
      buf[i] := PadByte;
      i := i + 1;
    }
    i := 0;
    while i < len
      invariant 0 <= i <= len
      invariant forall j :: 0 <= j < i ==> buf[j] == data[j]
      invariant forall j :: i <= j < AesBufferSize ==> buf[j] == PadByte
    {
      buf[i] := data[i];
      i := i + 1;
    }
    assert forall j :: 0 <= j < AesBufferSize ==> buf[j] == PadBuffer(data, len)[j];
  }

  class Device {
    /** The crypto library and `BLE_NUS_MAX_DATA_LEN`, fixed at build time. */
    const crypto: Crypto
    const bufferSize: nat

    /** `data_array`, static in `uart_event_handle`, and `decrypted_data`. */
    const frame: array<Byte>
    const decrypted: array<Byte>

    var connHandle: nat                // m_conn_handle
    var maxDataLen: nat                // m_ble_nus_max_data_len
    var ecdhInitialized: bool          // m_ecdh_initialized
    var privateKey: seq<Byte>          // m_private_key
    var rawPublicKey: PublicKey        // m_raw_public_key
    var sharedSecret: Secret           // m_shared_secret
    var key: AesKey                    // m_key
    var encrypted: Block               // encrypted_data[..encrypted_data_len]
    var decryptedLen: int              // decrypted_data_len
    var index: nat                     // index, static in uart_event_handle

    /** The three `static bool key_exchanged` flags, of `handle_key_exchange`,
        `nus_data_handler` and `uart_event_handle`. Nothing clears them. */
    var exchanged: bool
    var rxExchanged: bool
    var txExchanged: bool

    /** Every notification the transport accepted, in order. */
    var sent: seq<seq<Byte>>

    ghost predicate Valid()
      reads this
    {
      && frame.Length == bufferSize && decrypted.Length == AesBufferSize && frame != decrypted
      && AttMtuDefault - AttHeaderLength <= maxDataLen <= bufferSize
      && index < bufferSize
      && 0 <= decryptedLen <= AesBufferSize
    }

    /** The statics at reset. Before any handshake the shared secret is all
        zeros. */
    constructor (crypto: Crypto, bufferSize: nat)
      requires bufferSize >= AttMtuDefault - AttHeaderLength
      ensures Valid() && fresh(frame) && fresh(decrypted)
      ensures this.crypto == crypto && this.bufferSize == bufferSize
      ensures connHandle == ConnHandleInvalid && maxDataLen == AttMtuDefault - AttHeaderLength
      ensures !ecdhInitialized && sharedSecret == Zeros(SecretSize) && rawPublicKey == Zeros(PublicKeySize)
      ensures key == InitialKey() && encrypted == [] && decryptedLen == 0
      ensures frame[..] == Zeros(bufferSize) && decrypted[..] == Zeros(AesBufferSize) && index == 0
      ensures !exchanged && !rxExchanged && !txExchanged && sent == []
    {
      this.crypto := crypto;
      this.bufferSize := bufferSize;
      frame := new Byte[bufferSize](_ => 0);
      decrypted := new Byte[AesBufferSize](_ => 0);
      connHandle := ConnHandleInvalid;
      maxDataLen := AttMtuDefault - AttHeaderLength;
      ecdhInitialized := false;
      privateKey := [];
      rawPublicKey := Zeros(PublicKeySize);
      sharedSecret := Zeros(SecretSize);
      key := InitialKey();
      encrypted := [];
      decryptedLen := 0;
      index := 0;
      exchanged := false;
      rxExchanged := false;
      txExchanged := false;
      sent := [];
      new;
      assert frame[..] == Zeros(bufferSize);
      assert decrypted[..] == Zeros(AesBufferSize);
    }

    /** `memcpy(m_key, flash_mgr_get_encryption_key(), 32)` in `main`. */
    method LoadKey(store: FlashManager.Manager)
      requires store.Valid()
      modifies this`key
      ensures key == FlashManager.KeyField(store.config)
    {
      key := store.EncryptionKey();
    }

    // -------------------------------------------------------------------------
    // ECDH

    /** `ecdh_init`: nothing to do once initialised; otherwise generate a key
        pair (`keygen`), export the public key (`toRaw`) and free its
        structure (`freeRc`), returning the first failure. */
    method EcdhInit(keygen: Result<seq<Byte>>, toRaw: Result<PublicKey>, freeRc: RetCode) returns (rc: RetCode)
      modifies this`ecdhInitialized, this`privateKey, this`rawPublicKey
      ensures old(ecdhInitialized) ==>
        rc == Success && ecdhInitialized && privateKey == old(privateKey) && rawPublicKey == old(rawPublicKey)
      ensures !old(ecdhInitialized) ==>
        && rc == (if keygen.Err? then keygen.code else if toRaw.Err? then toRaw.code else freeRc)
        && ecdhInitialized == (rc == Success)
        && privateKey == (if rc == Success then keygen.value else old(privateKey))
        && rawPublicKey == (if keygen.Ok? && toRaw.Ok? then toRaw.value else old(rawPublicKey))
    {
      if ecdhInitialized {
        return Success;
      }
      if keygen.Err? {
        return keygen.code;
      }
      if toRaw.Err? {
        return toRaw.code;
      }
      rawPublicKey := toRaw.value;
      if freeRc != Success {
        return freeRc;
      }
      privateKey := keygen.value;
      ecdhInitialized := true;
      rc := Success;
    }

    /** `ecdh_cleanup`. */
    method EcdhCleanup()
      modifies this`ecdhInitialized
      ensures !ecdhInitialized
    {
      if ecdhInitialized {
        ecdhInitialized := false;
      }
    }

    /** `ecdh_compute_shared_secret(p_peer_public_key, key_size)`; `peer` is
        None for a null pointer. */
    method ComputeSharedSecret(peer: Option<seq<Byte>>, keySize: nat) returns (rc: RetCode)
      requires peer.Some? ==> keySize <= |peer.value|
      modifies this`sharedSecret
      ensures !ecdhInitialized ==> rc == ErrInvalidState && sharedSecret == old(sharedSecret)
      ensures ecdhInitialized && peer.None? ==> rc == ErrNull && sharedSecret == old(sharedSecret)
      ensures ecdhInitialized && peer.Some? && keySize != PublicKeySize ==>
        rc == ErrInvalidLength && sharedSecret == old(sharedSecret)
      ensures ecdhInitialized && peer.Some? && keySize == PublicKeySize ==>
        var r := crypto.agree(privateKey, peer.value[..PublicKeySize]);
        && (r.Ok? ==> rc == Success && sharedSecret == r.value)
        && (r.Err? ==> rc == r.code && sharedSecret == old(sharedSecret))
    {
      if !ecdhInitialized {
        return ErrInvalidState;
      }
      if peer.None? {
        return ErrNull;
      }
      if keySize != PublicKeySize {
        return ErrInvalidLength;
      }
      var r := crypto.agree(privateKey, peer.value[..PublicKeySize]);
      if r.Err? {
        return r.code;
      }
      sharedSecret := r.value;
      rc := Success;
    }

    // -------------------------------------------------------------------------
    // Notifications

    /** The `do { ble_nus_data_send } while (RESOURCES)` loop: attempt i is
        answered with answers[i]; the message is queued when an attempt
        succeeds. */
    method Transmit(msg: seq<Byte>, answers: seq<RetCode>) returns (rc: RetCode)
      requires Settles(answers)
      modifies this`sent
      ensures rc == Settled(answers)
      ensures sent == old(sent) + (if rc == Success then [msg] else [])
    {
      var i := 0;
      ghost var k :| 0 <= k < |answers| && answers[k] != ErrResources;
      while answers[i] == ErrResources
        invariant i <= k && forall j :: 0 <= j < i ==> answers[j] == ErrResources
        decreases k - i
      {
        i := i + 1;
      }
      rc := answers[i];
      SettledIsFirst(answers, i);
      if rc == Success {
        sent := sent + [msg];
      }
    }

    // -------------------------------------------------------------------------
    // The handshake

    /** `handle_key_exchange(p_data, length)`; `msg` is None for a null
        pointer, and `answers` are the transport's answers to the reply. A
        request computes the secret and answers with our key; the flag is set
        only when the reply is answered `INVALID_STATE` or `NOT_FOUND`: a
        reply that is sent returns success and leaves the flag clear. */
    method HandleKeyExchange(msg: Option<seq<Byte>>, answers: seq<RetCode>) returns (rc: RetCode)
      requires Settles(answers)
      modifies this`sharedSecret, this`exchanged, this`sent
      ensures var h := KeyExchange(crypto, ecdhInitialized, privateKey, rawPublicKey, msg, answers,
                                   old(exchanged), old(sharedSecret), old(sent));
        rc == h.rc && exchanged == h.exchanged && sharedSecret == h.secret && sent == h.sent
      ensures msg.None? ==>
        rc == ErrNull && exchanged == old(exchanged) && sharedSecret == old(sharedSecret) && sent == old(sent)
      ensures msg.Some? && old(exchanged) ==>
        rc == Success && exchanged && sharedSecret == old(sharedSecret) && sent == old(sent)
      ensures msg.Some? && !old(exchanged) && !Classify(msg.value).Request? && !Classify(msg.value).Response? ==>
        rc == RejectCode(Classify(msg.value)) && !exchanged && sharedSecret == old(sharedSecret) && sent == old(sent)
      ensures msg.Some? && !old(exchanged) && (Classify(msg.value).Request? || Classify(msg.value).Response?) ==>
        var a := Agreed(crypto, ecdhInitialized, privateKey, Classify(msg.value).peer);
        && (a.Err? ==> rc == a.code && !exchanged && sharedSecret == old(sharedSecret) && sent == old(sent))
        && (a.Ok? && Classify(msg.value).Response? ==>
              rc == Success && exchanged && sharedSecret == a.value && sent == old(sent))
        && (a.Ok? && Classify(msg.value).Request? ==>
              var s := Settled(answers);
              && sharedSecret == a.value
              && sent == old(sent) + (if s == Success then [ResponseMessage(rawPublicKey)] else [])
              && exchanged == (s == ErrInvalidState || s == ErrNotFound)
              && rc == (if exchanged then Success else s))
    {
      if msg.None? {
        return ErrNull;
      }
      if exchanged {
        return Success;
      }
      var data := msg.value;
      var kind := Classify(data);
      if !kind.Request? && !kind.Response? {
        return RejectCode(kind);
      }
      assert data[HeaderSize..][..PublicKeySize] == kind.peer;
      rc := ComputeSharedSecret(Some(data[HeaderSize..]), PublicKeySize);
      if rc != Success {
        return rc;
      }
      if kind.Request? {
        rc := Transmit(ResponseMessage(rawPublicKey), answers);
        if rc != ErrInvalidState && rc != ErrNotFound {
          return rc;
        }
      }
      exchanged := true;
      rc := Success;
    }
    // -------------------------------------------------------------------------
    // Encryption and decryption

    /** `encrypt_data(data, len)`: the ciphertext lands in `encrypted_data`,
        which is cleared first. */
    method EncryptData(data: Option<seq<Byte>>, len: int, setup: AesSetup) returns (out: Outcome)
      requires data.Some? && len > 0 ==> len < AesBufferSize && len <= |data.value|
      modifies this`encrypted
      ensures var e := Encrypting(crypto, ecdhInitialized, key, data, len, setup);
        && (e.NotStarted? ==> out == e.out && encrypted == old(encrypted))
        && (e.Encrypted? && e.cipher.Ok? ==> out == Returned(Success) && encrypted == e.cipher.value)
        && (e.Encrypted? && e.cipher.Err? ==> out == Returned(e.cipher.code) && encrypted == Zeros(AesBufferSize))
    {
      if !ecdhInitialized {
        return Returned(ErrInvalidState);
      }
      if data.None? || len <= 0 {
        return Returned(ErrInvalidParam);
      }
      var setupOut := SetupOutcome(setup);
      if setupOut.Fatal? {
        return setupOut;
      }
      encrypted := Zeros(AesBufferSize);
      var buf := PadBlock(data.value, len);
      var plain := buf[..PaddedLength(len)];
      assert plain == Padded(data.value, len);
      var r := crypto.encrypt(key, plain);
      if r.Err? {
        return Returned(r.code);
      }
      encrypted := r.value;
      out := Returned(Success);
    }

    /** `decrypt_data(data, len)`: the plaintext lands in `decrypted_data`,
        which is cleared first, and its length in `decrypted_data_len`. */
    method DecryptData(data: Option<seq<Byte>>, len: int, setup: AesSetup) returns (out: Outcome)
      requires Valid()
      requires data.Some? && len > 0 ==> len <= |data.value|
      modifies this`decryptedLen, decrypted
      ensures Valid()
      ensures var d := Decrypting(crypto, ecdhInitialized, sharedSecret, data, len, setup);
        && (d.Refused? ==> out == d.out && decryptedLen == old(decryptedLen) && decrypted[..] == old(decrypted[..]))
        && (d.CipherFailed? ==>
              out == Returned(d.rc) && decryptedLen == AesBufferSize && decrypted[..] == Zeros(AesBufferSize))
        && (d.Plain? ==>
              && out == Returned(Success) && decryptedLen == |d.text|
              && decrypted[..] == d.text + Zeros(AesBufferSize - |d.text|))
    {
      if !ecdhInitialized {
        return Returned(ErrInvalidState);
      }
      if data.None? || len <= 0 {
        return Returned(ErrInvalidParam);
      }
      if len % AesBlockSize != 0 {
        return Returned(ErrInvalidLength);
      }
      var setupOut := SetupOutcome(setup);
      if setupOut.Fatal? {
        return setupOut;
      }
      forall i | 0 <= i < AesBufferSize {
        decrypted[i] := 0;
      }
      decryptedLen := AesBufferSize;
      assert decrypted[..] == Zeros(AesBufferSize);
      var r := crypto.decrypt(sharedSecret, data.value[..len]);
      if r.Err? {
        return Returned(r.code);
      }
      var text := r.value;
      forall i | 0 <= i < |text| {
        decrypted[i] := text[i];
      }
      decryptedLen := |text|;
      assert decrypted[..] == text + Zeros(AesBufferSize - |text|);
      out := Returned(Success);
    }

    /** The loop `for (; len > 0 && decrypted_data[len-1] < ' '; len--)`:
        shortens the decrypted text in place to its trim. */
    method TrimControlTail()
      requires Valid()
      modifies this`decryptedLen
      ensures Valid()
      ensures decrypted[..decryptedLen] == Trimmed(decrypted[..old(decryptedLen)])
    {
      ghost var text := decrypted[..decryptedLen];
      var len := decryptedLen;
      while len > 0 && decrypted[len - 1] < Space
        invariant 0 <= len <= decryptedLen
        invariant Trimmed(decrypted[..len]) == Trimmed(text)
      {
        var s := decrypted[..len];
        assert s[..|s| - 1] == decrypted[..len - 1];
        TrimStep(s);
        len := len - 1;
      }
      TrimmedUnique(decrypted[..len], len);
      decryptedLen := len;
    }

    // -------------------------------------------------------------------------
    // Inbound messages

    /** `nus_data_handler` on received data. Until its own flag is set, each
        message goes to the handshake first (`hs` is what that returned): on
        success the flag is set and the message consumed; a failure other
        than `INVALID_DATA` drops it; `INVALID_DATA` falls through. Then the
        whole message is decrypted (any failure resets the device) and the
        text trimmed. */
    method NusDataHandler(msg: Option<seq<Byte>>, answers: seq<RetCode>, setup: AesSetup)
      returns (d: Delivery, ghost hs: Option<RetCode>)
      requires Valid() && Settles(answers)
      modifies this`sharedSecret, this`exchanged, this`sent, this`rxExchanged, this`decryptedLen, decrypted
      ensures Valid()
      ensures hs.None? <==> old(rxExchanged)
      ensures rxExchanged == (old(rxExchanged) || hs == Some(Success))
      ensures old(exchanged ==> rxExchanged) ==> (exchanged ==> rxExchanged)
      ensures old(rxExchanged) ==> exchanged == old(exchanged) && sharedSecret == old(sharedSecret) && sent == old(sent)
      ensures !old(rxExchanged) ==>
        var h := KeyExchange(crypto, ecdhInitialized, privateKey, rawPublicKey, msg, answers,
                             old(exchanged), old(sharedSecret), old(sent));
        hs == Some(h.rc) && exchanged == h.exchanged && sharedSecret == h.secret && sent == h.sent
      ensures d == (if hs == Some(Success) then Consumed
                    else if hs.Some? && hs.value != ErrInvalidData then Dropped(hs.value)
                    else Delivered(Decrypting(crypto, ecdhInitialized, sharedSecret, msg, Length(msg), setup)))
      ensures d.Forwarded? ==> decrypted[..decryptedLen] == d.text
      ensures d.Consumed? || d.Dropped? ==> decryptedLen == old(decryptedLen) && decrypted[..] == old(decrypted[..])
    {
      hs := None;
      if !rxExchanged {
        var rc := HandleKeyExchange(msg, answers);
        hs := Some(rc);
        if rc == Success {
          rxExchanged := true;
          return Consumed, hs;
        } else if rc != ErrInvalidData {
          return Dropped(rc), hs;
        }
      }
      var out := DecryptData(msg, Length(msg), setup);
      ghost var dec := Decrypting(crypto, ecdhInitialized, sharedSecret, msg, Length(msg), setup);
      if out != Returned(Success) {
        return Halted(out.rc), hs;
      }
      TrimControlTail();
      d := Forwarded(decrypted[..decryptedLen]);
    }

    // -------------------------------------------------------------------------
    // Outbound frames from the UART

    /** The frame buffer is zeroed and empty. */
    ghost predicate Cleared()
      reads this, frame
    {
      index == 0 && frame[..] == Zeros(bufferSize)
    }

    /** `memset(data_array, 0, sizeof(data_array))`. */
    method ZeroFrame()
      modifies frame
      ensures frame[..] == Zeros(frame.Length)
    {
      var i := 0;
      while i < frame.Length
        invariant 0 <= i <= frame.Length
        invariant forall j :: 0 <= j < i ==> frame[j] == 0
      {
        frame[i] := 0;
        i := i + 1;
      }
      assert frame[..] == Zeros(frame.Length);
    }

    /** The first frame: the 66-byte key request goes out instead of the
        frame, and the flag is set unless `APP_ERROR_CHECK` fires. */
    method SendKeyRequest(junk: seq<Byte>, answers: seq<RetCode>) returns (u: UartOutcome)
      requires Settles(answers) && |junk| == OutboundRequestSize - 2 - PublicKeySize
      modifies this`sent, this`txExchanged
      ensures var s := Settled(answers);
        && (Tolerated(s) ==> u == Flushed(s) && txExchanged)
        && (!Tolerated(s) ==> u == Aborted(s) && txExchanged == old(txExchanged))
        && sent == old(sent) + (if s == Success then [OutboundRequest(rawPublicKey, junk)] else [])
    {
      var rc := Transmit(OutboundRequest(rawPublicKey, junk), answers);
      if !Tolerated(rc) {
        return Aborted(rc);
      }
      txExchanged := true;
      u := Flushed(rc);
    }

    /** Later frames: the base64 text of the payload is encrypted and the
        ciphertext sent. A payload whose text does not fit `encoded_data`
        leaves a length beyond the pad buffer, which the model stops at. */
    method SendData(payload: seq<Byte>, answers: seq<RetCode>, setup: AesSetup) returns (u: UartOutcome)
      requires Settles(answers) && payload != []
      modifies this`sent, this`encrypted
      ensures !EncodingFits(|payload|) ==> u == Overrun && sent == old(sent)
      ensures EncodingFits(|payload|) ==>
        var text := EncodedText(payload);
        var e := Encrypting(crypto, ecdhInitialized, key, Some(text), |text|, setup);
        && (e.NotStarted? ==> u == Aborted(e.out.rc) && sent == old(sent))
        && (e.Encrypted? && e.cipher.Err? ==> u == Aborted(e.cipher.code) && sent == old(sent))
        && (e.Encrypted? && e.cipher.Ok? ==>
              var s := Settled(answers);
              && encrypted == e.cipher.value
              && u == (if Tolerated(s) then Flushed(s) else Aborted(s))
              && sent == old(sent) + (if s == Success then [e.cipher.value] else []))
    {
      if !EncodingFits(|payload|) {
        return Overrun;
      }
      var text := EncodedText(payload);
      FittingTextIsEncryptable(payload);
      var out := EncryptData(Some(text), |text|, setup);
      if out != Returned(Success) {
        return Aborted(out.rc);
      }
      var rc := Transmit(encrypted, answers);
      if !Tolerated(rc) {
        return Aborted(rc);
      }
      u := Flushed(rc);
    }

    /** `uart_event_handle` on `APP_UART_DATA_READY` with byte `b`: append,
        and when the frame is complete send its payload (all but its last
        three bytes) and clear the buffer. The first frame sends the key
        request instead of its payload. */
    method UartDataReady(b: Byte, junk: seq<Byte>, answers: seq<RetCode>, setup: AesSetup) returns (u: UartOutcome)
      requires Valid() && Settles(answers) && |junk| == OutboundRequestSize - 2 - PublicKeySize
      modifies frame, this`index, this`txExchanged, this`sent, this`encrypted
      ensures var buf := old(frame[..index]) + [b];
        && (!FrameComplete(buf, maxDataLen) ==>
              && u == Buffered && Valid() && index == |buf| < maxDataLen
              && frame[..] == old(frame[..])[old(index) := b]
              && txExchanged == old(txExchanged) && sent == old(sent))
        && (FrameComplete(buf, maxDataLen) && !old(txExchanged) ==>
              var s := Settled(answers);
              && sent == old(sent) + (if s == Success then [OutboundRequest(rawPublicKey, junk)] else [])
              && u == (if Tolerated(s) then Flushed(s) else Aborted(s)))
        && (FrameComplete(buf, maxDataLen) && old(txExchanged) ==>
              var payload := Payload(buf);
              && (!EncodingFits(|payload|) ==> u == Overrun && sent == old(sent))
              && (EncodingFits(|payload|) ==>
                    var text := EncodedText(payload);
                    var e := Encrypting(crypto, ecdhInitialized, key, Some(text), |text|, setup);
                    var s := Settled(answers);
                    && (e.NotStarted? ==> u == Aborted(e.out.rc) && sent == old(sent))
                    && (e.Encrypted? && e.cipher.Err? ==> u == Aborted(e.cipher.code) && sent == old(sent))
                    && (e.Encrypted? && e.cipher.Ok? ==>
                          && u == (if Tolerated(s) then Flushed(s) else Aborted(s))
                          && sent == old(sent) + (if s == Success then [e.cipher.value] else []))))
        && (u.Flushed? ==> Valid() && Cleared() && txExchanged)
        && u != Emptied
    {
      frame[index] := b;
      index := index + 1;
      assert frame[..index] == old(frame[..index]) + [b];
      if !(EndsWithSentinel(frame[..index]) || index >= maxDataLen) {
        return Buffered;
      }
      u := Emptied;
      if index > 3 {
        var payload := Payload(frame[..index]);
        if !txExchanged {
          u := SendKeyRequest(junk, answers);
        } else {
          u := SendData(payload, answers, setup);
        }
        if !u.Flushed? {
          return;
        }
      }
      ZeroFrame();
      index := 0;
    }

    // -------------------------------------------------------------------------
    // Connection and GATT events

    /** `gatt_evt_handler`: an ATT MTU update on the current connection sets
        the notification size to the MTU less the opcode and handle. */
    method GattEvent(handle: nat, mtuUpdated: bool, mtu: nat)
      requires Valid() && AttMtuDefault <= mtu <= bufferSize + AttHeaderLength
      modifies this`maxDataLen
      ensures Valid()
      ensures handle == connHandle && mtuUpdated ==> maxDataLen + AttHeaderLength == mtu
      ensures !(handle == connHandle && mtuUpdated) ==> maxDataLen == old(maxDataLen)
    {
      if connHandle == handle && mtuUpdated {
        maxDataLen := mtu - AttHeaderLength;
      }
    }

    /** `BLE_GAP_EVT_CONNECTED`: record the connection handle. */
    method Connected(handle: nat)
      modifies this`connHandle
      ensures connHandle == handle
    {
      connHandle := handle;
    }

    /** `BLE_GAP_EVT_DISCONNECTED`: only the connection handle is cleared; the
        three exchange flags, the shared secret and the frame survive. */
    method Disconnected()
      modifies this`connHandle
      ensures connHandle == ConnHandleInvalid
    {
      connHandle := ConnHandleInvalid;
    }
  }
}
