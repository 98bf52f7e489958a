# mego_keys bridge firmware, modelled in Dafny

The firmware runs on an nRF52 and bridges a BLE Nordic UART Service (NUS) link
to a wired UART. Both directions are encrypted with AES-256-CBC. The key for
the BLE-to-UART direction comes from an ECDH (secp192r1) handshake that runs
over the same link. The model covers five parts:

- `platform.dfy` (module `Platform`): bytes, the `ret_code_t` values the code
  returns, a `Result` whose error can never be `NRF_SUCCESS`, the `Outcome` of
  a call that may end in `APP_ERROR_CHECK` (a device reset), and C strings.
- `base64.dfy` (module `Base64`): `base64_encode` and `base64_decode`. The
  decoder works on a 32-bit accumulator, as the C does. Both are proved against
  a specification of the encoding, including the round trip.
- `flash_manager.dfy` (module `FlashManager`): the 48-byte
  `configuration_t` record (name then key, laid out flat), the FDS record log
  as a sequence of records, and the setters, getters, `init`, `save` and
  `write_record` as methods of a `Manager` class.
- `at_command_parser.dfy` (module `AtCommands`): the AT command chain. It is
  a pure `Parse` that tries the prefixes in source order, plus an `Execute`
  method that applies the command to the store and returns the reply lines.
- `link.dfy` (module `Link`) and `bridge.dfy` (module `Bridge`): `main.c`.
  `Link` holds the pure rules: key message formats, the classifier of
  `handle_key_exchange`, AES padding, the trim of the decrypted text, the UART
  frame rule and the buffer arithmetic. `Bridge.Device` is a class whose fields
  are the static variables of `main.c`. Its methods are the handshake, the
  ECDH helpers, `encrypt_data`, `decrypt_data`, the NUS receive handler, the
  UART byte handler and the GAP/GATT handlers.

The ECDH and AES primitives are modelled as opaque functions held in a
`Crypto` value. So are the outcomes of the AES context set-up. The send
results of the BLE transport are parameters: `answers[i]` is the answer to
attempt `i` of a `do … while (NRF_ERROR_RESOURCES)` loop.

Behaviour of the code that the model keeps as written:

- After answering a key request, `handle_key_exchange` returns success on a
  successful send without setting its own flag (`main.c:405-416`).
- The key request the UART side sends is `00 01` + public key + 16
  uninitialised bytes (`main.c:808-812`). The receive side classifies it as
  not a key message (`Link.OutboundRequestNotRecognised`).
- Data messages are decrypted whole, type byte included. A `03` byte in front
  of whole cipher blocks resets the device (`Bridge.TypedDataMessageHalts`).
- Encryption uses `m_key`. Decryption uses the 24-byte ECDH secret as an
  AES-256 key. Before any handshake that secret is all zeros.
- The compiled-in `m_key` starts with `A` where the flash default key starts
  with `N` (`Link.InitialKeyNotDefault`). `main` overwrites it from flash.
- A frame closed by the size limit also loses its last three bytes
  (`main.c:804`). A sentinel on its own does not close a frame.
- `AT+NAME=` copies up to 19 characters into the 16-byte name field. A longer
  name runs on into the encryption key (`FlashManager.LongNameOverwritesKey`).
- The handshake flags are not reset on disconnect.

## Model

| member | source | states |
|---|---|---|
| Base64.SextetOf | pca10040e_nrf52805/s112/ses/base64.c:6 | a character has a value exactly when it is in the table, and the table character at that value is that character |
| Base64.AlphabetInverse | pca10040e_nrf52805/s112/ses/base64.c:6 | every one of the 64 values has exactly one table character |
| Base64.TableSpelledOut | pca10040e_nrf52805/s112/ses/base64.c:6 | the table is A-Z, a-z, 0-9, `+`, `/` in that order |
| Base64.IndexOfByRanges | pca10040e_nrf52805/s112/ses/base64.c:43-46 | the `strchr` position in the table is the character's value, and the lookup fails exactly for characters outside the alphabet |
| Base64.TripleSextets | pca10040e_nrf52805/s112/ses/base64.c:16-21 | the shifts and `0x3F` masks of the packed 24-bit group give its four 6-bit pieces |
| Base64.Encoded | pca10040e_nrf52805/s112/ses/base64.c:9-24 | the text written before the NUL is four characters per group of three input bytes, 4·ceil(n/3) in all; it also stands for `mbedtls_base64_encode` on the send path |
| Base64.EncodedAt | pca10040e_nrf52805/s112/ses/base64.c:11-22 | each output character is the table character of its sextet, or `=` once the input bytes are used up |
| Base64.EncodedShape | pca10040e_nrf52805/s112/ses/base64.c:18-21 | the encoding is ceil(8n/6) alphabet characters followed only by `=` padding, 4·ceil(n/3) characters in all |
| Base64.Counts | pca10040e_nrf52805/s112/ses/base64.c:20-21 | alphabet characters plus padding make 4·ceil(n/3), and the alphabet characters carry exactly n bytes |
| Base64.GroupChars | pca10040e_nrf52805/s112/ses/base64.c:12-21 | one pass of the loop body yields the four characters of group k |
| Base64.EncodeOneGroup | pca10040e_nrf52805/s112/ses/base64.c:18-21 | the loop writes group k after the groups before it and touches nothing further |
| Base64.Encode | pca10040e_nrf52805/s112/ses/base64.c:9-24 | the output holds the encoding, then a NUL, and the rest of the buffer is unchanged |
| Base64.Terminate | pca10040e_nrf52805/s112/ses/base64.c:23 | the NUL goes at position j and nothing else changes |
| Base64.PadStart | pca10040e_nrf52805/s112/ses/base64.c:40 | decoding stops at the first `=`: no `=` before that position |
| Base64.Decoded | pca10040e_nrf52805/s112/ses/base64.c:27-56 | a successful decode yields floor(6k/8) bytes for the k characters before the first `=` |
| Base64.OutsideAlphabet | pca10040e_nrf52805/s112/ses/base64.c:43-44 | a character outside the alphabet before the first `=` makes decoding fail |
| Base64.DecodedFromIndices | pca10040e_nrf52805/s112/ses/base64.c:36-53 | once the sextets before the first `=` are known, the decoding is determined by them |
| Base64.LoopCounters | pca10040e_nrf52805/s112/ses/base64.c:47-51 | after i sextets, `buffer_len` is 6i mod 8, and a byte is output exactly when i is not a multiple of 4 |
| Base64.DecodedBytesStable | pca10040e_nrf52805/s112/ses/base64.c:49-51 | a further sextet leaves the bytes already output unchanged |
| Base64.Feed | pca10040e_nrf52805/s112/ses/base64.c:46-52 | shifting a sextet into the 32-bit accumulator keeps the accumulator invariant, and every byte emitted is the next decoded byte |
| Base64.Decode | pca10040e_nrf52805/s112/ses/base64.c:27-56 | returns 0 exactly when the text decodes, with the decoded bytes in the output; a length error returns -1 and leaves the length and buffer alone; an invalid character returns -1 with length 0 |
| Base64.RoundTrip | pca10040e_nrf52805/s112/ses/base64.c:59-75 | decoding an encoding gives back the original bytes |
| FlashManager.DefaultConfig | pca10040e_nrf52805/s112/ses/flash_manager.c:15-21 | the default record names the device "MEGO" and holds the default key |
| FlashManager.WithName | pca10040e_nrf52805/s112/ses/flash_manager.c:123 | the `strcpy` puts the string and its terminator at the start of the 48-byte record and leaves every byte after the terminator unchanged |
| FlashManager.WithKey | pca10040e_nrf52805/s112/ses/flash_manager.c:140 | the `memcpy` puts the 32 key bytes after the 16-byte name field and leaves the name field unchanged |
| FlashManager.NameRoundTrip | pca10040e_nrf52805/s112/ses/flash_manager.c:123 | after the `strcpy`, reading the name back as a C string gives the name written |
| FlashManager.ShortNameKeepsKey | pca10040e_nrf52805/s112/ses/flash_manager.c:118-123 | a name shorter than 16 bytes lands in the name field and leaves the key unchanged |
| FlashManager.LongNameOverwritesKey | pca10040e_nrf52805/s112/ses/flash_manager.c:118-123 | a name of 16 bytes or more spills its tail and terminator into the first key bytes and leaves the rest of the key alone |
| FlashManager.KeyRoundTrip | pca10040e_nrf52805/s112/ses/flash_manager.c:140 | after setting the key, the key reads back as written and the name field is unchanged |
| FlashManager.LengthWordsBound | pca10040e_nrf52805/s112/ses/flash_manager.c:91 | `(len + 3) / 4` in 32 bits is the number of words that covers len, except that it wraps to 0 for the last three lengths |
| FlashManager.ConfigRecordWords | pca10040e_nrf52805/s112/ses/flash_manager.c:29 | the 48-byte configuration is exactly 12 words |
| FlashManager.FindRecord | pca10040e_nrf52805/s112/ses/flash_manager.c:42 | finds the first record with the id, or reports that none has it |
| FlashManager.Replaced | pca10040e_nrf52805/s112/ses/flash_manager.c:178 | `fds_record_update` deletes the old record and writes the new one at the end of the log: same length, and the multiset of records loses the old one and gains the new one |
| FlashManager.FindReplaced | pca10040e_nrf52805/s112/ses/flash_manager.c:174-178 | an in-place update of the last record with an id is then found under that id, and the other records stay |
| FlashManager.AppendedFindsOld | pca10040e_nrf52805/s112/ses/flash_manager.c:67-75 | writing a new record leaves an existing one as the one found, and otherwise the new one is found |
| FlashManager.ReplacedWhole | pca10040e_nrf52805/s112/ses/flash_manager.c:178 | updating with a full-size record keeps every configuration record full-size |
| FlashManager.StoredConfig | pca10040e_nrf52805/s112/ses/flash_manager.c:42-54 | a stored configuration is 48 bytes, and there is none exactly when no record has the configuration id |
| FlashManager.Manager.constructor | pca10040e_nrf52805/s112/ses/flash_manager.c:15-21 | starts from the default configuration over the given flash contents |
| FlashManager.Manager.DeviceName | pca10040e_nrf52805/s112/ses/flash_manager.c:145-148 | the name is the C string at the start of the record, so a long name reads through into the key |
| FlashManager.Manager.EncryptionKey | pca10040e_nrf52805/s112/ses/flash_manager.c:150-164 | the key is the 32 bytes after the name field |
| FlashManager.Manager.SetDeviceName | pca10040e_nrf52805/s112/ses/flash_manager.c:114-128 | always succeeds; the name reads back as written, and a name shorter than 16 bytes keeps the key |
| FlashManager.Manager.SetEncryptionKey | pca10040e_nrf52805/s112/ses/flash_manager.c:130-143 | a length other than 32 is refused with `NRF_ERROR_INVALID_LENGTH` and changes nothing; otherwise the key is replaced and the name kept |
| FlashManager.Manager.Init | pca10040e_nrf52805/s112/ses/flash_manager.c:32-79 | a stored configuration is loaded, and a failed open or close resets the device; otherwise the image is written as a new record, no space in flash is returned and any other write failure resets; on success the flash holds the configuration in memory |
| FlashManager.Manager.Save | pca10040e_nrf52805/s112/ses/flash_manager.c:166-186 | with no stored configuration returns `FDS_ERR_NOT_FOUND` and writes nothing; otherwise returns the update's result, and a successful update stores the configuration in memory |
| FlashManager.Manager.WriteRecord | pca10040e_nrf52805/s112/ses/flash_manager.c:81-100 | a successful write appends a record of `(len + 3) / 4` words; a failed one leaves flash unchanged |
| AtCommands.Param | pca10040e_nrf52805/s112/ses/at_command_parser.c:26-27 | the zeroed buffer filled by `strncpy(buf, arg, size - 1)` holds at most size - 1 characters of the argument followed by zeros up to `size` bytes, so it stays terminated |
| AtCommands.Parse | pca10040e_nrf52805/s112/ses/at_command_parser.c:23-236 | the command chosen has a prefix the string starts with, and a command with a parameter carries the text after that prefix |
| AtCommands.FirstMatch | pca10040e_nrf52805/s112/ses/at_command_parser.c:23-236 | the first prefix, in the order tested, that the command starts with |
| AtCommands.FirstMatchStep | pca10040e_nrf52805/s112/ses/at_command_parser.c:23-236 | one `else if` step: a matching prefix is taken, otherwise the search moves on to the next |
| AtCommands.ParseRank | pca10040e_nrf52805/s112/ses/at_command_parser.c:23-236 | the position of the command chosen is the first position whose prefix matches |
| AtCommands.ParseIsFirstMatch | pca10040e_nrf52805/s112/ses/at_command_parser.c:23-236 | the command chosen has a matching prefix, no earlier prefix in source order matches, and it is unknown exactly when no prefix matches |
| AtCommands.NameArgument | pca10040e_nrf52805/s112/ses/at_command_parser.c:23-27 | `AT+NAME=` takes the up to 19 characters after its 8-byte prefix as the name |
| AtCommands.Execute | pca10040e_nrf52805/s112/ses/at_command_parser.c:20-237 | per command: the change to the store (`AT+SAVE=1` with a successful update replaces the stored configuration record by the configuration in memory), the reply lines, the return value (none on the bare return of `AT+SAVE=1`), and whether the device resets |
| Link.InitialKeyNotDefault | main.c:162-164 | the compiled-in `m_key` differs from the flash default key in its first byte only |
| Link.SetupOutcome | main.c:233-249 | `crypt_init` returns only when all three set-up calls succeed; otherwise the first failure resets the device |
| Link.Classify | main.c:358-440 | an empty message, a wrong length, a request or response carrying the 48 bytes after the type byte, or not a key message, each in exactly its case |
| Link.RejectCode | main.c:373-389 | a refused message never gets success, and gets `NRF_ERROR_INVALID_DATA` exactly when it is not a key message |
| Link.KeyMessagesRoundTrip | main.c:398-402 | a request or response built from a key is recognised as such and gives back that key |
| Link.OutboundRequest | main.c:808-812 | the UART-side key request is 66 bytes: `00 01`, then the public key |
| Link.OutboundRequestNotRecognised | main.c:808-812 | the receive side classifies that request as not a key message, and it equals no inbound request |
| Link.Settled | main.c:405-413 | the retry loop ends on an answer other than `NRF_ERROR_RESOURCES` taken from the answers |
| Link.SettledIsFirst | main.c:405-413 | the loop ends on the first answer that is not `NRF_ERROR_RESOURCES` |
| Link.PaddedLength | main.c:1112 | `((len / 16) + 1) * 16` is a multiple of 16 above len, at most a full block more |
| Link.PaddedLengthLeast | main.c:1112 | it is the least multiple of 16 above len |
| Link.Padded | main.c:1107-1112 | the text given to the cipher is the data followed by `0x04` pad bytes up to the padded length |
| Link.Trimmed | main.c:477 | the trim is a prefix whose last byte is at least `' '`, and every byte dropped is below `' '` |
| Link.TrimmedUnique | main.c:477 | any prefix with those properties is the trim |
| Link.TrimIdempotent | main.c:477 | trimming twice is trimming once |
| Link.TrimStep | main.c:477 | one loop step drops a control byte without changing the result |
| Link.FrameComplete | main.c:796-800 | a frame that closes before the size limit ends with the A5 A6 A7 sentinel after at least one byte; a frame that stays open is under the limit |
| Link.Payload | main.c:804 | a closed frame loses its last three bytes, which are the sentinel when it closed on one |
| Link.LoneSentinelKeepsFrameOpen | main.c:796-800 | a sentinel with nothing before it does not close a frame |
| Link.EncodedText | main.c:804 | the text to encrypt is the base64 encoding of the payload, 4·ceil(n/3) bytes |
| Link.EncodingFitsExactly | main.c:804 | the encoding and its terminator fit the 256-byte buffer exactly for payloads of at most 189 bytes |
| Link.FittingTextIsEncryptable | main.c:1107-1112 | such a text is shorter than the pad buffer and its padded length fits in it |
| Bridge.Decrypting | main.c:1127-1163 | the guards in source order: not ready gives `NRF_ERROR_INVALID_STATE`; then a null pointer or non-positive length gives `NRF_ERROR_INVALID_PARAM`; then a non-block length gives `NRF_ERROR_INVALID_LENGTH`; then a failing set-up gives its reset; it reaches the cipher exactly when all pass |
| Bridge.Encrypting | main.c:1085-1124 | the guards in source order (`NRF_ERROR_INVALID_STATE`, then `NRF_ERROR_INVALID_PARAM`, then the set-up's reset); it reaches the cipher exactly when ready, with data and with the set-up succeeding, and encrypts the padded text under `m_key` |
| Bridge.Delivered | main.c:472-477 | any failure, a guard's or the cipher's, resets the device with that failure's code; otherwise the trimmed plaintext is passed on |
| Bridge.TypedDataMessageHalts | main.c:472-474 | a `03` type byte followed by whole cipher blocks resets the device with `NRF_ERROR_INVALID_LENGTH` |
| Bridge.KeyExchange | main.c:358-442 | the handshake flag is never cleared and is only set by a successful call; the one success that leaves it clear is a request whose reply was sent; the secret changes only to the agreement with the key a message carries; at most our key is sent, in reply to a request; a message refused before crypto changes nothing and falls through with `NRF_ERROR_INVALID_DATA` exactly when it is not a key message |
| Bridge.PadBlock | main.c:1107-1109 | the fill-then-copy loops leave the data followed by `0x04` bytes in a fresh 256-byte buffer |
| Bridge.Device.constructor | main.c:143-182 | the initial static state: no connection, default MTU, zero secret, compiled-in key, flags clear |
| Bridge.Device.LoadKey | main.c:1194 | `m_key` becomes the key in the flash store |
| Bridge.Device.EcdhInit | main.c:252-294 | does nothing once initialised; otherwise returns the first failing step, and is initialised exactly on success |
| Bridge.Device.EcdhCleanup | main.c:348-355 | afterwards ECDH is not initialised |
| Bridge.Device.ComputeSharedSecret | main.c:297-345 | invalid state, null key and wrong key size are refused in that order; otherwise the secret becomes the agreement's result, or stays on its error |
| Bridge.Device.Transmit | main.c:405-413 | returns the settling answer, and the message counts as sent exactly on success |
| Bridge.Device.HandleKeyExchange | main.c:358-442 | return code, flag, secret and sent notifications are those of `KeyExchange`; each case: null, already exchanged, refused before crypto, agreement failure, response accepted, request answered; on a request the flag is set only on a tolerated failure of the reply |
| Bridge.Device.EncryptData | main.c:1085-1124 | the result and `encrypted_data` are those of the encryption specification |
| Bridge.Device.DecryptData | main.c:1127-1163 | the result and `decrypted_data` are those of the decryption specification |
| Bridge.Device.TrimControlTail | main.c:477 | the decrypted length becomes that of the trim of the decrypted text |
| Bridge.Device.NusDataHandler | main.c:451-477 | until its flag is set, the handshake's return code, flag, secret and sent notifications are those of `KeyExchange`, a success sets the flag, and only `NRF_ERROR_INVALID_DATA` goes on to decryption; then a failure resets the device and a success forwards the trimmed text; a consumed or dropped message leaves the decryption buffer unchanged |
| Bridge.Device.ZeroFrame | main.c:846 | the frame buffer is all zeros |
| Bridge.Device.SendKeyRequest | main.c:806-826 | sends the 66-byte request; the flag is set unless the device resets |
| Bridge.Device.SendData | main.c:804-843 | encodes the payload, encrypts it and sends the ciphertext; stops when the text would overrun the buffer |
| Bridge.Device.UartDataReady | main.c:783-848 | appends the byte; an open frame only grows; a closed frame sends the key request first and encrypted payloads after, then the buffer is cleared |
| Bridge.Device.GattEvent | main.c:717-723 | an MTU update on our connection sets the data length to MTU - 3; anything else changes nothing |
| Bridge.Device.Connected | main.c:632-635 | records the connection handle |
| Bridge.Device.Disconnected | main.c:641-644 | clears the connection handle only |

## Left out

- ECDH key generation, agreement and AES-CBC are opaque functions. The model
  says which inputs each call receives and where its result goes, not what it
  computes. A failing library call that writes part of an output buffer is
  not modelled.
- The `crypt_init` contexts and IV are left out. Only the three return codes
  and the key `nrf_crypto_aes_key_set` receives are modelled.
- The receive path after the trim (`main.c:479-491`) is not modelled:
  `mbedtls_base64_decode` into `decoded_data` and the `app_uart_put` loop. The
  model ends with the trimmed text.
- `mbedtls_base64_encode` on the send path is modelled by `Base64.Encoded`, the
  encoding both implement. mbedtls's own return code is not modelled.
- Bridge.Device.SendData: for a payload over 189 bytes, `mbedtls_base64_encode`
  does not fit `encoded_data`. It writes nothing and reports the length it
  would need, 4·ceil(n/3) + 1, and the code ignores its error. `encrypt_data`
  then copies that many bytes into its 256-byte pad buffer, which overruns it.
  That is undefined behaviour, so the model returns `Overrun` and does not say
  what the device does.
- Bridge.Device.Transmit: the model needs the transport to stop answering
  `NRF_ERROR_RESOURCES` eventually. A transport that never does would keep the
  C loop spinning for ever.
- 16-bit lengths (`uint16_t length`, `m_ble_nus_max_data_len`) are unbounded
  integers. No lengths reach the 16-bit limit, so there is no wrap-around to
  model.
- Bridge.Device.GattEvent: requires the new MTU to be at most the buffer size
  plus 3. That is the largest MTU the stack is configured to negotiate
  (`NRF_SDH_BLE_GATT_MAX_MTU_SIZE`, set at `main.c:734`; the SDK defines
  `BLE_NUS_MAX_DATA_LEN` as that less 3), so a notification never outgrows
  `data_array`.
  It is a configuration bound, not a wrap-around bound.
- BLE stack set-up, advertising, connection parameters, the queued-write and
  LED/button modules, timers, power management and logging are out of scope.
  So are `main`'s boot-time `APP_ERROR_CHECK`s and every NUS event other than
  received data.
- UART communication and FIFO errors (`main.c:851-857`) go to the error
  handler and are left out.
- The flash driver is synchronous. The asynchronous completion events of FDS
  are not modelled, and neither is garbage collection.
- FlashManager.Manager.Save: after a successful update, the configuration is
  proved to be the one found only when the store held a single configuration
  record.
- `flash_mgr_read_record` and `flash_mgr_reset` are stubs that return success.
  They are left out.
- FlashManager.Manager.WriteRecord: a record written under the configuration
  id must be at least 48 bytes. `flash_mgr_write_record` accepts any length.
  After a shorter one, `init`'s `memcpy` of 48 bytes would read flash past the
  record, and the model has no contents for that flash.
- FlashManager.Manager.constructor: for the same reason it requires every
  configuration record already in flash to be at least 48 bytes.
- FlashManager.Manager.SetDeviceName: names of 48 bytes or more, which would
  write past the record, are excluded by its precondition.
- `AT+NAME?` writes its terminator at `dev_name[name_len]`
  (`at_command_parser.c:51`). That is out of bounds only when the name read
  back is 20 bytes long. The model does not capture that write.
- AtCommands.Execute: `AT+NAME=` also passes the name to
  `sd_ble_gap_device_name_set` (`at_command_parser.c:36`), which the model
  leaves out. `AT+NAME?` replies with what `sd_ble_gap_device_name_get`
  returns, a parameter of the model. So the GAP name is not tied to the stored
  name.
- `AT+UART?` formats its reply with `%s` from a non-string argument
  (`at_command_parser.c:199`). The model replies with a fixed placeholder line.
- The `len` parameter of `at_command_parse` is never read and is left out.
- Printing, `NRF_LOG`, `test_base64`'s `printf` and `fds_err_str` are left
  out. The round trip `test_base64` exercises is `Base64.RoundTrip`.
