/** The configuration store of flash_manager.c: the module-level record
    `m_configuration` (a 16-byte device name followed by a 32-byte encryption
    key), its setters and getters, and its persistence as one record of the
    flash data storage (FDS) library. */
module FlashManager {
  import opened Platform

  const ConfigFile: nat := 0x8010
  const ConfigRecKey: nat := 0x7010

  /** `sizeof(device_name)`, `sizeof(encryption_key)`, `sizeof(configuration_t)`. */
  const NameSize: nat := 16
  const KeySize: nat := 32
  const ConfigSize: nat := 48

  const U32: nat := 0x1_0000_0000

  // ---------------------------------------------------------------------------
  // The configuration image

  // `configuration_t` is held as its 48 bytes: the name occupies bytes 0..16
  // and the key bytes 16..48, so that a name copied past its field lands in
  // the key, as it does in memory.

  function NameField(c: seq<Byte>): (n: seq<Byte>)
    requires |c| == ConfigSize
    ensures |n| == NameSize
  {
    c[..NameSize]
  }

  function KeyField(c: seq<Byte>): (k: seq<Byte>)
    requires |c| == ConfigSize
    ensures |k| == KeySize
  {
    c[NameSize..]
  }

  function DefaultKey(): (k: seq<Byte>)
    ensures |k| == KeySize
  {
    Ascii("NORDIC SEMICONDUCTORAES&MAC TEST")
  }

  /** The initial value of `m_configuration`: name "MEGO" padded with zeros
      and the key "NORDIC SEMICONDUCTORAES&MAC TEST". */
  function DefaultConfig(): (c: seq<Byte>)
    ensures |c| == ConfigSize
    ensures CStr(NameField(c)) == Ascii("MEGO") && CStr(c) == Ascii("MEGO")
    ensures KeyField(c) == DefaultKey()
  {
    var name := Ascii("MEGO");
    var c := name + Zeros(12) + DefaultKey();
    assert c == name + (Zeros(12) + DefaultKey());
    assert c[..NameSize] == name + Zeros(12);
    CStrOfTerminated(name, Zeros(12));
    CStrOfTerminated(name, Zeros(12) + DefaultKey());
    c
  }

  /** The image after `strcpy(m_configuration.device_name, name)`: the bytes
      of the string and its terminator from offset 0, the rest unchanged. */
  function WithName(c: seq<Byte>, name: seq<Byte>): (r: seq<Byte>)
    requires |c| == ConfigSize && |CStr(name)| < ConfigSize
    ensures |r| == ConfigSize
    ensures r[..|CStr(name)|] == CStr(name) && r[|CStr(name)|] == 0
    ensures forall i :: |CStr(name)| < i < ConfigSize ==> r[i] == c[i]
  {
    var s := CStr(name);
    s + [0] + c[|s| + 1..]
  }

  /** The image after `memcpy(m_configuration.encryption_key, key, 32)`. */
  function WithKey(c: seq<Byte>, key: seq<Byte>): (r: seq<Byte>)
    requires |c| == ConfigSize && |key| == KeySize
    ensures |r| == ConfigSize
    ensures forall i :: 0 <= i < NameSize ==> r[i] == c[i]
    ensures forall i :: 0 <= i < KeySize ==> r[NameSize + i] == key[i]
  {
    NameField(c) + key
  }

  /** A stored name reads back as the string that was copied. */
  lemma NameRoundTrip(c: seq<Byte>, name: seq<Byte>)
    requires |c| == ConfigSize && |CStr(name)| < ConfigSize
    ensures CStr(WithName(c, name)) == CStr(name)
  {
    var s := CStr(name);
    CStrOfTerminated(s, [0] + c[|s| + 1..]);
    assert WithName(c, name) == s + ([0] + c[|s| + 1..]);
  }

  /** A name of at most 15 characters stays in its field, which reads back
      as the name, and leaves the key alone. */
  lemma ShortNameKeepsKey(c: seq<Byte>, name: seq<Byte>)
    requires |c| == ConfigSize && |CStr(name)| < NameSize
    ensures CStr(NameField(WithName(c, name))) == CStr(name)
    ensures KeyField(WithName(c, name)) == KeyField(c)
  {
    var s := CStr(name);
    var r := WithName(c, name);
    assert NameField(r) == s + ([0] + c[|s| + 1..NameSize]);
    CStrOfTerminated(s, [0] + c[|s| + 1..NameSize]);
  }

  /** A longer name runs on into the key, whose first bytes then hold the
      rest of the name and its terminator. */
  lemma LongNameOverwritesKey(c: seq<Byte>, name: seq<Byte>)
    requires |c| == ConfigSize && NameSize <= |CStr(name)| < ConfigSize
    ensures KeyField(WithName(c, name))[..|CStr(name)| + 1 - NameSize] == CStr(name)[NameSize..] + [0]
    ensures KeyField(WithName(c, name))[|CStr(name)| + 1 - NameSize..] == c[|CStr(name)| + 1..]
  {
    var s := CStr(name);
    var r := WithName(c, name);
    assert KeyField(r) == s[NameSize..] + [0] + c[|s| + 1..];
  }

  /** A stored key reads back as the key, and the name field keeps its bytes. */
  lemma KeyRoundTrip(c: seq<Byte>, key: seq<Byte>)
    requires |c| == ConfigSize && |key| == KeySize
    ensures KeyField(WithKey(c, key)) == key
    ensures NameField(WithKey(c, key)) == NameField(c)
  {
  }

  // ---------------------------------------------------------------------------
  // Record lengths

  /** `(len + 3) / sizeof(uint32_t)` for a `uint32_t` len: the sum is
      computed modulo 2^32. */
  function LengthWords(len: nat): nat
    requires len < U32
  {
    ((len + 3) % U32) / 4
  }

  /** Below 2^32 - 3 the word count is the least w with 4w >= len; from
      2^32 - 3 on, `len + 3` wraps and the count is 0. */
  lemma LengthWordsBound(len: nat)
    requires len < U32
    ensures len < U32 - 3 ==> 4 * LengthWords(len) >= len && 4 * LengthWords(len) < len + 4
    ensures len >= U32 - 3 ==> LengthWords(len) == 0
  {
    if len < U32 - 3 {
      DivMod(len + 3, U32, 0, len + 3);
    } else {
      DivMod(len + 3, U32, 1, len + 3 - U32);
    }
  }

  /** `m_fds_record` spans 12 words: exactly the 48 bytes of the image. */
  lemma ConfigRecordWords()
    ensures LengthWords(ConfigSize) == 12 && 4 * LengthWords(ConfigSize) == ConfigSize
  {
    DivMod(ConfigSize + 3, U32, 0, ConfigSize + 3);
  }

  // ---------------------------------------------------------------------------
  // The record store

  datatype RecordId = RecordId(file: nat, key: nat)

  const ConfigId: RecordId := RecordId(ConfigFile, ConfigRecKey)

  /** A record in flash: its file and key, and its data words as bytes. */
  datatype Record = Record(id: RecordId, data: seq<Byte>)

  /** `fds_record_find`: the first record with the given file and key. */
  function FindRecord(rs: seq<Record>, id: RecordId): (r: Option<nat>)
    ensures r.Some? ==> r.value < |rs| && rs[r.value].id == id
    ensures r.Some? ==> forall j :: 0 <= j < r.value ==> rs[j].id != id
    ensures r.None? ==> forall j :: 0 <= j < |rs| ==> rs[j].id != id
  {
    if rs == [] then None
    else if rs[0].id == id then Some(0)
    else match FindRecord(rs[1..], id)
      case None => None
      case Some(k) => Some(k + 1)
  }

  /** `fds_record_update`: the new record is written and the old one is
      deleted. */
  function Replaced(rs: seq<Record>, i: nat, r: Record): (rs': seq<Record>)
    requires i < |rs|
    ensures |rs'| == |rs| && rs'[|rs| - 1] == r
    ensures multiset(rs') == multiset(rs) - multiset{rs[i]} + multiset{r}
  {
    assert rs == rs[..i] + [rs[i]] + rs[i + 1..];
    rs[..i] + rs[i + 1..] + [r]
  }

  /** No record after position i has the id of the record at i. */
  ghost predicate LastWithId(rs: seq<Record>, i: nat)
    requires i < |rs|
  {
    forall j :: i < j < |rs| ==> rs[j].id != rs[i].id
  }

  /** After an update of the only record with its id, that id finds the new
      record, and every other record stays. */
  lemma {:induction false} FindReplaced(rs: seq<Record>, i: nat, r: Record)
    requires FindRecord(rs, r.id) == Some(i) && LastWithId(rs, i)
    ensures var rs' := Replaced(rs, i, r);
      FindRecord(rs', r.id) == Some(|rs| - 1) && rs'[|rs| - 1] == r
    ensures forall j :: 0 <= j < |rs| && j != i ==> rs[j] in Replaced(rs, i, r)
  {
    var rs' := Replaced(rs, i, r);
    assert rs'[|rs| - 1] == r;
    forall j | 0 <= j < |rs| - 1 ensures rs'[j].id != r.id {
      if j < i {
        assert rs'[j] == rs[j];
      } else {
        assert rs'[j] == rs[j + 1];
      }
    }
    forall j | 0 <= j < |rs| && j != i ensures rs[j] in rs' {
      if j < i {
        assert rs'[j] == rs[j];
      } else {
        assert rs'[j - 1] == rs[j];
      }
    }
  }

  /** At most one record carries the configuration id (FDS itself allows
      several). */
  ghost predicate SingleConfig(rs: seq<Record>)
  {
    forall i, j :: 0 <= i < j < |rs| && rs[i].id == ConfigId ==> rs[j].id != ConfigId
  }

  /** Every record under the configuration id holds a whole image. */
  ghost predicate ConfigRecordsWhole(rs: seq<Record>)
  {
    forall j :: 0 <= j < |rs| && rs[j].id == ConfigId ==> |rs[j].data| >= ConfigSize
  }

  /** The configuration the store holds: the first 48 bytes of the first
      configuration record, or none. */
  function StoredConfig(rs: seq<Record>): (c: Option<seq<Byte>>)
    requires ConfigRecordsWhole(rs)
    ensures c.Some? ==> |c.value| == ConfigSize
    ensures c.None? <==> FindRecord(rs, ConfigId).None?
  {
    match FindRecord(rs, ConfigId)
    case None => None
    case Some(i) => Some(rs[i].data[..ConfigSize])
  }

  // ---------------------------------------------------------------------------
  // The module state and its operations

  /** `m_configuration` and the flash record store it is saved in. */
  class Manager {
    var config: seq<Byte>
    var records: seq<Record>

    ghost predicate Valid()
      reads this
    {
      |config| == ConfigSize && ConfigRecordsWhole(records)
    }

    /** Boot: the image holds its initial value; flash holds what it holds. */
    constructor (flash: seq<Record>)
      requires ConfigRecordsWhole(flash)
      ensures Valid() && config == DefaultConfig() && records == flash
    {
      config := DefaultConfig();
      records := flash;
    }

    /** `flash_mgr_get_device_name`: the string at the start of the image
        (which runs on into the key when the name field holds no NUL). */
    function DeviceName(): (name: seq<Byte>)
      reads this
      requires Valid()
      ensures name == CStr(config)
      ensures |name| < NameSize ==> name == CStr(NameField(config))
    {
      if |CStr(config)| < NameSize then
        CStrOfTerminated(CStr(config), config[|CStr(config)|..NameSize]);
        assert NameField(config) == CStr(config) + config[|CStr(config)|..NameSize];
        CStr(config)
      else
        CStr(config)
    }

    /** `flash_mgr_get_encryption_key`: the 32 key bytes. */
    function EncryptionKey(): (key: seq<Byte>)
      reads this
      requires Valid()
      ensures key == KeyField(config) && |key| == KeySize
    {
      config[NameSize..]
    }

    /** `flash_mgr_set_device_name(name)`. A name longer than 15 characters
        is only reported and is copied all the same, overrunning the name
        field into the key; a string that would run past the whole image is
        outside the model. */
    method SetDeviceName(name: seq<Byte>) returns (rc: RetCode)
      requires Valid() && |CStr(name)| < ConfigSize
      modifies this
      ensures Valid() && rc == Success
      ensures config == WithName(old(config), name) && records == old(records)
      ensures DeviceName() == CStr(name)
      ensures |CStr(name)| < NameSize ==> EncryptionKey() == old(EncryptionKey())
    {
      NameRoundTrip(config, name);
      if |CStr(name)| < NameSize {
        ShortNameKeepsKey(config, name);
      }
      config := WithName(config, name);
      rc := Success;
    }

    /** `flash_mgr_set_encryption_key(key, len)`: only a length of exactly 32
        is accepted. */
    method SetEncryptionKey(key: seq<Byte>, len: int) returns (rc: RetCode)
      requires Valid() && (len == KeySize ==> |key| >= KeySize)
      modifies this
      ensures Valid() && records == old(records)
      ensures len != KeySize ==> rc == ErrInvalidLength && config == old(config)
      ensures len == KeySize ==> rc == Success && config == WithKey(old(config), key[..KeySize])
      ensures len == KeySize ==> EncryptionKey() == key[..KeySize] && NameField(config) == NameField(old(config))
    {
      if len != KeySize {
        return ErrInvalidLength;
      }
      KeyRoundTrip(config, key[..KeySize]);
      config := WithKey(config, key[..KeySize]);
      rc := Success;
    }

    /** `flash_mgr_flash_mgr_init`. When the configuration record exists, the
        image is read from it (a failed open or close is fatal). Otherwise the
        image is written as a new record: no space in flash is returned, any
        other failure is fatal. `openRc`, `closeRc` and `writeRc` are what the
        FDS calls return. */
    method Init(openRc: RetCode, closeRc: RetCode, writeRc: RetCode) returns (out: Outcome)
      requires Valid()
      modifies this
      ensures Valid()
      ensures StoredConfig(old(records)).Some? ==>
        && records == old(records)
        && (openRc != Success ==> out == Fatal(openRc) && config == old(config))
        && (openRc == Success ==> config == StoredConfig(old(records)).value)
        && (openRc == Success && closeRc != Success ==> out == Fatal(closeRc))
        && (openRc == Success && closeRc == Success ==> out == Returned(Success))
      ensures StoredConfig(old(records)).None? ==>
        && config == old(config)
        && (writeRc == Success ==> out == Returned(Success) && records == old(records) + [Record(ConfigId, config)])
        && (writeRc == FdsErrNoSpaceInFlash ==> out == Returned(writeRc) && records == old(records))
        && (writeRc != Success && writeRc != FdsErrNoSpaceInFlash ==> out == Fatal(writeRc) && records == old(records))
      ensures out == Returned(Success) ==> StoredConfig(records) == Some(config)
    {
      var found := FindRecord(records, ConfigId);
      if found.Some? {
        if openRc != Success {
          return Fatal(openRc);
        }
        config := records[found.value].data[..ConfigSize];
        assert StoredConfig(records) == Some(config);
        if closeRc != Success {
          return Fatal(closeRc);
        }
        return Returned(Success);
      }
      if writeRc == Success {
        ConfigRecordWords();
        AppendedFindsOld(records, Record(ConfigId, config));
        records := records + [Record(ConfigId, config)];
        assert records[|records| - 1].data[..ConfigSize] == config;
        return Returned(Success);
      } else if writeRc == FdsErrNoSpaceInFlash {
        return Returned(writeRc);
      }
      return Fatal(writeRc);
    }

    /** `flash_mgr_save`: an existing configuration record is updated to the
        image (`updateRc` is what `fds_record_update` returns); without one,
        the find error is returned and flash is left alone. */
    method Save(updateRc: RetCode) returns (rc: RetCode)
      requires Valid()
      modifies this
      ensures Valid() && config == old(config)
      ensures StoredConfig(old(records)).None? ==> rc == FdsErrNotFound && records == old(records)
      ensures StoredConfig(old(records)).Some? ==> rc == updateRc
      ensures StoredConfig(old(records)).Some? && rc == Success ==>
        records == Replaced(old(records), FindRecord(old(records), ConfigId).value, Record(ConfigId, config))
      ensures StoredConfig(old(records)).Some? && rc != Success ==> records == old(records)
      ensures rc == Success && SingleConfig(old(records)) ==> StoredConfig(records) == Some(config)
    {
      var found := FindRecord(records, ConfigId);
      if found.None? {
        return FdsErrNotFound;
      }
      rc := updateRc;
      if rc == Success {
        var r := Record(ConfigId, config);
        if SingleConfig(records) {
          assert LastWithId(records, found.value);
          FindReplaced(records, found.value, r);
          assert Replaced(records, found.value, r)[|records| - 1].data[..ConfigSize] == config;
        }
        ReplacedWhole(records, found.value, r);
        records := Replaced(records, found.value, r);
      }
    }

    /** `flash_mgr_write_record(fid, key, data, len)`: a new record of
        `LengthWords(len)` words taken from data (`writeRc` is what
        `fds_record_write` returns). */
    method WriteRecord(fid: nat, key: nat, data: seq<Byte>, len: nat, writeRc: RetCode) returns (rc: RetCode)
      requires Valid() && len < U32 && 4 * LengthWords(len) <= |data|
      requires RecordId(fid, key) == ConfigId ==> 4 * LengthWords(len) >= ConfigSize
      modifies this
      ensures Valid() && config == old(config) && rc == writeRc
      ensures rc == Success ==> records == old(records) + [Record(RecordId(fid, key), data[..4 * LengthWords(len)])]
      ensures rc != Success ==> records == old(records)
    {
      rc := writeRc;
      if rc == Success {
        records := records + [Record(RecordId(fid, key), data[..4 * LengthWords(len)])];
      }
    }
  }

  /** Appending a record keeps the first match of every id that already has
      one, and a new id finds the appended record. */
  lemma {:induction false} AppendedFindsOld(rs: seq<Record>, r: Record)
    ensures FindRecord(rs, r.id).None? ==> FindRecord(rs + [r], r.id) == Some(|rs|)
    ensures FindRecord(rs, r.id).Some? ==> FindRecord(rs + [r], r.id) == FindRecord(rs, r.id)
  {
    var f := FindRecord(rs + [r], r.id);
    assert (rs + [r])[|rs|] == r;
    if FindRecord(rs, r.id).Some? {
      var i := FindRecord(rs, r.id).value;
      assert (rs + [r])[i] == rs[i];
      forall j | 0 <= j < i ensures (rs + [r])[j].id != r.id {
        assert (rs + [r])[j] == rs[j];
      }
    } else {
      forall j | 0 <= j < |rs| ensures (rs + [r])[j].id != r.id {
        assert (rs + [r])[j] == rs[j];
      }
    }
  }

  lemma ReplacedWhole(rs: seq<Record>, i: nat, r: Record)
    requires i < |rs| && ConfigRecordsWhole(rs) && |r.data| >= ConfigSize
    ensures ConfigRecordsWhole(Replaced(rs, i, r))
  {
    var rs' := Replaced(rs, i, r);
    forall j | 0 <= j < |rs'| && rs'[j].id == ConfigId ensures |rs'[j].data| >= ConfigSize {
      if j < i {
        assert rs'[j] == rs[j];
      } else if j < |rs| - 1 {
        assert rs'[j] == rs[j + 1];
      }
    }
  }
}
