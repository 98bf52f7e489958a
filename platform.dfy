/** Types shared by every part of the firmware model: bytes, the SDK's return
    codes, a result wrapper for foreign calls, and the C string conventions
    (NUL termination, strncpy into a zeroed buffer) that the sources rely on. */
module Platform {

  /** An unsigned 8-bit value (`uint8_t`, and `char` as the ARM compiler treats it). */
  type Byte = b: int | 0 <= b < 256

  /** The return codes the modelled code produces or inspects. Codes that only
      pass through from a foreign library (crypto, SoftDevice, flash driver)
      are carried as `Foreign`. */
  datatype RetCode =
    | Success               // NRF_SUCCESS
    | ErrInvalidState       // NRF_ERROR_INVALID_STATE
    | ErrNull               // NRF_ERROR_NULL
    | ErrInvalidLength      // NRF_ERROR_INVALID_LENGTH
    | ErrInvalidData        // NRF_ERROR_INVALID_DATA
    | ErrInvalidParam       // NRF_ERROR_INVALID_PARAM
    | ErrResources          // NRF_ERROR_RESOURCES
    | ErrNotFound           // NRF_ERROR_NOT_FOUND
    | FdsErrNotFound        // FDS_ERR_NOT_FOUND
    | FdsErrNoSpaceInFlash  // FDS_ERR_NO_SPACE_IN_FLASH
    | Foreign(code: nat)

  /** A code other than `NRF_SUCCESS`: what a failing call reports. */
  type Failure = c: RetCode | c != Success witness ErrInvalidState

  /** The outcome of a foreign call that produces a value: the value, or the
      failure code the call returns. */
  datatype Result<T> = Ok(value: T) | Err(code: Failure)

  datatype Option<T> = None | Some(value: T)

  /** How a firmware routine ends: it returns a code, or `APP_ERROR_CHECK`
      sees a failure and the error handler resets the device. */
  datatype Outcome = Returned(rc: RetCode) | Fatal(rc: RetCode)

  function Min(a: int, b: int): int { if a < b then a else b }

  /** `n` zero bytes, as left by `memset(buf, 0, n)` or `= {0}`. */
  function Zeros(n: nat): (r: seq<Byte>)
    ensures |r| == n
    ensures forall i :: 0 <= i < n ==> r[i] == 0
  {
    seq(n, _ => 0)
  }

  /** The bytes of an ASCII string literal. */
  function Ascii(s: string): (r: seq<Byte>)
    requires forall i :: 0 <= i < |s| ==> s[i] as int < 128
    ensures |r| == |s|
    ensures forall i :: 0 <= i < |s| ==> r[i] == s[i] as int
  {
    seq(|s|, i requires 0 <= i < |s| => s[i] as int)
  }

  /** Bytes read back as characters (the model's view of a `char` buffer). */
  function Chars(b: seq<Byte>): (r: string)
    ensures |r| == |b|
    ensures forall i :: 0 <= i < |b| ==> r[i] as int == b[i]
  {
    seq(|b|, i requires 0 <= i < |b| => b[i] as char)
  }

  /** The string a `char *` denotes: everything before the first NUL byte
      (or the whole buffer when it has none). */
  function CStr(buf: seq<Byte>): (r: seq<Byte>)
    ensures |r| <= |buf| && r == buf[..|r|]
    ensures forall i :: 0 <= i < |r| ==> r[i] != 0
    ensures |r| < |buf| ==> buf[|r|] == 0
  {
    if buf == [] || buf[0] == 0 then [] else [buf[0]] + CStr(buf[1..])
  }

  /** `char dst[n] = {0}; strncpy(dst, src, n - 1);` — at most n - 1 bytes of
      the string `src` denotes, then zeros up to n bytes. */
  function BoundedCopy(src: seq<Byte>, n: nat): (dst: seq<Byte>)
    requires n >= 1
    ensures |dst| == n
    ensures dst[n - 1] == 0
    ensures CStr(dst) == CStr(src)[..Min(|CStr(src)|, n - 1)]
    ensures dst == CStr(src)[..Min(|CStr(src)|, n - 1)] + Zeros(n - Min(|CStr(src)|, n - 1))
  {
    var s := CStr(src);
    var k := Min(|s|, n - 1);
    var dst := s[..k] + Zeros(n - k);
    CStrOfTerminated(s[..k], Zeros(n - k));
    dst
  }

  /** `s` is a string prefix of `t`: the test `strncmp(t, s, |s|) == 0` for a
      literal `s` without NUL bytes. */
  predicate HasPrefix(t: seq<Byte>, s: seq<Byte>)
  {
    |s| <= |t| && t[..|s|] == s
  }

  lemma {:induction false} CStrOfTerminated(s: seq<Byte>, rest: seq<Byte>)
    requires forall i :: 0 <= i < |s| ==> s[i] != 0
    requires rest != [] && rest[0] == 0
    ensures CStr(s + rest) == s
  {
    if s == [] {
      assert (s + rest)[0] == 0;
    } else {
      assert (s + rest)[1..] == s[1..] + rest;
      CStrOfTerminated(s[1..], rest);
    }
  }

  lemma {:induction false} CStrOfUnterminated(s: seq<Byte>)
    requires forall i :: 0 <= i < |s| ==> s[i] != 0
    ensures CStr(s) == s
  {
    if s != [] {
      CStrOfUnterminated(s[1..]);
    }
  }

  // Arithmetic facts the bit manipulations of the sources need.

  lemma {:induction false} MulAtLeast(d: int, k: int)
    requires d > 0 && k >= 1
    ensures d * k >= d
    decreases k
  {
    if k > 1 {
      MulAtLeast(d, k - 1);
      assert d * k == d * (k - 1) + d;
    }
  }

  /** Quotient and remainder are determined by any decomposition t == d * q + r. */
  lemma DivMod(t: int, d: int, q: int, r: int)
    requires d > 0 && 0 <= r < d && t == d * q + r
    ensures t / d == q && t % d == r
  {
    var k := q - t / d;
    assert d * k == t % d - r by {
      assert d * q + r == d * (t / d) + t % d;
      assert d * k == d * q - d * (t / d);
    }
    if k > 0 {
      MulAtLeast(d, k);
    } else if k < 0 {
      MulAtLeast(d, -k);
    }
  }
}
