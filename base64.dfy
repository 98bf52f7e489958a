/** Base64 with the standard alphabet and `=` padding (section 4 of RFC 4648),
    as base64.c implements it: an encoder that walks the input three bytes at
    a time, and a decoder that feeds six bits per character into a 32-bit
    accumulator and emits a byte whenever eight bits are pending. */
module Base64 {
  import opened Platform

  const Pad: char := '='
  const Nul: char := '\0'

  // ---------------------------------------------------------------------------
  // The alphabet

  /** Value k of the alphabet of section 4 of RFC 4648, by ranges: `A`-`Z`,
      `a`-`z`, `0`-`9`, `+`, `/`. */
  function AlphabetChar(k: nat): (c: char)
    requires k < 64
    ensures c != Pad && c != Nul
  {
    if k < 26 then ('A' as int + k) as char
    else if k < 52 then ('a' as int + (k - 26)) as char
    else if k < 62 then ('0' as int + (k - 52)) as char
    else if k == 62 then '+' else '/'
  }

  /** The value an alphabet character stands for, or None for any other
      character. */
  function SextetOf(c: char): (r: Option<nat>)
    ensures r.Some? ==> r.value < 64 && AlphabetChar(r.value) == c
  {
    if 'A' <= c <= 'Z' then Some(c as int - 'A' as int)
    else if 'a' <= c <= 'z' then Some(c as int - 'a' as int + 26)
    else if '0' <= c <= '9' then Some(c as int - '0' as int + 52)
    else if c == '+' then Some(62)
    else if c == '/' then Some(63)
    else None
  }

  /** Every value has exactly one character: SextetOf inverts AlphabetChar. */
  lemma AlphabetInverse(k: nat)
    requires k < 64
    ensures SextetOf(AlphabetChar(k)) == Some(k)
  {
  }

  lemma {:induction false} UpperRange(upper: string)
    requires upper == "ABCDEFGHIJKLMNOPQRSTUVWXYZ"
    ensures forall k :: 0 <= k < 26 ==> upper[k] == AlphabetChar(k)
  {
    forall k | 0 <= k < 26 ensures upper[k] == AlphabetChar(k) {
      if k < 13 { assert k in {0, 1, 2, 3, 4, 5, 6, 7, 8, 9, 10, 11, 12}; }
      else { assert k in {13, 14, 15, 16, 17, 18, 19, 20, 21, 22, 23, 24, 25}; }
    }
  }

  lemma {:induction false} LowerRange(lower: string)
    requires lower == "abcdefghijklmnopqrstuvwxyz"
    ensures forall k :: 0 <= k < 26 ==> lower[k] == AlphabetChar(k + 26)
  {
    forall k | 0 <= k < 26 ensures lower[k] == AlphabetChar(k + 26) {
      if k < 13 { assert k in {0, 1, 2, 3, 4, 5, 6, 7, 8, 9, 10, 11, 12}; }
      else { assert k in {13, 14, 15, 16, 17, 18, 19, 20, 21, 22, 23, 24, 25}; }
    }
  }

  lemma {:induction false} DigitRange(digits: string)
    requires digits == "0123456789+/"
    ensures forall k :: 0 <= k < 12 ==> digits[k] == AlphabetChar(k + 52)
  {
    forall k | 0 <= k < 12 ensures digits[k] == AlphabetChar(k + 52) {
      assert k in {0, 1, 2, 3, 4, 5, 6, 7, 8, 9, 10, 11};
    }
  }

  /** `base64_table`, as the alphabet by ranges; TableSpelledOut shows it is
      the table's literal text. */
  const Table: string := Alphabet()

  function Alphabet(): (t: string)
    ensures |t| == 64
  {
    seq(64, k requires 0 <= k < 64 => AlphabetChar(k))
  }

  lemma TableUpper()
    ensures Table[..26] == "ABCDEFGHIJKLMNOPQRSTUVWXYZ"
  {
    UpperRange("ABCDEFGHIJKLMNOPQRSTUVWXYZ");
  }

  lemma TableLower()
    ensures Table[26..52] == "abcdefghijklmnopqrstuvwxyz"
  {
    LowerRange("abcdefghijklmnopqrstuvwxyz");
  }

  lemma TableDigits()
    ensures Table[52..] == "0123456789+/"
  {
    DigitRange("0123456789+/");
  }

  /** The table is the text of `base64_table`: the upper-case letters, the
      lower-case letters, the digits, `+` and `/`. */
  lemma TableSpelledOut()
    ensures Table == "ABCDEFGHIJKLMNOPQRSTUVWXYZ" + "abcdefghijklmnopqrstuvwxyz" + "0123456789+/"
  {
    TableUpper();
    TableLower();
    TableDigits();
    assert Table == Table[..26] + Table[26..52] + Table[52..];
  }

  /** `strchr(base64_table, c) - base64_table`, searching from position k. */
  function FindFrom(c: char, k: nat): (r: Option<nat>)
    requires k <= 64
    ensures r.Some? ==> k <= r.value < 64 && Table[r.value] == c
    ensures r.None? ==> forall j :: k <= j < 64 ==> Table[j] != c
    decreases 64 - k
  {
    if k == 64 then None
    else if Table[k] == c then Some(k)
    else FindFrom(c, k + 1)
  }

  /** The position of c in `base64_table`, or None when `strchr` finds
      nothing (c is never NUL here: the decoder stops at the terminator). */
  function IndexOf(c: char): (r: Option<nat>)
  {
    FindFrom(c, 0)
  }

  /** Searching the table finds exactly the value the character stands for. */
  lemma IndexOfByRanges(c: char)
    ensures IndexOf(c) == SextetOf(c)
  {
    var v := SextetOf(c);
    if v.Some? {
      assert Table[v.value] == c;
    }
    var r := FindFrom(c, 0);
    if r.Some? {
      AlphabetInverse(r.value);
    }
  }

  // ---------------------------------------------------------------------------
  // Encoding

  /** The octets `base64_encode` reads for one group: `octet_a`, `octet_b`,
      `octet_c`, the missing ones as 0, and how many of them exist (1..3). */
  datatype Octets = Octets(a: Byte, b: Byte, c: Byte, count: nat)

  /** The octets of group k of s, which starts at s[3k]. */
  function GroupOctets(s: seq<Byte>, k: nat): (o: Octets)
    requires 3 * k < |s|
    ensures 1 <= o.count <= 3 && o.count == Min(3, |s| - 3 * k)
  {
    Octets(s[3 * k],
           if 3 * k + 1 < |s| then s[3 * k + 1] else 0,
           if 3 * k + 2 < |s| then s[3 * k + 2] else 0,
           Min(3, |s| - 3 * k))
  }

  /** Octet r (0, 1 or 2) of a group. */
  function Octet(o: Octets, r: nat): Byte
    requires r < 3
  {
    if r == 0 then o.a else if r == 1 then o.b else o.c
  }

  /** Sextet r (0..3) of a group: its 24 bits cut into six-bit pieces, most
      significant first. */
  function Sextet(o: Octets, r: nat): (x: nat)
    requires r < 4
    ensures x < 64
  {
    if r == 0 then o.a / 4
    else if r == 1 then (o.a % 4) * 16 + o.b / 16
    else if r == 2 then (o.b % 16) * 4 + o.c / 64
    else o.c % 64
  }

  /** The shifts and masks `base64_encode` applies to
      `triple = (octet_a << 16) | (octet_b << 8) | octet_c` pick out the
      four sextets. */
  lemma TripleSextets(a: int, b: int, c: int)
    requires 0 <= a < 256 && 0 <= b < 256 && 0 <= c < 256
    ensures var t := a * 0x10000 + b * 0x100 + c;
      && (t / 0x40000) % 64 == a / 4
      && (t / 0x1000) % 64 == (a % 4) * 16 + b / 16
      && (t / 0x40) % 64 == (b % 16) * 4 + c / 64
      && t % 64 == c % 64
  {
    var t := a * 0x10000 + b * 0x100 + c;
    DivMod(t, 0x40000, a / 4, 0x10000 * (a % 4) + b * 0x100 + c);
    DivMod(a / 4, 64, 0, a / 4);
    var q1 := 64 * (a / 4) + (a % 4) * 16 + b / 16;
    DivMod(t, 0x1000, q1, 0x100 * (b % 16) + c);
    DivMod(q1, 64, a / 4, (a % 4) * 16 + b / 16);
    var q2 := 0x400 * a + 4 * b + c / 64;
    DivMod(t, 0x40, q2, c % 64);
    DivMod(q2, 64, 16 * a + b / 16, (b % 16) * 4 + c / 64);
    DivMod(t, 64, a * 0x400 + b * 4 + c / 64, c % 64);
  }

  /** Character r of a group: the alphabet character of sextet r while that
      sextet carries bits of an octet that exists (r <= count), `=` after;
      so the third and the fourth are `=` when octet b, respectively octet c,
      is missing. */
  function GroupChar(o: Octets, r: nat): char
    requires r < 4
  {
    if r <= o.count then AlphabetChar(Sextet(o, r)) else Pad
  }

  /** The four characters written for one group. */
  function EncodeGroup(o: Octets): (t: string)
    ensures |t| == 4
  {
    seq(4, r requires 0 <= r < 4 => GroupChar(o, r))
  }

  /** The characters of the first n groups of s, one group after the other. */
  function EncodedGroups(s: seq<Byte>, n: nat): (r: string)
    requires n <= (|s| + 2) / 3
    ensures |r| == 4 * n
  {
    if n == 0 then [] else EncodedGroups(s, n - 1) + EncodeGroup(GroupOctets(s, n - 1))
  }

  /** The text `base64_encode` writes before its NUL terminator: the
      characters of all ceil(|s| / 3) groups. */
  function Encoded(s: seq<Byte>): (r: string)
    ensures |r| == 4 * ((|s| + 2) / 3) && |r| % 4 == 0
  {
    EncodedGroups(s, (|s| + 2) / 3)
  }

  /** Character 4k + r of the encoding is character r of group k. */
  lemma {:induction false} EncodedGroupsAt(s: seq<Byte>, n: nat, k: nat, r: nat)
    requires n <= (|s| + 2) / 3 && k < n && r < 4
    ensures 3 * k < |s|
    ensures EncodedGroups(s, n)[4 * k + r] == EncodeGroup(GroupOctets(s, k))[r]
  {
    var prev := EncodedGroups(s, n - 1);
    assert EncodedGroups(s, n) == prev + EncodeGroup(GroupOctets(s, n - 1));
    if k < n - 1 {
      EncodedGroupsAt(s, n - 1, k, r);
    }
  }

  /** How many `=` end the encoding of n bytes. */
  function PadCount(n: nat): nat
  {
    if n % 3 == 1 then 2 else if n % 3 == 2 then 1 else 0
  }

  /** How many alphabet characters begin the encoding of n bytes: the
      ceiling of 8n / 6. */
  function SextetCount(n: nat): nat
  {
    (4 * n + 2) / 3
  }

  lemma Counts(n: nat)
    ensures SextetCount(n) + PadCount(n) == 4 * ((n + 2) / 3)
    ensures 6 * SextetCount(n) / 8 == n
  {
    var q, m := n / 3, n % 3;
    DivMod(4 * n + 2, 3, 4 * q + (4 * m + 2) / 3, (4 * m + 2) % 3);
    DivMod(n + 2, 3, q + (m + 2) / 3, (m + 2) % 3);
    DivMod(6 * SextetCount(n), 8, 3 * q + m, 6 * SextetCount(n) - 8 * (3 * q + m));
  }

  /** Position 4k + r lies in group k, which exists, and holds a sextet
      rather than padding exactly when 4k + r < SextetCount(n). */
  lemma SextetPosition(n: nat, k: nat, r: nat)
    requires r < 4 && (4 * k + r < 4 * ((n + 2) / 3) || 4 * k + r < SextetCount(n))
    ensures 3 * k < n && k < (n + 2) / 3
    ensures 4 * k + r < SextetCount(n) <==> r <= Min(3, n - 3 * k)
  {
    Counts(n);
    var sc := SextetCount(n);
    assert 3 * sc <= 4 * n + 2 < 3 * sc + 3;
  }

  /** Sextet i of the encoding of s, for i < SextetCount(|s|). */
  function EncodedSextet(s: seq<Byte>, i: nat): (x: nat)
    requires i < SextetCount(|s|)
    ensures x < 64
  {
    DivMod(i, 4, i / 4, i % 4);
    SextetPosition(|s|, i / 4, i % 4);
    Sextet(GroupOctets(s, i / 4), i % 4)
  }

  /** Each character of the encoding is the alphabet character of its
      sextet, up to SextetCount(|s|), and `=` after it. */
  lemma EncodedAt(s: seq<Byte>, i: nat)
    requires i < |Encoded(s)|
    ensures i < SextetCount(|s|) ==> Encoded(s)[i] == AlphabetChar(EncodedSextet(s, i))
    ensures i >= SextetCount(|s|) ==> Encoded(s)[i] == Pad
  {
    var k, r := i / 4, i % 4;
    DivMod(i, 4, k, r);
    SextetPosition(|s|, k, r);
    EncodedGroupsAt(s, (|s| + 2) / 3, k, r);
  }

  /** The encoding is SextetCount(|s|) alphabet characters followed by
      PadCount(|s|) `=`: two when |s| mod 3 = 1, one when |s| mod 3 = 2,
      none when |s| mod 3 = 0. */
  lemma EncodedShape(s: seq<Byte>)
    ensures |Encoded(s)| == SextetCount(|s|) + PadCount(|s|)
    ensures forall i :: 0 <= i < SextetCount(|s|) ==> SextetOf(Encoded(s)[i]).Some? && Encoded(s)[i] != Pad
    ensures forall i :: SextetCount(|s|) <= i < |Encoded(s)| ==> Encoded(s)[i] == Pad
  {
    Counts(|s|);
    forall i | 0 <= i < |Encoded(s)|
      ensures i < SextetCount(|s|) ==> SextetOf(Encoded(s)[i]).Some? && Encoded(s)[i] != Pad
      ensures i >= SextetCount(|s|) ==> Encoded(s)[i] == Pad
    {
      EncodedAt(s, i);
      if i < SextetCount(|s|) {
        AlphabetInverse(EncodedSextet(s, i));
      }
    }
  }

  /** What the body of the loop of `base64_encode` computes for the group
      starting at input[i]: the octets, `triple`, and the four characters. */
  method GroupChars(input: seq<Byte>, i: nat, ghost k: nat) returns (chars: string)
    requires i == 3 * k && i < |input|
    ensures chars == EncodeGroup(GroupOctets(input, k))
  {
    var a: int := if i < |input| then input[i] else 0;
    var b: int := if i + 1 < |input| then input[i + 1] else 0;
    var c: int := if i + 2 < |input| then input[i + 2] else 0;
    var triple := a * 0x10000 + b * 0x100 + c;
    var x0, x1, x2, x3 := (triple / 0x40000) % 64, (triple / 0x1000) % 64, (triple / 0x40) % 64, triple % 64;
    ghost var o := GroupOctets(input, k);
    assert a == o.a && b == o.b && c == o.c;
    TripleSextets(a, b, c);
    chars := [Table[x0], Table[x1],
              if i + 1 < |input| then Table[x2] else Pad,
              if i + 2 < |input| then Table[x3] else Pad];
  }

  /** The loop body's writes: the four characters of group k go to
      output[j..j + 4], after the characters of the groups before it. */
  method EncodeOneGroup(input: seq<Byte>, i: nat, output: array<char>, j: nat, ghost k: nat)
    requires i == 3 * k && i < |input| && j == 4 * k && j + 4 <= output.Length
    requires output[..j] == EncodedGroups(input, k)
    modifies output
    ensures output[..j + 4] == EncodedGroups(input, k + 1)
    ensures output[j + 4..] == old(output[j + 4..])
  {
    var chars := GroupChars(input, i, k);
    ghost var before := output[..j];
    output[j], output[j + 1], output[j + 2], output[j + 3] := chars[0], chars[1], chars[2], chars[3];
    assert output[..j + 4] == before + chars;
  }

  /** `base64_encode(input, |input|, output)`: writes the encoding followed by
      a NUL terminator and leaves the rest of the buffer alone. */
  method Encode(input: seq<Byte>, output: array<char>)
    requires output.Length > 4 * ((|input| + 2) / 3)
    modifies output
    ensures output[..|Encoded(input)|] == Encoded(input)
    ensures output[|Encoded(input)|] == Nul
    ensures output[|Encoded(input)| + 1..] == old(output[|Encoded(input)| + 1..])
  {
    var i, j := 0, 0;
    ghost var groups := 0;
    while i < |input|
      invariant i == 3 * groups && j == 4 * groups && groups <= (|input| + 2) / 3
      invariant output[..j] == EncodedGroups(input, groups)
      invariant output[j..] == old(output[j..])
    {
      ghost var rest := output[j..];
      EncodeOneGroup(input, i, output, j, groups);
      assert output[j + 4..] == rest[4..];
      i, j, groups := i + 3, j + 4, groups + 1;
    }
    assert groups == (|input| + 2) / 3;
    Terminate(output, j);
  }

  /** `output[j] = '\0'`: the rest of the buffer keeps its contents. */
  method Terminate(output: array<char>, j: nat)
    requires j < output.Length
    modifies output
    ensures output[..j] == old(output[..j]) && output[j] == Nul
    ensures output[j + 1..] == old(output[j + 1..])
  {
    output[j] := Nul;
  }

  // ---------------------------------------------------------------------------
  // Decoding

  /** The position of the first `=` in s, or |s| when there is none. */
  function PadStart(s: string): (k: nat)
    ensures k <= |s|
    ensures forall i :: 0 <= i < k ==> s[i] != Pad
    ensures k < |s| ==> s[k] == Pad
  {
    if s == [] || s[0] == Pad then 0 else 1 + PadStart(s[1..])
  }

  predicate AllInTable(s: string)
  {
    forall i :: 0 <= i < |s| ==> SextetOf(s[i]).Some?
  }

  predicate Sextets(v: seq<nat>)
  {
    forall i :: 0 <= i < |v| ==> v[i] < 64
  }

  /** The 6-bit values the characters of s stand for. */
  function Indices(s: string): (v: seq<nat>)
    requires AllInTable(s)
    ensures |v| == |s| && Sextets(v)
    ensures forall i :: 0 <= i < |s| ==> AlphabetChar(v[i]) == s[i]
  {
    seq(|s|, i requires 0 <= i < |s| => SextetOf(s[i]).value)
  }

  /** Byte k of a run of sextets is made of the two sextets at positions
      4 (k / 3) + k mod 3 and one after it. */
  lemma PairInRange(n: nat, k: nat)
    requires k < 6 * n / 8
    ensures 4 * (k / 3) + k % 3 + 1 < n
  {
    var g, r := k / 3, k % 3;
    assert k == 3 * g + r;
    assert 8 * (k + 1) <= 6 * n;
  }

  /** The byte made of sextets x and y when it is byte r (0, 1 or 2) of its
      group of three: the low 6 - 2r bits of x followed by the high 2 + 2r
      bits of y. */
  function Combine(r: nat, x: nat, y: nat): Byte
    requires r < 3 && x < 64 && y < 64
  {
    if r == 0 then x * 4 + y / 16
    else if r == 1 then (x % 16) * 16 + y / 4
    else (x % 4) * 64 + y
  }

  /** Byte k the sextets v carry: the eight bits that follow the first 8k
      bits of their concatenation. */
  function DecodedByte(v: seq<nat>, k: nat): Byte
    requires Sextets(v) && k < 6 * |v| / 8
  {
    PairInRange(|v|, k);
    var i := 4 * (k / 3) + k % 3;
    Combine(k % 3, v[i], v[i + 1])
  }

  /** The bytes the sextets v carry: every full eight bits, most significant
      first; leftover bits are dropped. */
  function DecodeSextets(v: seq<nat>): (b: seq<Byte>)
    requires Sextets(v)
    ensures |b| == 6 * |v| / 8
  {
    seq(6 * |v| / 8, k requires 0 <= k < 6 * |v| / 8 => DecodedByte(v, k))
  }

  /** What `base64_decode` yields for the NUL-free string s: nothing (`-1`)
      when |s| is not a multiple of 4 or a character before the first `=`
      is outside the alphabet; otherwise the bytes the characters before the
      first `=` carry (what follows the first `=` is ignored). */
  function Decoded(s: string): (r: Option<seq<Byte>>)
    ensures r.Some? ==> |r.value| == 6 * PadStart(s) / 8
  {
    if |s| % 4 != 0 then None
    else
      var body := s[..PadStart(s)];
      if AllInTable(body) then Some(DecodeSextets(Indices(body))) else None
  }

  function Pow2(n: nat): (p: nat)
    ensures p >= 1
  {
    if n == 0 then 1 else 2 * Pow2(n - 1)
  }

  /** How the counters of the decoding loop move: after i sextets, 6i / 8
      bytes are out and 6i mod 8 bits pend; sextet i completes byte 6i / 8,
      made of sextets i - 1 and i, unless i is a multiple of 4. */
  lemma LoopCounters(i: nat)
    ensures i % 4 == 0 ==> (6 * i) % 8 == 0 && 6 * (i + 1) / 8 == 6 * i / 8
    ensures i % 4 != 0 ==> (6 * i) % 8 == 8 - 2 * (i % 4) && 6 * (i + 1) / 8 == 6 * i / 8 + 1
    ensures i % 4 != 0 ==> 4 * ((6 * i / 8) / 3) + (6 * i / 8) % 3 == i - 1
    ensures i % 4 != 0 ==> (6 * i / 8) % 3 == i % 4 - 1
  {
    var q, r := i / 4, i % 4;
    assert i == 4 * q + r;
    DivMod(6 * i, 8, 3 * q + (6 * r) / 8, (6 * r) % 8);
    DivMod(6 * (i + 1), 8, 3 * q + (6 * r + 6) / 8, (6 * r + 6) % 8);
    if r != 0 {
      DivMod(6 * i / 8, 3, q, r - 1);
    }
  }

  // One step of the accumulator, `buffer = (buffer << 6) | x` in 32 bits,
  // for each number of pending bits: the new low bits are those of x, and
  // when eight bits are complete the byte `(buffer >> pending) & 0xFF` is the
  // one DecodedByte describes.

  lemma StepFrom0(buffer: nat, x: nat)
    requires buffer < 0x1_0000_0000 && x < 64
    ensures (buffer * 64 + x) % 0x1_0000_0000 % 64 == x
  {
    var q := buffer % 0x400_0000;
    assert buffer == 0x400_0000 * (buffer / 0x400_0000) + q;
    DivMod(buffer * 64 + x, 0x1_0000_0000, buffer / 0x400_0000, 64 * q + x);
    DivMod(64 * q + x, 64, q, x);
  }

  lemma StepFrom6(buffer: nat, last: nat, x: nat)
    requires buffer < 0x1_0000_0000 && x < 64 && last < 64 && buffer % 64 == last
    ensures var nb := (buffer * 64 + x) % 0x1_0000_0000;
      nb % 16 == x % 16 && (nb / Pow2(4)) % 256 == last * 4 + x / 16
  {
    assert Pow2(4) == 16;
    var q := buffer / 64;
    var lo := q % 0x10_0000;
    assert buffer == 64 * q + last;
    assert q == 0x10_0000 * (q / 0x10_0000) + lo;
    DivMod(buffer * 64 + x, 0x1_0000_0000, q / 0x10_0000, 0x1000 * lo + last * 64 + x);
    var nb := 0x1000 * lo + last * 64 + x;
    DivMod(nb, 16, 0x100 * lo + last * 4 + x / 16, x % 16);
    DivMod(0x100 * lo + last * 4 + x / 16, 256, lo, last * 4 + x / 16);
  }

  lemma StepFrom4(buffer: nat, last: nat, x: nat)
    requires buffer < 0x1_0000_0000 && x < 64 && last < 64 && buffer % 16 == last % 16
    ensures var nb := (buffer * 64 + x) % 0x1_0000_0000;
      nb % 4 == x % 4 && (nb / Pow2(2)) % 256 == (last % 16) * 16 + x / 4
  {
    assert Pow2(2) == 4;
    var q := buffer / 16;
    var lo := q % 0x40_0000;
    var y := (last % 16) * 64 + x;
    assert buffer == 16 * q + last % 16;
    assert q == 0x40_0000 * (q / 0x40_0000) + lo;
    DivMod(buffer * 64 + x, 0x1_0000_0000, q / 0x40_0000, 0x400 * lo + y);
    var nb := 0x400 * lo + y;
    DivMod(nb, 4, 0x100 * lo + (last % 16) * 16 + x / 4, x % 4);
    DivMod(0x100 * lo + (last % 16) * 16 + x / 4, 256, lo, (last % 16) * 16 + x / 4);
  }

  lemma StepFrom2(buffer: nat, last: nat, x: nat)
    requires buffer < 0x1_0000_0000 && x < 64 && last < 64 && buffer % 4 == last % 4
    ensures var nb := (buffer * 64 + x) % 0x1_0000_0000;
      (nb / Pow2(0)) % 256 == (last % 4) * 64 + x
  {
    var q := buffer / 4;
    var lo := q % 0x100_0000;
    var y := (last % 4) * 64 + x;
    assert buffer == 4 * q + last % 4;
    assert q == 0x100_0000 * (q / 0x100_0000) + lo;
    DivMod(buffer * 64 + x, 0x1_0000_0000, q / 0x100_0000, 0x100 * lo + y);
    DivMod(0x100 * lo + y, 256, lo, y);
  }

  /** The decoder's state after the sextets v: `buffer_len` is 6|v| mod 8,
      and the low `buffer_len` bits of `buffer` are those of the last
      sextet. */
  ghost predicate Accumulates(buffer: nat, pending: nat, v: seq<nat>)
  {
    && Sextets(v) && buffer < 0x1_0000_0000 && pending == (6 * |v|) % 8
    && (|v| > 0 ==> buffer % Pow2(pending) == v[|v| - 1] % Pow2(pending))
  }

  /** When |v| is not a multiple of 4, sextet x completes the byte made of
      the last sextet of v and x. */
  lemma NextByte(v: seq<nat>, x: nat)
    requires Sextets(v) && x < 64 && |v| % 4 != 0
    ensures Sextets(v + [x])
    ensures 6 * (|v| + 1) / 8 == 6 * |v| / 8 + 1
    ensures DecodedByte(v + [x], 6 * |v| / 8) == Combine(|v| % 4 - 1, v[|v| - 1], x)
  {
    LoopCounters(|v|);
  }

  /** After a multiple of four sextets no bits pend; shifting in sextet x
      leaves its six bits pending and completes no byte. */
  lemma AccumulateFirst(buffer: nat, pending: nat, v: seq<nat>, x: nat)
    requires Accumulates(buffer, pending, v) && x < 64 && |v| % 4 == 0
    ensures pending == 0 && 6 * (|v| + 1) / 8 == 6 * |v| / 8
    ensures Accumulates((buffer * 64 + x) % 0x1_0000_0000, 6, v + [x])
  {
    LoopCounters(|v|);
    StepFrom0(buffer, x);
    assert Pow2(6) == 64;
  }

  /** Otherwise 2, 4 or 6 bits pend, and shifting in sextet x completes the
      next byte, leaving two bits fewer pending. */
  lemma AccumulateByte(buffer: nat, pending: nat, v: seq<nat>, x: nat)
    requires Accumulates(buffer, pending, v) && x < 64 && |v| % 4 != 0
    ensures pending >= 2 && 6 * (|v| + 1) / 8 == 6 * |v| / 8 + 1
    ensures var nb := (buffer * 64 + x) % 0x1_0000_0000;
      && Accumulates(nb, pending - 2, v + [x])
      && (nb / Pow2(pending - 2)) % 256 == DecodedByte(v + [x], 6 * |v| / 8)
  {
    var i := |v|;
    LoopCounters(i);
    NextByte(v, x);
    assert Pow2(2) == 4 && Pow2(4) == 16 && Pow2(6) == 64;
    if i % 4 == 1 {
      StepFrom6(buffer, v[i - 1], x);
    } else if i % 4 == 2 {
      StepFrom4(buffer, v[i - 1], x);
    } else {
      StepFrom2(buffer, v[i - 1], x);
    }
  }

  /** Appending a sextet leaves the bytes already complete unchanged. */
  lemma DecodedBytesStable(v: seq<nat>, x: nat)
    requires Sextets(v) && x < 64
    ensures Sextets(v + [x])
    ensures forall k :: 0 <= k < 6 * |v| / 8 ==> DecodedByte(v + [x], k) == DecodedByte(v, k)
  {
    forall k | 0 <= k < 6 * |v| / 8 ensures DecodedByte(v + [x], k) == DecodedByte(v, k) {
      PairInRange(|v|, k);
    }
  }

  /** Lines 46-52 of `base64_decode`: shift sextet x into the accumulator
      and, once eight bits are pending, store the completed byte at
      output[j]. The bytes stored so far are those of the sextets v. */
  method Feed(buffer: nat, pending: nat, x: nat, output: array<Byte>, j: nat, ghost v: seq<nat>)
    returns (buffer': nat, pending': nat, j': nat)
    requires Accumulates(buffer, pending, v) && x < 64
    requires j == 6 * |v| / 8 && 6 * (|v| + 1) / 8 <= output.Length
    requires forall k :: 0 <= k < j ==> output[k] == DecodedByte(v, k)
    modifies output
    ensures Accumulates(buffer', pending', v + [x]) && j' == 6 * (|v| + 1) / 8
    ensures forall k :: 0 <= k < j' ==> output[k] == DecodedByte(v + [x], k)
  {
    if |v| % 4 == 0 {
      AccumulateFirst(buffer, pending, v, x);
    } else {
      AccumulateByte(buffer, pending, v, x);
    }
    DecodedBytesStable(v, x);
    buffer' := (buffer * 64 + x) % 0x1_0000_0000;
    pending' := pending + 6;
    j' := j;
    if pending' >= 8 {
      pending' := pending' - 8;
      output[j] := (buffer' / Pow2(pending')) % 256;
      j' := j + 1;
    }
  }

  /** The sextets v stand for the first |v| characters of s. */
  ghost predicate IndicesOf(s: string, v: seq<nat>)
  {
    |v| <= |s| && forall k :: 0 <= k < |v| ==> SextetOf(s[k]) == Some(v[k])
  }

  lemma IndicesOfStep(s: string, v: seq<nat>, x: nat)
    requires IndicesOf(s, v) && |v| < |s| && SextetOf(s[|v|]) == Some(x)
    ensures IndicesOf(s, v + [x])
  {
  }

  /** A character outside the alphabet before the first `=` makes the text
      undecodable. */
  lemma OutsideAlphabet(s: string, i: nat)
    requires i < PadStart(s) && SextetOf(s[i]).None?
    ensures Decoded(s).None?
  {
    assert s[..PadStart(s)][i] == s[i];
  }

  /** Once the sextets of every character before the first `=` are known,
      the decoding of a text of a length divisible by 4 is theirs. */
  lemma DecodedFromIndices(s: string, v: seq<nat>)
    requires |s| % 4 == 0 && IndicesOf(s, v) && |v| == PadStart(s)
    ensures Sextets(v) && Decoded(s) == Some(DecodeSextets(v))
  {
    assert Indices(s[..|v|]) == v;
  }

  /** `base64_decode(input, output, output_len)`. The string is the NUL-free
      text before the terminator; `outputLenIn` is `*output_len` on entry. On
      a length error `*output_len` and the buffer are left alone; otherwise
      `*output_len` is 0 unless decoding succeeds. */
  method Decode(input: string, output: array<Byte>, outputLenIn: nat) returns (rc: int, outputLen: nat)
    requires forall i :: 0 <= i < |input| ==> input[i] != Nul
    requires output.Length >= 6 * PadStart(input) / 8
    modifies output
    ensures rc == 0 || rc == -1
    ensures rc == 0 <==> Decoded(input).Some?
    ensures rc == 0 ==> outputLen <= output.Length && output[..outputLen] == Decoded(input).value
    ensures |input| % 4 != 0 ==> rc == -1 && outputLen == outputLenIn && output[..] == old(output[..])
    ensures |input| % 4 == 0 && rc == -1 ==> outputLen == 0
  {
    if |input| % 4 != 0 {
      return -1, outputLenIn;
    }
    var buffer: nat := 0;
    var pending: nat := 0;
    outputLen := 0;
    var i, j := 0, 0;
    ghost var v: seq<nat> := [];
    while i < |input|
      invariant i <= PadStart(input) && |v| == i
      invariant IndicesOf(input, v)
      invariant Accumulates(buffer, pending, v) && j == 6 * i / 8
      invariant forall k :: 0 <= k < j ==> output[k] == DecodedByte(v, k)
    {
      var c := input[i];
      if c == Pad {
        break;
      }
      var pos := IndexOf(c);
      IndexOfByRanges(c);
      if pos.None? {
        OutsideAlphabet(input, i);
        return -1, 0;
      }
      var x := pos.value;
      buffer, pending, j := Feed(buffer, pending, x, output, j, v);
      IndicesOfStep(input, v, x);
      v := v + [x];
      i := i + 1;
    }
    DecodedFromIndices(input, v);
    assert output[..j] == DecodeSextets(v);
    outputLen := j;
    return 0, outputLen;
  }

  // ---------------------------------------------------------------------------
  // The round trip

  /** The sextets the encoder produces for s, before any padding. */
  function EncodedSextets(s: seq<Byte>): (v: seq<nat>)
    ensures |v| == SextetCount(|s|) && Sextets(v)
  {
    seq(SextetCount(|s|), i requires 0 <= i < SextetCount(|s|) => EncodedSextet(s, i))
  }

  /** Sextet 4k + r of the encoding is sextet r of group k. */
  lemma EncodedSextetAt(s: seq<Byte>, k: nat, r: nat)
    requires r < 4 && 4 * k + r < SextetCount(|s|)
    ensures 3 * k < |s|
    ensures EncodedSextets(s)[4 * k + r] == Sextet(GroupOctets(s, k), r)
  {
    DivMod(4 * k + r, 4, k, r);
    SextetPosition(|s|, k, r);
  }

  /** Octet r of a group comes back from its sextets r and r + 1. */
  lemma CombineSextets(o: Octets, r: nat)
    requires r < 3
    ensures Combine(r, Sextet(o, r), Sextet(o, r + 1)) == Octet(o, r)
  {
    var a, b, c := o.a, o.b, o.c;
    if r == 0 {
      DivMod((a % 4) * 16 + b / 16, 16, a % 4, b / 16);
    } else if r == 1 {
      DivMod((a % 4) * 16 + b / 16, 16, a % 4, b / 16);
      DivMod((b % 16) * 4 + c / 64, 4, b % 16, c / 64);
    } else {
      DivMod((b % 16) * 4 + c / 64, 4, b % 16, c / 64);
    }
  }

  /** Byte 3k + r of any run of sextets is made of its sextets 4k + r and
      4k + r + 1. */
  lemma DecodedByteAt(v: seq<nat>, k: nat, r: nat)
    requires Sextets(v) && r < 3 && 3 * k + r < 6 * |v| / 8
    ensures 4 * k + r + 1 < |v|
    ensures DecodedByte(v, 3 * k + r) == Combine(r, v[4 * k + r], v[4 * k + r + 1])
  {
    DivMod(3 * k + r, 3, k, r);
    PairInRange(|v|, 3 * k + r);
  }

  /** Byte 3k + r of a run of sextets whose sextets 4k + r and 4k + r + 1
      are those of a group is octet r of that group. */
  lemma ByteFromPair(v: seq<nat>, o: Octets, k: nat, r: nat)
    requires Sextets(v) && r < 3 && 3 * k + r < 6 * |v| / 8 && 4 * k + r + 1 < |v|
    requires v[4 * k + r] == Sextet(o, r) && v[4 * k + r + 1] == Sextet(o, r + 1)
    ensures DecodedByte(v, 3 * k + r) == Octet(o, r)
  {
    DecodedByteAt(v, k, r);
    CombineSextets(o, r);
  }

  /** Byte r of group k is carried by two sextets of the encoding. */
  lemma PairPosition(n: nat, k: nat, r: nat)
    requires r < 3 && 3 * k + r < n
    ensures 4 * k + r + 1 < SextetCount(n)
  {
    assert 4 * n + 2 >= 3 * (4 * k + r + 2);
  }

  lemma OctetOfGroup(s: seq<Byte>, k: nat, r: nat)
    requires r < 3 && 3 * k + r < |s|
    ensures Octet(GroupOctets(s, k), r) == s[3 * k + r]
  {
  }

  lemma DecodedEncodedByte(s: seq<Byte>, k: nat, r: nat)
    requires r < 3 && 3 * k + r < |s| && 6 * SextetCount(|s|) / 8 == |s|
    ensures DecodedByte(EncodedSextets(s), 3 * k + r) == s[3 * k + r]
  {
    var v := EncodedSextets(s);
    PairPosition(|s|, k, r);
    EncodedSextetAt(s, k, r);
    EncodedSextetAt(s, k, r + 1);
    ByteFromPair(v, GroupOctets(s, k), k, r);
    OctetOfGroup(s, k, r);
  }

  /** Sextets whose every byte is the byte of s at the same position decode
      to s. */
  lemma DecodeSextetsBytewise(v: seq<nat>, s: seq<Byte>)
    requires Sextets(v) && 6 * |v| / 8 == |s|
    requires forall k :: 0 <= k < |s| ==> DecodedByte(v, k) == s[k]
    ensures DecodeSextets(v) == s
  {
  }

  lemma DecodeEncodedSextets(s: seq<Byte>)
    ensures DecodeSextets(EncodedSextets(s)) == s
  {
    Counts(|s|);
    var v := EncodedSextets(s);
    forall i | 0 <= i < |s| ensures DecodedByte(v, i) == s[i] {
      DivMod(i, 3, i / 3, i % 3);
      DecodedEncodedByte(s, i / 3, i % 3);
    }
    DecodeSextetsBytewise(v, s);
  }

  /** The first `=` of an encoding follows its last alphabet character. */
  lemma PadStartOfEncoded(s: seq<Byte>)
    ensures PadStart(Encoded(s)) == SextetCount(|s|)
  {
    EncodedShape(s);
    var t := Encoded(s);
    var n, p := SextetCount(|s|), PadStart(t);
    if n < |t| {
      assert t[n] == Pad;
    }
    if p < |t| {
      assert t[p] == Pad;
    }
  }

  lemma {:induction false} IndicesOfEncoded(s: seq<Byte>)
    ensures SextetCount(|s|) <= |Encoded(s)|
    ensures AllInTable(Encoded(s)[..SextetCount(|s|)])
    ensures Indices(Encoded(s)[..SextetCount(|s|)]) == EncodedSextets(s)
  {
    Counts(|s|);
    var t := Encoded(s)[..SextetCount(|s|)];
    forall i | 0 <= i < |t| ensures SextetOf(t[i]) == Some(EncodedSextet(s, i)) {
      EncodedAt(s, i);
      AlphabetInverse(EncodedSextet(s, i));
    }
  }

  /** Decoding what `base64_encode` wrote succeeds and yields the input back:
      the round trip `test_base64` exercises. */
  lemma RoundTrip(s: seq<Byte>)
    ensures Decoded(Encoded(s)) == Some(s)
  {
    PadStartOfEncoded(s);
    IndicesOfEncoded(s);
    DecodeEncodedSextets(s);
    DivMod(|Encoded(s)|, 4, (|s| + 2) / 3, 0);
  }
}
