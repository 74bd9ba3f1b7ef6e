/**
 * The Internet checksum of RFC 1071 as the ping and traceroute tools compute it
 * (`checksum` in task1.cpp and its verbatim copy in task2.cpp).
 *
 * A buffer is modelled as the 16-bit words the C code loads from memory, so the
 * host byte order of those words plays no part.  When the byte length is odd,
 * the one trailing byte is the first byte of the next word, which on a
 * little-endian host is that word's low-order byte.
 */
module Icmp {

  newtype uint16 = x: int | 0 <= x < 0x1_0000

  /** `unsigned int sum` wraps modulo 2^32. */
  const ACC_MOD: int := 0x1_0000_0000
  /** Largest byte length whose word sum always fits the 32-bit accumulator. */
  const MAX_EXACT_LEN: int := 131074

  /** Number of whole words the summing loop consumes, two bytes per pass while more than one byte is left. */
  function WordCount(len: int): nat
  {
    if len < 2 then 0 else len / 2
  }

  /** Whether the loop leaves exactly one byte over, which is then added on its own. */
  predicate HasOddByte(len: int)
  {
    len >= 0 && len % 2 == 1
  }

  /** The values the checksum adds: the whole words, then the odd byte, if any, as a low-order value. */
  function Operands(buf: seq<uint16>, len: int): (ws: seq<uint16>)
    requires len <= 2 * |buf|
    ensures |ws| == WordCount(len) + (if HasOddByte(len) then 1 else 0)
    ensures forall k :: 0 <= k < WordCount(len) ==> ws[k] == buf[k]
  {
    var n := WordCount(len);
    buf[..n] + (if HasOddByte(len) then [(buf[n] as int % 256) as uint16] else [])
  }

  /** Plain (unbounded) sum of the words. */
  function Sum(ws: seq<uint16>): nat
  {
    if ws == [] then 0 else Sum(ws[..|ws| - 1]) + ws[|ws| - 1] as int
  }

  /** One ones'-complement addition: add, then wrap any carry out of bit 15 back into bit 0. */
  function OnesAdd(x: int, w: int): int
  {
    if x + w > 0xFFFF then x + w - 0xFFFF else x + w
  }

  /** The ones'-complement sum of RFC 1071 section 1, accumulated one word at a time. */
  function OnesSum(ws: seq<uint16>): (r: int)
    ensures 0 <= r <= 0xFFFF
  {
    if ws == [] then 0 else OnesAdd(OnesSum(ws[..|ws| - 1]), ws[|ws| - 1] as int)
  }

  /**
   * Folding all carries of a plain sum back into 16 bits: 0 only for 0, otherwise the
   * value in 1..0xFFFF congruent to n modulo 0xFFFF.
   */
  function EndAroundCarry(n: nat): (r: nat)
    ensures r <= 0xFFFF
    ensures r == 0 <==> n == 0
  {
    if n == 0 then 0 else (n - 1) % 0xFFFF + 1
  }

  /** The RFC 1071 checksum of the first `len` bytes of the buffer: the complement of their ones'-complement sum. */
  function InternetChecksum(buf: seq<uint16>, len: int): uint16
    requires len <= 2 * |buf|
  {
    (0xFFFF - OnesSum(Operands(buf, len))) as uint16
  }

  /** What the C code returns: the complement of the fully folded 32-bit accumulator, which may have wrapped. */
  function WrappedChecksum(buf: seq<uint16>, len: int): uint16
    requires len <= 2 * |buf|
  {
    (0xFFFF - EndAroundCarry(Sum(Operands(buf, len)) % ACC_MOD)) as uint16
  }

  /**
   * The two carry folds on the 32-bit `unsigned int` accumulator: add the high half to the
   * low half, then add the carry of that once more; the result keeps its low 16 bits.
   */
  function FoldTwice(sum: nat): nat
    requires sum < ACC_MOD
  {
    var s1 := sum / 0x1_0000 + sum % 0x1_0000;
    var s2 := (s1 + s1 / 0x1_0000) % ACC_MOD;
    s2 % 0x1_0000
  }

  lemma ModOfSum(a: nat, b: nat)
    ensures (a + b) % 0xFFFF == (a % 0xFFFF + b) % 0xFFFF
  {
  }

  /** A representation n == q * 0xFFFF + r with r in range determines n % 0xFFFF. */
  lemma ModUnique(n: nat, q: nat, r: nat)
    requires n == q * 0xFFFF + r && r < 0xFFFF
    ensures n % 0xFFFF == r
  {
  }

  /** The first fold keeps the value modulo 0xFFFF, because 0x10000 is 1 modulo 0xFFFF. */
  lemma FirstFold(sum: nat)
    requires sum < ACC_MOD
    ensures var s1 := sum / 0x1_0000 + sum % 0x1_0000;
      s1 <= 0x1_FFFE && (s1 == 0 <==> sum == 0) &&
      (sum > 0 ==> (sum - 1) % 0xFFFF == (s1 - 1) % 0xFFFF)
  {
    var hi, lo := sum / 0x1_0000, sum % 0x1_0000;
    var s1 := hi + lo;
    assert sum == hi * 0x1_0000 + lo;
    assert sum == hi * 0xFFFF + s1;
    if sum > 0 {
      var r := (s1 - 1) % 0xFFFF;
      var q := (s1 - 1) / 0xFFFF;
      assert s1 - 1 == q * 0xFFFF + r;
      assert sum - 1 == (hi + q) * 0xFFFF + r;
      ModUnique(sum - 1, hi + q, r);
    }
  }

  /** Two folds are enough: for every 32-bit accumulator they give the complete end-around-carry sum. */
  lemma TwoFoldsSuffice(sum: nat)
    requires sum < ACC_MOD
    ensures FoldTwice(sum) == EndAroundCarry(sum)
  {
    FirstFold(sum);
    var s1 := sum / 0x1_0000 + sum % 0x1_0000;
    if sum > 0 {
      if s1 >= 0x1_0000 {
        ModUnique(s1 - 1, 1, s1 - 1 - 0xFFFF);
      } else {
        ModUnique(s1 - 1, 0, s1 - 1);
      }
    }
  }

  /** Ones'-complement addition of a word to a folded sum is the fold of the plain sum. */
  lemma OnesAddFolds(n: nat, w: nat)
    requires w <= 0xFFFF
    ensures OnesAdd(EndAroundCarry(n), w) == EndAroundCarry(n + w)
  {
    if n > 0 {
      ModOfSum(n - 1, w);
      var e := EndAroundCarry(n);
      assert (n + w - 1) % 0xFFFF == (e - 1 + w) % 0xFFFF;
    }
  }

  /** The word-by-word ones'-complement sum equals the end-around-carry fold of the plain sum. */
  lemma {:induction false} OnesSumIsEndAroundCarry(ws: seq<uint16>)
    ensures OnesSum(ws) == EndAroundCarry(Sum(ws))
  {
    if ws != [] {
      OnesSumIsEndAroundCarry(ws[..|ws| - 1]);
      OnesAddFolds(Sum(ws[..|ws| - 1]), ws[|ws| - 1] as int);
    }
  }

  lemma {:induction false} SumBound(ws: seq<uint16>)
    ensures Sum(ws) <= 0xFFFF * |ws|
  {
    if ws != [] {
      SumBound(ws[..|ws| - 1]);
    }
  }

  /**
   * The 32-bit accumulator cannot overflow for any length up to MAX_EXACT_LEN bytes
   * (65537 words of 0xFFFF sum to exactly 0xFFFFFFFF).
   */
  lemma NoAccumulatorOverflow(buf: seq<uint16>, len: int)
    requires len <= 2 * |buf| && len <= MAX_EXACT_LEN
    ensures Sum(Operands(buf, len)) < ACC_MOD
  {
    var ws := Operands(buf, len);
    var n := WordCount(len);
    assert n <= 65537;
    if HasOddByte(len) {
      assert n <= 65536;
      assert ws == ws[..n] + [ws[n]];
      assert ws[..|ws| - 1] == ws[..n];
      SumBound(ws[..n]);
      assert ws[n] < 256;
    } else {
      SumBound(ws);
    }
  }

  /** Below the bound the C result is the RFC 1071 checksum. */
  lemma ExactBelowBound(buf: seq<uint16>, len: int)
    requires len <= 2 * |buf| && len <= MAX_EXACT_LEN
    ensures WrappedChecksum(buf, len) == InternetChecksum(buf, len)
  {
    NoAccumulatorOverflow(buf, len);
    OnesSumIsEndAroundCarry(Operands(buf, len));
  }

  lemma SumAppend(ws: seq<uint16>, w: uint16)
    ensures Sum(ws + [w]) == Sum(ws) + w as int
  {
    assert (ws + [w])[..|ws|] == ws;
  }

  /** Replacing one word changes the plain sum by the difference. */
  lemma {:induction false} SumUpdate(ws: seq<uint16>, k: nat, w: uint16)
    requires k < |ws|
    ensures Sum(ws[k := w]) == Sum(ws) - ws[k] as int + w as int
  {
    var last := |ws| - 1;
    if k == last {
      assert ws[k := w][..last] == ws[..last];
    } else {
      SumUpdate(ws[..last], k, w);
      assert ws[k := w][..last] == ws[..last][k := w];
    }
  }

  /**
   * Storing the checksum into a zeroed word that the checksum covers makes the checksum
   * of the same bytes 0: RFC 1071's receiver check.
   */
  lemma VerifiesToZero(buf: seq<uint16>, len: int, k: nat)
    requires len <= 2 * |buf| && k < WordCount(len) && buf[k] == 0
    ensures InternetChecksum(buf[k := InternetChecksum(buf, len)], len) == 0
  {
    var c := InternetChecksum(buf, len);
    var buf' := buf[k := c];
    var ws := Operands(buf, len);
    assert Operands(buf', len) == ws[k := c];
    SumUpdate(ws, k, c);
    var s := Sum(ws);
    OnesSumIsEndAroundCarry(ws);
    OnesSumIsEndAroundCarry(ws[k := c]);
    var s' := Sum(ws[k := c]);
    assert s' == s + 0xFFFF - EndAroundCarry(s);
    if s > 0 {
      ModOfSum((s - 1) / 0xFFFF * 0xFFFF, 0xFFFF - 1);
      assert s' - 1 == (s - 1) / 0xFFFF * 0xFFFF + 0xFFFF - 1;
    }
    assert EndAroundCarry(s') == 0xFFFF;
  }

  lemma AccumulateStep(a: nat, b: nat)
    ensures (a % ACC_MOD + b) % ACC_MOD == (a + b) % ACC_MOD
  {
  }

  /** After the word loop: the operands are the words read so far plus the odd byte when `len` is odd. */
  lemma OperandsSplit(buf: seq<uint16>, len: int)
    requires len <= 2 * |buf|
    ensures var n := WordCount(len);
      HasOddByte(len) ==> Sum(Operands(buf, len)) == Sum(buf[..n]) + buf[n] as int % 256
    ensures !HasOddByte(len) ==> Sum(Operands(buf, len)) == Sum(buf[..WordCount(len)])
  {
    var n := WordCount(len);
    if HasOddByte(len) {
      SumAppend(buf[..n], (buf[n] as int % 256) as uint16);
    } else {
      assert Operands(buf, len) == buf[..n];
    }
  }

  /** Complementing the twice-folded accumulator gives the C result, and below the bound the RFC 1071 checksum. */
  lemma FoldedComplement(buf: seq<uint16>, len: int, sum: nat)
    requires len <= 2 * |buf| && sum == Sum(Operands(buf, len)) % ACC_MOD
    ensures 0xFFFF - FoldTwice(sum) == WrappedChecksum(buf, len) as int
    ensures len <= MAX_EXACT_LEN ==> 0xFFFF - FoldTwice(sum) == InternetChecksum(buf, len) as int
  {
    TwoFoldsSuffice(sum);
    if len <= MAX_EXACT_LEN {
      ExactBelowBound(buf, len);
    }
  }

  /** One pass of the word loop: adding word k to the wrapped sum of the words before it. */
  lemma SumStep(buf: seq<uint16>, k: nat)
    requires k < |buf|
    ensures Sum(buf[..k + 1]) % ACC_MOD == (Sum(buf[..k]) % ACC_MOD + buf[k] as int) % ACC_MOD
  {
    assert buf[..k + 1] == buf[..k] + [buf[k]];
    SumAppend(buf[..k], buf[k]);
    AccumulateStep(Sum(buf[..k]), buf[k] as int);
  }

  /** After the word loop, adding the odd byte when there is one gives the wrapped sum of the operands. */
  lemma AccumulatedOperands(buf: seq<uint16>, len: int, sum: nat)
    requires len <= 2 * |buf| && sum == Sum(buf[..WordCount(len)]) % ACC_MOD
    ensures HasOddByte(len) ==>
      (sum + buf[WordCount(len)] as int % 256) % ACC_MOD == Sum(Operands(buf, len)) % ACC_MOD
    ensures !HasOddByte(len) ==> sum == Sum(Operands(buf, len)) % ACC_MOD
  {
    OperandsSplit(buf, len);
    if HasOddByte(len) {
      AccumulateStep(Sum(buf[..WordCount(len)]), buf[WordCount(len)] as int % 256);
    }
  }

  /**
   * The summing part of `checksum`: the words with a 32-bit accumulator, then a
   * trailing odd byte.
   */
  method Accumulate(buf: array<uint16>, len: int) returns (sum: nat)
    requires len <= 2 * buf.Length
    ensures sum < ACC_MOD && sum == Sum(Operands(buf[..], len)) % ACC_MOD
  {
    sum := 0;
    var rest := len;
    var k := 0;
    while rest > 1
      invariant 0 <= k <= WordCount(len)
      invariant rest == len - 2 * k
      invariant sum == Sum(buf[..][..k]) % ACC_MOD
    {
      SumStep(buf[..], k);
      sum := (sum + buf[k] as int) % ACC_MOD;
      k := k + 1;
      rest := rest - 2;
    }
    assert k == WordCount(len) && (rest == 1 <==> HasOddByte(len));
    AccumulatedOperands(buf[..], len, sum);
    if rest == 1 {
      sum := (sum + buf[k] as int % 256) % ACC_MOD;
    }
  }

  /**
   * `checksum(buf, len)`: sums the words with a 32-bit accumulator, adds a trailing odd
   * byte, folds the carries twice and complements the result.
   */
  method Checksum(buf: array<uint16>, len: int) returns (r: uint16)
    requires len <= 2 * buf.Length
    ensures r == WrappedChecksum(buf[..], len)
    ensures len <= MAX_EXACT_LEN ==> r == InternetChecksum(buf[..], len)
  {
    var sum := Accumulate(buf, len);
    var s := sum / 0x1_0000 + sum % 0x1_0000;
    s := (s + s / 0x1_0000) % ACC_MOD;
    assert s % 0x1_0000 == FoldTwice(sum);
    FoldedComplement(buf[..], len, sum);
    r := (0xFFFF - s % 0x1_0000) as uint16;
  }

  // Layout of `struct icmp` as 16-bit words.

  /** Both tools send from a buffer of PACKET_SIZE bytes. */
  const PACKET_SIZE: int := 64
  const PACKET_WORDS: int := PACKET_SIZE / 2

  const ICMP_ECHOREPLY: int := 0
  const ICMP_ECHO: int := 8

  /** Word positions of the ICMP header fields. */
  const TYPE_CODE_WORD: int := 0
  const CKSUM_WORD: int := 1
  const ID_WORD: int := 2
  const SEQ_WORD: int := 3

  /** Word 0 holds `icmp_type` in its first byte and `icmp_code` in its second (little-endian). */
  function TypeCodeWord(icmpType: int, code: int): uint16
    requires 0 <= icmpType < 256 && 0 <= code < 256
  {
    (icmpType + 256 * code) as uint16
  }

  /** Assigning an `int` to a 16-bit header field keeps its low 16 bits. */
  function Truncate16(x: int): uint16
  {
    (x % 0x1_0000) as uint16
  }

  /** An echo request header: type ICMP_ECHO, code 0, and the 16-bit id and sequence number. */
  predicate IsEchoHeader(buf: seq<uint16>, seqNo: int, pid: int)
    requires |buf| >= 4
  {
    buf[TYPE_CODE_WORD] == TypeCodeWord(ICMP_ECHO, 0) && buf[ID_WORD] == Truncate16(pid) &&
    buf[SEQ_WORD] == Truncate16(seqNo)
  }
}
