/**
 The Internet checksum as computed in kernel-src/io/net/ipv4.c and kernel-src/io/net/tcp.c:
 16-bit big-endian words are accumulated in a 32-bit sum, which is folded twice and
 complemented. The reference is the ones-complement sum of RFC 1071, section 1.
 */
module Checksums {
  import opened Arith
  import opened Common
  import opened RingBuffers

  type word = w: int | 0 <= w < 0x1_0000

  /** How a byte without a partner is counted: RFC 1071 and tcp.c put it in the high half of a
      word, ipv4.c in the low half. */
  datatype OddByte = High | Low

  function OddWord(b: byte, odd: OddByte): (w: word) {
    var n: int := b; if odd == High then n * 256 else n
  }

  /** The big-endian words of a buffer. */
  function Words(s: seq<byte>, odd: OddByte): (ws: seq<word>) {
    if s == [] then []
    else if |s| == 1 then [OddWord(s[0], odd)]
    else [WordAt(s, 0)] + Words(s[2..], odd)
  }

  function WordAt(s: seq<byte>, i: nat): (w: word)
    requires i + 1 < |s|
  {
    var hi: int, lo: int := s[i], s[i + 1];
    hi * 256 + lo
  }

  function Sum(ws: seq<word>): (n: nat) {
    if ws == [] then 0 else ws[0] + Sum(ws[1..])
  }

  /** Ones-complement addition: the carry out of bit 15 is added back. */
  function OnesAdd(a: word, b: word): (c: word) {
    if a + b < 0x1_0000 then a + b else a + b - 0xffff
  }

  function OnesSum(ws: seq<word>): (c: word) {
    if ws == [] then 0 else OnesAdd(ws[0], OnesSum(ws[1..]))
  }

  /** The two folds of a 32-bit accumulator, cut to 16 bits. */
  function Folded(sum: nat): (w: word) {
    var once := sum / 0x1_0000 + sum % 0x1_0000;
    (once + once / 0x1_0000) % 0x1_0000
  }

  /** The nonzero representative modulo 65535 of a positive number. */
  function Ones(n: nat): (w: word) {
    if n == 0 then 0 else (n - 1) % 0xffff + 1
  }

  function Checksum(ws: seq<word>): (w: word) {
    0xffff - Folded(Sum(ws))
  }

  /** Two folds suffice for every 32-bit accumulator. */
  lemma TwoFoldsSuffice(sum: nat)
    requires sum < 0x1_0000_0000
    ensures Folded(sum) == Ones(sum)
  {
    var once := sum / 0x1_0000 + sum % 0x1_0000;
    assert sum == once + (sum / 0x1_0000) * 0xffff;
    if once != 0 {
      var r := if once < 0x1_0000 then once - 1 else once - 0x1_0000;
      assert sum - 1 == (sum / 0x1_0000 + (if once < 0x1_0000 then 0 else 1)) * 0xffff + r;
    }
  }

  lemma {:induction false} OnesSumIsOnes(ws: seq<word>)
    ensures OnesSum(ws) == Ones(Sum(ws))
  {
    if ws != [] {
      OnesSumIsOnes(ws[1..]);
      OnesOfSum(ws[0], Sum(ws[1..]));
    }
  }

  lemma OnesOfSum(w: word, n: nat)
    ensures OnesAdd(w, Ones(n)) == Ones(w + n)
  {
  }

  /** Accumulating, folding twice and complementing is the RFC 1071 checksum. */
  lemma ChecksumIsOnesSum(ws: seq<word>)
    requires Sum(ws) < 0x1_0000_0000
    ensures Checksum(ws) == 0xffff - OnesSum(ws)
  {
    TwoFoldsSuffice(Sum(ws));
    OnesSumIsOnes(ws);
  }

  lemma {:induction false} SumBound(ws: seq<word>)
    ensures Sum(ws) <= 0xffff * |ws|
  {
    if ws != [] { SumBound(ws[1..]); }
  }

  lemma {:induction false} SumUpdate(ws: seq<word>, i: nat, w: word)
    requires i < |ws|
    ensures Sum(ws[i := w]) == Sum(ws) - ws[i] + w
  {
    if i == 0 {
      assert ws[0 := w][1..] == ws[1..];
    } else {
      assert ws[i := w][1..] == ws[1..][i - 1 := w];
      SumUpdate(ws[1..], i - 1, w);
    }
  }

  /** Verification succeeds exactly for positive multiples of 65535. */
  lemma ZeroChecksum(ws: seq<word>)
    requires Sum(ws) < 0x1_0000_0000
    ensures Checksum(ws) == 0 <==> 0 < Sum(ws) && Sum(ws) % 0xffff == 0
  {
    TwoFoldsSuffice(Sum(ws));
    OnesFull(Sum(ws));
  }

  lemma OnesFull(n: nat)
    ensures Ones(n) == 0xffff <==> 0 < n && n % 0xffff == 0
  {
    if 0 < n {
      var q, r := (n - 1) / 0xffff, (n - 1) % 0xffff;
      assert n == q * 0xffff + (r + 1);
      if r == 0xfffe {
        DivModUnique(n, 0xffff, q + 1, 0);
      } else {
        DivModUnique(n, 0xffff, q, r + 1);
      }
    }
  }

  /** Storing the checksum of a buffer whose checksum word is zero makes verification succeed. */
  lemma RoundTrip(ws: seq<word>, field: nat)
    requires field < |ws| && ws[field] == 0 && 0xffff * |ws| < 0x1_0000_0000
    ensures Checksum(ws[field := Checksum(ws)]) == 0
  {
    var c := Checksum(ws);
    SumBound(ws);
    SumBound(ws[field := c]);
    SumUpdate(ws, field, c);
    TwoFoldsSuffice(Sum(ws));
    ZeroChecksum(ws[field := c]);
    ComplementCancels(Sum(ws));
  }

  lemma ComplementCancels(n: nat)
    ensures 0 < n + (0xffff - Ones(n)) && (n + (0xffff - Ones(n))) % 0xffff == 0
  {}

  lemma ShiftedMultiple(n: nat, d: int)
    requires n % 0xffff == 0 && 0 <= n + d
    ensures (n + d) % 0xffff == 0 <==> d % 0xffff == 0
  {}

  /** Changing one word of a buffer that verifies goes unnoticed exactly when the change is a
      multiple of 65535 and leaves a nonzero word somewhere. */
  lemma OneWordChange(ws: seq<word>, i: nat, w: word)
    requires i < |ws| && 0xffff * |ws| < 0x1_0000_0000 && Checksum(ws) == 0
    ensures Checksum(ws[i := w]) == 0 <==> (w - ws[i]) % 0xffff == 0 && 0 < Sum(ws[i := w])
  {
    SumBound(ws);
    SumBound(ws[i := w]);
    SumUpdate(ws, i, w);
    ZeroChecksum(ws);
    ZeroChecksum(ws[i := w]);
    ShiftedMultiple(Sum(ws), w - ws[i]);
  }

  lemma {:induction false} WordsConcat(a: seq<byte>, b: seq<byte>, odd: OddByte)
    requires |a| % 2 == 0
    ensures Words(a + b, odd) == Words(a, odd) + Words(b, odd)
    decreases |a|
  {
    if a == [] {
      assert a + b == b;
    } else {
      assert (a + b)[2..] == a[2..] + b;
      WordsConcat(a[2..], b, odd);
    }
  }

  lemma {:induction false} SumConcat(a: seq<word>, b: seq<word>)
    ensures Sum(a + b) == Sum(a) + Sum(b)
  {
    if a == [] {
      assert a + b == b;
    } else {
      assert (a + b)[1..] == a[1..] + b;
      SumConcat(a[1..], b);
    }
  }

  lemma {:induction false} WordCount(s: seq<byte>, odd: OddByte)
    ensures |Words(s, odd)| == (|s| + 1) / 2
    decreases |s|
  {
    if |s| > 1 { WordCount(s[2..], odd); }
  }

  /** One more word read from a buffer. */
  lemma SumStep(s: seq<byte>, i: nat, odd: OddByte)
    requires i % 2 == 0
    ensures i + 1 < |s| ==> Sum(Words(s[..i + 2], odd)) == Sum(Words(s[..i], odd)) + WordAt(s, i)
    ensures i + 1 == |s| ==> Sum(Words(s, odd)) == Sum(Words(s[..i], odd)) + OddWord(s[i], odd)
  {
    if i + 1 < |s| {
      var rest := s[i..i + 2];
      assert s[..i + 2] == s[..i] + rest;
      WordsConcat(s[..i], rest, odd);
      assert rest[2..] == [];
      assert Words(rest, odd) == [WordAt(s, i)];
      SumConcat(Words(s[..i], odd), Words(rest, odd));
      assert Sum([WordAt(s, i)]) == WordAt(s, i);
    } else if i + 1 == |s| {
      assert s == s[..i] + [s[i]];
      WordsConcat(s[..i], [s[i]], odd);
      SumConcat(Words(s[..i], odd), Words([s[i]], odd));
      assert Sum([OddWord(s[i], odd)]) == OddWord(s[i], odd);
    }
  }

  /** The low byte sum is the RFC 1071 sum exactly if there is no byte without a partner, or it is zero. */
  lemma OddByteExact(s: seq<byte>)
    ensures OnesSum(Words(s, Low)) == OnesSum(Words(s, High)) <==> |s| % 2 == 0 || s[|s| - 1] == 0
  {
    hide Words, Sum, OnesSum, Ones;
    OnesSumIsOnes(Words(s, Low));
    OnesSumIsOnes(Words(s, High));
    if |s| % 2 == 0 {
      EvenWords(s);
    } else {
      OddSums(s);
      OnesApart(Sum(Words(s[..|s| - 1], High)), s[|s| - 1]);
    }
  }

  lemma OddSums(s: seq<byte>)
    requires |s| % 2 == 1
    ensures var n := Sum(Words(s[..|s| - 1], High));
            Sum(Words(s, Low)) == n + s[|s| - 1] && Sum(Words(s, High)) == n + 256 * s[|s| - 1] as int
  {
    hide Words, Sum;
    var i := |s| - 1;
    EvenWords(s[..i]);
    SumStep(s, i, Low);
    SumStep(s, i, High);
  }

  lemma {:induction false} EvenWords(s: seq<byte>)
    requires |s| % 2 == 0
    ensures Words(s, Low) == Words(s, High)
    decreases |s|
  {
    if s != [] { EvenWords(s[2..]); }
  }

  lemma OnesApart(n: nat, b: byte)
    ensures Ones(n + b) == Ones(n + 256 * b as int) <==> b == 0
  {
    if b != 0 {
      var q, r := (n + b - 1) / 0xffff, (n + b - 1) % 0xffff;
      assert n + 256 * b as int - 1 == q * 0xffff + r + b * 255;
    }
  }

  /** Three bytes whose sums differ: 1 and 256. */
  lemma OddByteDiffers()
    ensures OnesSum(Words([0, 0, 1], Low)) == 1 && OnesSum(Words([0, 0, 1], High)) == 256
  {
    assert [0, 0, 1][2..] == [1];
    assert forall odd: OddByte {:trigger Words([0, 0, 1], odd)} :: Words([0, 0, 1], odd)[1..] == [OddWord(1, odd)];
  }

  lemma SumOfBoth(a: seq<byte>, b: seq<byte>, odd: OddByte)
    requires |a| % 2 == 0
    ensures Sum(Words(a + b, odd)) == Sum(Words(a, odd)) + Sum(Words(b, odd))
  {
    WordsConcat(a, b, odd);
    SumConcat(Words(a, odd), Words(b, odd));
  }

  /** Stores a word big-endian, as cpu_to_be_w does on a little-endian machine. */
  function Store(s: seq<byte>, i: nat, w: word): (r: seq<byte>)
    requires i + 1 < |s|
    ensures |r| == |s|
  {
    s[i := w / 256][i + 1 := w % 256]
  }

  lemma {:induction false} WordsStore(s: seq<byte>, i: nat, w: word, odd: OddByte)
    requires i % 2 == 0 && i + 1 < |s|
    ensures i / 2 < |Words(s, odd)|
    ensures Words(Store(s, i, w), odd) == Words(s, odd)[i / 2 := w]
    decreases i
  {
    WordCount(s, odd);
    if i == 0 {
      assert Store(s, 0, w)[2..] == s[2..];
    } else {
      assert Store(s, i, w)[2..] == Store(s[2..], i - 2, w);
      WordsStore(s[2..], i - 2, w, odd);
    }
  }

  lemma {:induction false} WordOf(s: seq<byte>, i: nat, odd: OddByte)
    requires i % 2 == 0 && i + 1 < |s|
    ensures i / 2 < |Words(s, odd)| && Words(s, odd)[i / 2] == WordAt(s, i)
    decreases i
  {
    WordCount(s, odd);
    if i > 0 { WordOf(s[2..], i - 2, odd); }
  }

  /** Filling in the checksum field of a message makes the receiver's check yield zero: the
      IPv4 header (field at byte 10) and a TCP segment behind its pseudo header (byte 28). */
  lemma FilledInMessageVerifies(s: seq<byte>, field: nat, odd: OddByte)
    requires field % 2 == 0 && field + 1 < |s| <= 12 + 0xffff && s[field] == s[field + 1] == 0
    ensures var ws := Words(s, odd);
            Checksum(Words(Store(s, field, Checksum(ws)), odd)) == 0
  {
    var ws := Words(s, odd);
    WordOf(s, field, odd);
    WordCount(s, odd);
    WordsStore(s, field, Checksum(ws), odd);
    RoundTrip(ws, field / 2);
  }

  /** The accumulating loops: whole words, then an odd byte. The accumulator stays below the
      given width for every buffer of at most 65547 bytes, a pseudo header and a segment. */
  method Accumulate(buffer: seq<byte>, odd: OddByte) returns (sum: nat)
    requires |buffer| <= 12 + 0xffff
    ensures sum == Sum(Words(buffer, odd)) < 0x1_0000_0000
    ensures |buffer| <= 0xffff ==> sum < 0x8000_0000
  {
    AccumulatorFits(buffer, odd);
    sum := 0;
    var i := 0;
    while i + 1 < |buffer|
      invariant 0 <= i <= |buffer| && i % 2 == 0
      invariant sum == Sum(Words(buffer[..i], odd))
    {
      SumStep(buffer, i, odd);
      sum := sum + WordAt(buffer, i);
      i := i + 2;
    }
    if i < |buffer| {
      SumStep(buffer, i, odd);
      sum := sum + OddWord(buffer[i], odd);
    } else {
      assert buffer[..i] == buffer;
    }
  }

  /** ipv4.c: the accumulator is a signed int, which a buffer of up to 65535 bytes never
      overflows. The result is the RFC 1071 checksum exactly if there is no byte without a partner, or
      it is zero; the header that it is called for has 20 bytes. */
  method Ipv4Checksum(buffer: seq<byte>) returns (r: word)
    requires |buffer| <= 0xffff
    ensures r == 0xffff - OnesSum(Words(buffer, Low))
    ensures r == 0xffff - OnesSum(Words(buffer, High)) <==> |buffer| % 2 == 0 || buffer[|buffer| - 1] == 0
  {
    OddByteExact(buffer);
    var sum := Accumulate(buffer, Low);
    assert sum < 0x8000_0000;
    ChecksumIsOnesSum(Words(buffer, Low));
    r := 0xffff - Folded(sum);
  }

  /** tcp.c: pseudo header, header and data are summed one after the other, the header being a
      multiple of four bytes long. */
  method TcpChecksum(pseudo: seq<byte>, packet: seq<byte>, headerlen: nat) returns (r: word)
    requires |pseudo| == 12 && headerlen % 4 == 0 && headerlen <= |packet| <= 0xffff
    ensures r == 0xffff - OnesSum(Words(pseudo + packet, High))
  {
    var sum0 := Accumulate(pseudo, High);
    var sum1 := Accumulate(packet[..headerlen], High);
    var sum2 := Accumulate(packet[headerlen..], High);
    var sum := sum0 + sum1 + sum2;
    SegmentSum(pseudo, packet, headerlen);
    assert sum < 0x1_0000_0000;
    ChecksumIsOnesSum(Words(pseudo + packet, High));
    r := 0xffff - Folded(sum);
  }

  lemma SegmentSum(pseudo: seq<byte>, packet: seq<byte>, headerlen: nat)
    requires |pseudo| == 12 && headerlen % 4 == 0 && headerlen <= |packet| <= 0xffff
    ensures Sum(Words(pseudo, High)) + Sum(Words(packet[..headerlen], High)) + Sum(Words(packet[headerlen..], High))
         == Sum(Words(pseudo + packet, High)) < 0x1_0000_0000
  {
    var header, data := packet[..headerlen], packet[headerlen..];
    assert packet == header + data;
    SumOfBoth(header, data, High);
    SumOfBoth(pseudo, packet, High);
    AccumulatorFits(pseudo + packet, High);
  }

  lemma AccumulatorFits(s: seq<byte>, odd: OddByte)
    requires |s| <= 12 + 0xffff
    ensures Sum(Words(s, odd)) < 0x1_0000_0000
    ensures |s| <= 0xffff ==> Sum(Words(s, odd)) < 0x8000_0000
  {
    WordCount(s, odd);
    SumBound(Words(s, odd));
  }
}
