/** The Internet checksum of icmpmgr4.cpp (section 1 of RFC 1071) and the echo
    request that carries it. */
module Checksum {
  import opened Bytes

  const MODULUS := 65535

  // --------------------------------------------------------- specification

  /** The 16-bit word at offset 2k, little-endian as the host reads it; an odd last byte stands alone. */
  function Word(data: seq<byte>, k: nat): (w: nat)
    requires 2 * k < |data|
    ensures w < 0x10000
  {
    var low: int := data[2 * k];
    var high: int := if 2 * k + 1 < |data| then data[2 * k + 1] else 0;
    low + 256 * high
  }

  function Words(data: seq<byte>): nat {
    (|data| + 1) / 2
  }

  /** The sum of the first n words. */
  function Sum(data: seq<byte>, n: nat): nat
    requires n <= Words(data)
  {
    if n == 0 then 0 else Sum(data, n - 1) + Word(data, n - 1)
  }

  function Total(data: seq<byte>): nat {
    Sum(data, Words(data))
  }

  /** A sum with end-around carry: its residue mod 65535, with 65535 for a non-zero multiple. */
  function OnesComplement(sum: nat): (r: nat)
    ensures r <= MODULUS && r % MODULUS == sum % MODULUS
    ensures r == 0 <==> sum == 0
  {
    if sum == 0 then 0 else (sum - 1) % MODULUS + 1
  }

  /** What the RFC asks for. */
  function Internet(data: seq<byte>): nat {
    MODULUS - OnesComplement(Total(data))
  }

  /** The code's two folds and complement. */
  function Folded(sum: nat): (r: nat)
    ensures r < 0x10000
  {
    var t := sum / 0x10000 + sum % 0x10000;
    0xFFFF - (t + t / 0x10000) % 0x10000
  }

  /** The data with word k overwritten. */
  function Stamped(data: seq<byte>, k: nat, w: nat): (r: seq<byte>)
    requires 2 * k + 1 < |data| && w < 0x10000
    ensures |r| == |data|
  {
    data[2 * k := w % 256][2 * k + 1 := w / 256]
  }

  // ------------------------------------------------------ the C functions

  method Compute(buffer: array<byte>, size: nat) returns (cksum: nat)
    requires size <= buffer.Length
    ensures cksum == Folded(Total(buffer[..size]))
  {
    var left, at := size, 0;
    var sum: nat := 0;
    ghost var data, k := buffer[..size], 0;
    while left > 1
      invariant at + left == size && left >= 0 && at == 2 * k && k >= 0
      invariant sum == Sum(data, k)
    {
      var low: int, high: int := buffer[at], buffer[at + 1];
      assert low + 256 * high == Word(data, k);
      sum := sum + (low + 256 * high);
      at, k := at + 2, k + 1;
      left := left - 2;
    }
    if left != 0 {
      var last: int := buffer[at];
      assert last == Word(data, k);
      sum := sum + last;
    }
    assert sum == Total(data);
    cksum := FoldAndComplement(sum);
  }

  /** The last three lines of Checksum. */
  method FoldAndComplement(total: nat) returns (cksum: nat)
    ensures cksum == Folded(total)
  {
    var sum := total / 0x10000 + total % 0x10000;
    sum := sum + sum / 0x10000;
    cksum := 0xFFFF - sum % 0x10000;
  }

  const HEADER_SIZE := 16
  const MAX_PACKET := 1024

  function LittleEndian(v: nat, n: nat): (bytes: seq<byte>)
    ensures |bytes| == n
  {
    if n == 0 then [] else [v % 256] + LittleEndian(v / 256, n - 1)
  }

  /** The echo request before its checksum is filled in: type 8, code 0, a zero checksum,
      identifier, sequence number, time stamp, and 'E' to the end. */
  function Request(ident: nat, seqno: nat, time: nat, size: nat): (packet: seq<byte>)
    requires size >= HEADER_SIZE
    ensures |packet| == size && packet[2] == packet[3] == 0
  {
    [8, 0, 0, 0] + LittleEndian(ident, 2) + LittleEndian(seqno, 2) + LittleEndian(time, 8)
    + seq(size - HEADER_SIZE, _ => 'E' as int)
  }

  /** SendTo: fills the buffer and returns the datagram handed to sendto. */
  method SendTo(ident: nat, seqno: nat, time: nat, data: array<byte>, size: nat) returns (sent: seq<byte>)
    requires 16 <= size <= data.Length && size <= 1024
    modifies data
    ensures var packet := Request(ident, seqno, time, size);
            && sent == Stamped(packet, 1, Internet(packet))
            && |sent| == size && sent[0] == 8 && sent[1] == 0
            && sent[4] == ident % 256 && sent[5] == ident / 256 % 256
            && sent[6] == seqno % 256 && sent[7] == seqno / 256 % 256
            && forall k :: 16 <= k < size ==> sent[k] == 0x45
    ensures Folded(Total(sent)) == 0
  {
    BuildRequest(ident, seqno, time, data, size);
    ghost var packet := Request(ident, seqno, time, size);
    var cksum := Compute(data, size);
    hide *;
    FoldFits(packet);
    StampVerifies(packet, 1);
    Store(data, 2, cksum, 2);
    sent := data[..size];
    assert sent[2..4] == data[2..4];
    assert forall k :: 0 <= k < size && (k < 2 || k >= 4) ==> sent[k] == packet[k];
    StampedBytes(packet, sent, cksum);
    FoldFits(sent);
    RequestIs(ident, seqno, time, size);
  }

  /** The echo request, byte by byte. */
  lemma RequestIs(ident: nat, seqno: nat, time: nat, size: nat)
    requires size >= HEADER_SIZE
    ensures var p := Request(ident, seqno, time, size);
            && p[0] == 8 && p[1] == 0
            && p[4] == ident % 256 && p[5] == ident / 256 % 256
            && p[6] == seqno % 256 && p[7] == seqno / 256 % 256
            && (forall k :: 16 <= k < size ==> p[k] == 0x45)
            && HEADER_SIZE == 16
  {
    assert LittleEndian(ident, 2) == [ident % 256, ident / 256 % 256];
    assert LittleEndian(seqno, 2) == [seqno % 256, seqno / 256 % 256];
    hide LittleEndian;
  }

  lemma StampedBytes(packet: seq<byte>, sent: seq<byte>, cksum: nat)
    requires |sent| == |packet| >= 4 && cksum < 0x10000
    requires sent[2..4] == LittleEndian(cksum, 2)
    requires forall k :: 0 <= k < |packet| && (k < 2 || k >= 4) ==> sent[k] == packet[k]
    ensures sent == Stamped(packet, 1, cksum)
  {
    assert LittleEndian(cksum, 2) == [cksum % 256, cksum / 256 % 256];
    assert sent[2] == sent[2..4][0] && sent[3] == sent[2..4][1];
  }

  /** The request with a zero checksum. */
  method BuildRequest(ident: nat, seqno: nat, time: nat, data: array<byte>, size: nat)
    requires HEADER_SIZE <= size <= data.Length
    modifies data
    ensures data[..size] == Request(ident, seqno, time, size)
  {
    FillData(ident, data, size);
    hide LittleEndian, Request;
    Store(data, 2, 0, 2);
    Store(data, 6, seqno, 2);
    assert data[2..4] == LittleEndian(0, 2) && data[4..6] == LittleEndian(ident, 2);
    Store(data, 8, time, 8);
    ghost var d := data[..size];
    assert data[2..4] == LittleEndian(0, 2) && data[4..6] == LittleEndian(ident, 2) && data[6..8] == LittleEndian(seqno, 2);
    assert d[..2] == data[..2] && d[2..4] == data[2..4] && d[4..6] == data[4..6] && d[6..8] == data[6..8] && d[8..16] == data[8..16];
    Assemble(d, ident, seqno, time, size);
  }

  lemma Assemble(d: seq<byte>, ident: nat, seqno: nat, time: nat, size: nat)
    requires |d| == size >= HEADER_SIZE
    requires d[..2] == [8, 0] && d[2..4] == LittleEndian(0, 2) && d[4..6] == LittleEndian(ident, 2)
    requires d[6..8] == LittleEndian(seqno, 2) && d[8..16] == LittleEndian(time, 8)
    requires forall k :: HEADER_SIZE <= k < size ==> d[k] == 'E' as int
    ensures d == Request(ident, seqno, time, size)
  {
    assert LittleEndian(0, 2) == [0, 0];
    assert d[2] == d[2..4][0] && d[3] == d[2..4][1] && d[0] == d[..2][0] && d[1] == d[..2][1];
    assert d == [8, 0, 0, 0] + d[4..6] + d[6..8] + d[8..16] + d[16..];
  }

  method FillData(ident: nat, data: array<byte>, size: nat)
    requires HEADER_SIZE <= size <= data.Length
    modifies data
    ensures data[..2] == [8, 0]
    ensures data[4..6] == LittleEndian(ident, 2)
    ensures forall k :: HEADER_SIZE <= k < size ==> data[k] == 'E' as int
  {
    data[0], data[1] := 8, 0;
    Store(data, 4, ident, 2);
    Store(data, 2, 0, 2);
    Store(data, 6, 0, 2);
    for k := HEADER_SIZE to size
      invariant data[0] == 8 && data[1] == 0 && data[4..6] == LittleEndian(ident, 2)
      invariant forall j :: HEADER_SIZE <= j < k ==> data[j] == 'E' as int
    {
      data[k] := 'E' as int;
    }
  }

  /** Storing an n-byte field. */
  method Store(data: array<byte>, at: nat, v: nat, n: nat)
    requires at + n <= data.Length
    modifies data
    ensures forall k :: 0 <= k < at || at + n <= k < data.Length ==> data[k] == old(data[k])
    ensures data[at..at + n] == LittleEndian(v, n)
    decreases n
  {
    if n > 0 {
      data[at] := v % 256;
      Store(data, at + 1, v / 256, n - 1);
      assert data[at..at + n] == [v % 256] + data[at + 1..at + n];
    }
  }

  // ------------------------------------------------------------------ laws

  /** The sum, two bytes at a time, the low one first; an odd last byte counts alone. */
  lemma TotalIs(data: seq<byte>, a: byte, b: byte)
    requires |data| % 2 == 0
    ensures Total([]) == 0
    ensures Total(data + [a]) == Total(data) + a as int
    ensures Total(data + [a, b]) == Total(data) + a as int + 256 * (b as int)
  {
    var n := |data| / 2;
    SumPrefix(data, data + [a], n);
    SumPrefix(data, data + [a, b], n);
    assert Words(data) == n && Words(data + [a]) == n + 1 && Words(data + [a, b]) == n + 1;
    assert Word(data + [a], n) == a as int && Word(data + [a, b], n) == a as int + 256 * (b as int);
  }

  lemma {:induction false} SumPrefix(data: seq<byte>, longer: seq<byte>, n: nat)
    requires data <= longer && 2 * n <= |data|
    ensures Sum(data, n) == Sum(longer, n)
  {
    if n > 0 {
      SumPrefix(data, longer, n - 1);
      assert data[2 * n - 2] == longer[2 * n - 2] && data[2 * n - 1] == longer[2 * n - 1];
    }
  }

  /** The complement of the end-around-carry sum is the only 16-bit number that completes
      the sum to a multiple of 65535, apart from zero. */
  lemma InternetExact(data: seq<byte>, c: nat)
    requires 0 < c < 65535
    ensures Internet(data) == c <==> (Total(data) + c) % 65535 == 0
  {
    InternetIs(data);
    hide Total, Internet;
    Complements(Total(data), c);
  }

  lemma Complements(sum: nat, c: nat)
    requires 0 < c < 65535
    ensures MODULUS - OnesComplement(sum) == c <==> (sum + c) % 65535 == 0
  {
    var q, r := sum / 65535, sum % 65535;
    assert sum == 65535 * q + r;
  }

  lemma FoldOnce(sum: nat)
    ensures OnesComplement(sum / 0x10000 + sum % 0x10000) == OnesComplement(sum)
  {
    var h, l := sum / 0x10000, sum % 0x10000;
    assert sum == MODULUS * h + (h + l);
    Wrap(h + l, h);
  }

  lemma Wrap(a: nat, q: nat)
    ensures OnesComplement(MODULUS * q + a) == OnesComplement(a) || a == 0
  {
  }

  /** Two folds suffice exactly when the second does not carry again (for any sum an
      int-sized buffer can have). */
  lemma FoldExact(sum: nat)
    requires sum < 0x4000_0000_0000
    ensures var t := sum / 0x10000 + sum % 0x10000;
            Folded(sum) == MODULUS - OnesComplement(sum) <==> t / 0x10000 + t % 0x10000 < 0x10000
  {
    var t := sum / 0x10000 + sum % 0x10000;
    var u := t / 0x10000 + t % 0x10000;
    FoldOnce(sum);
    FoldOnce(t);
    SecondFold(t);
    assert Folded(sum) == 0xFFFF - u % 0x10000;
    hide Folded, OnesComplement;
    LowHalf(u);
  }

  lemma SecondFold(t: nat)
    ensures (t + t / 0x10000) % 0x10000 == (t / 0x10000 + t % 0x10000) % 0x10000
  {
    var h, l := t / 0x10000, t % 0x10000;
    assert t + h == 0x10000 * h + (h + l);
  }

  /** Sixteen bits of a small sum are its end-around-carry sum exactly if it fits them. */
  lemma LowHalf(u: nat)
    requires u < 0x1_4002
    ensures u % 0x10000 == OnesComplement(u) <==> u < 0x10000
  {
  }

  lemma {:induction false} SumBound(data: seq<byte>, n: nat)
    requires n <= Words(data)
    ensures Sum(data, n) <= 0xFFFF * n
  {
    if n > 0 {
      SumBound(data, n - 1);
    }
  }

  const LONGEST := 131076

  /** Every buffer of up to 131076 bytes is checksummed correctly. */
  lemma FoldFits(data: seq<byte>)
    requires |data| <= LONGEST
    ensures Folded(Total(data)) == Internet(data)
  {
    var sum := Total(data);
    SumBound(data, Words(data));
    assert sum <= 0xFFFF * 65538;
    FoldCarries(sum);
    FoldExact(sum);
  }

  /** The second fold carries on no sum below 0x1_0000_FFFF. */
  lemma FoldCarries(sum: nat)
    requires sum < 0x1_0000_FFFF
    ensures var t := sum / 0x10000 + sum % 0x10000;
            t / 0x10000 + t % 0x10000 < 0x10000
  {
    var h, l := sum / 0x10000, sum % 0x10000;
    assert h <= 0x10000 && (h == 0x10000 ==> l < 0xFFFF);
  }

  /** 65538 words of all ones, a byte of one, and zeros. */
  function Worst(n: nat): (data: seq<byte>)
    ensures |data| == n
  {
    seq(n, k => if k < LONGEST then 255 else if k == LONGEST then 1 else 0)
  }

  lemma {:induction false} WorstSum(n: nat, w: nat)
    requires n > LONGEST && w <= Words(Worst(n))
    ensures Sum(Worst(n), w) == if w <= 65538 then 0xFFFF * w else 0x1_0000_FFFF
  {
    if w > 0 {
      WorstSum(n, w - 1);
      WorstWord(n, w - 1);
    }
  }

  lemma WorstWord(n: nat, k: nat)
    requires n > LONGEST && 2 * k < n
    ensures Word(Worst(n), k) == if k < 65538 then 0xFFFF else if k == 65538 then 1 else 0
  {
  }

  /** Any longer buffer can fail: the sum of this one carries out of sixteen bits twice. */
  lemma FoldFails(n: nat)
    requires n > LONGEST
    ensures Total(Worst(n)) == 0x1_0000_FFFF
    ensures Folded(Total(Worst(n))) == 0xFFFF && Internet(Worst(n)) == 0xFFFE
  {
    WorstSum(n, Words(Worst(n)));
    assert OnesComplement(0x1_0000_FFFF) == 1;
  }

  ghost predicate AlwaysRight(n: nat) {
    forall data: seq<byte> :: |data| == n ==> Folded(Total(data)) == Internet(data)
  }

  /** The checksum is right on all buffers of a size exactly up to 131076 bytes. */
  lemma FoldBound(n: nat)
    ensures AlwaysRight(n) <==> n <= LONGEST
  {
    hide Folded, Total, Internet, Worst;
    if n <= LONGEST {
      forall data: seq<byte> | |data| == n ensures Folded(Total(data)) == Internet(data) {
        FoldFits(data);
      }
    } else {
      FoldFails(n);
      assert |Worst(n)| == n && Folded(Total(Worst(n))) != Internet(Worst(n));
    }
  }

  lemma {:induction false} StampSum(data: seq<byte>, k: nat, w: nat, n: nat)
    requires 2 * k + 1 < |data| && w < 0x10000 && n <= Words(data)
    ensures Sum(Stamped(data, k, w), n) == Sum(data, n) + if k < n then w - Word(data, k) else 0
  {
    if n > 0 {
      StampSum(data, k, w, n - 1);
    }
  }

  /** Filling a zero checksum word makes the whole verify. */
  lemma StampVerifies(data: seq<byte>, k: nat)
    requires 2 * k + 1 < |data| && Word(data, k) == 0
    ensures Internet(Stamped(data, k, Internet(data))) == 0
  {
    var sum, c := Total(data), Internet(data);
    StampSum(data, k, c, Words(data));
    InternetIs(data);
    InternetIs(Stamped(data, k, c));
    assert Total(Stamped(data, k, c)) == sum + c;
    hide *;
    Multiple(sum);
  }

  lemma InternetIs(data: seq<byte>)
    ensures Internet(data) == MODULUS - OnesComplement(Total(data))
  {
  }

  /** Replacing the residue by a whole 65535 gives a non-zero multiple of 65535. */
  lemma Multiple(sum: nat)
    ensures var total := sum - OnesComplement(sum) + MODULUS;
            total >= 0 && OnesComplement(total) == MODULUS
  {
    if sum > 0 {
      var q := (sum - 1) / MODULUS;
      assert sum - OnesComplement(sum) == MODULUS * q;
    }
  }

  /** A verifying packet with one word changed still verifies only if the change is
      between the two zeros of one's complement. */
  lemma OneWordDetected(data: seq<byte>, k: nat, w: nat)
    requires 2 * k + 1 < |data| && w < 0x10000
    requires Internet(data) == 0 && Internet(Stamped(data, k, w)) == 0
    ensures w == Word(data, k) || {w, Word(data, k)} == {0, 0xFFFF}
  {
    var a, b, v := Total(data), Total(Stamped(data, k, w)), Word(data, k);
    StampSum(data, k, w, Words(data));
    assert a % MODULUS == 0 && b % MODULUS == 0 && b - a == w - v;
    hide *;
    MultiplesApart(a, b, w, v);
  }

  lemma MultiplesApart(a: nat, b: nat, w: nat, v: nat)
    requires w < 0x10000 && v < 0x10000 && b - a == w - v
    requires a % MODULUS == 0 && b % MODULUS == 0
    ensures w == v || {w, v} == {0, 0xFFFF}
  {
    var q := b / MODULUS - a / MODULUS;
    assert w - v == MODULUS * q;
    assert -1 <= q <= 1;
  }
}
