/** The Internet checksum of RFC 1071 as the port scanner computes it, and the TCP packet it protects. */
module Checksum {

  newtype byte = x | 0 <= x < 256

  const WORD := 0x1_0000
  const MAX_WORD := 0xFFFF
  const WRAP := 0x1_0000_0000

  /** The most words a 32-bit sum can take without wrapping. */
  const MAX_WORDS := 65537

  /** Two bytes of memory as a little-endian host reads them. */
  function WordOf(a: byte, b: byte): (w: nat)
    ensures w <= MAX_WORD
  {
    a as nat + 256 * b as nat
  }

  // Word i of a buffer; an odd last byte is one by itself.
  function WordAt(buf: seq<byte>, i: nat): (w: nat)
    requires 2 * i < |buf|
    ensures w <= MAX_WORD
  {
    if 2 * i + 1 < |buf| then WordOf(buf[2 * i], buf[2 * i + 1]) else buf[2 * i] as nat
  }

  /** The words of a buffer. */
  function Words(buf: seq<byte>): (ws: seq<nat>)
    ensures |ws| == (|buf| + 1) / 2 && Fit(ws)
  {
    seq((|buf| + 1) / 2, i requires 0 <= i < (|buf| + 1) / 2 => WordAt(buf, i))
  }

  /** An odd last byte counts as if a zero stood behind it (RFC 1071). */
  lemma OddIsPadded(buf: seq<byte>)
    requires |buf| % 2 == 1
    ensures Words(buf) == Words(buf + [0])
  {
    var padded := buf + [0];
    assert |padded| == |buf| + 1 && (|padded| + 1) / 2 == (|buf| + 1) / 2;
    forall i | 0 <= i < (|buf| + 1) / 2
      ensures WordAt(padded, i) == WordAt(buf, i)
    {
      assert 2 * i < |buf| && padded[2 * i] == buf[2 * i];
      assert 2 * i + 1 < |buf| ==> padded[2 * i + 1] == buf[2 * i + 1];
      assert 2 * i + 1 >= |buf| ==> padded[2 * i + 1] == 0;
    }
  }

  predicate Fit(ws: seq<nat>) {
    forall i | 0 <= i < |ws| :: ws[i] <= MAX_WORD
  }

  function Sum(ws: seq<nat>): nat {
    if ws == [] then 0 else Sum(ws[..|ws| - 1]) + ws[|ws| - 1]
  }

  /** Addition of two 32-bit values. */
  function Add32(a: nat, b: nat): nat {
    if a + b >= WRAP then a + b - WRAP else a + b
  }

  function Sum32(ws: seq<nat>): (s: nat)
    requires Fit(ws)
    ensures s < WRAP
  {
    if ws == [] then 0 else Add32(Sum32(ws[..|ws| - 1]), ws[|ws| - 1])
  }

  /** As many words as 32 bits can count never wrap. */
  lemma {:induction false} Sum32IsSum(ws: seq<nat>)
    requires Fit(ws) && |ws| <= MAX_WORDS
    ensures Sum32(ws) == Sum(ws) <= |ws| * MAX_WORD
  {
    if ws != [] {
      Sum32IsSum(ws[..|ws| - 1]);
    }
  }

  // ---------- one's complement arithmetic, the reference ----------

  /** Addition with the carry brought round. */
  function Plus(a: nat, b: nat): nat {
    if a + b > MAX_WORD then a + b - MAX_WORD else a + b
  }

  function OnesSum(ws: seq<nat>): (s: nat)
    requires Fit(ws)
    ensures s <= MAX_WORD
  {
    if ws == [] then 0 else Plus(OnesSum(ws[..|ws| - 1]), ws[|ws| - 1])
  }

  /** The checksum of RFC 1071: the complement of the one's complement sum. */
  function Checksum(ws: seq<nat>): (c: nat)
    requires Fit(ws)
    ensures c <= MAX_WORD
  {
    MAX_WORD - OnesSum(ws)
  }

  // ---------- the program's sum and folds ----------

  function Fold(s: nat): (r: nat)
    ensures r < WORD
  {
    var once := s / WORD + s % WORD;
    (once + once / WORD) % WORD
  }

  /** What two folds make of any 32-bit sum. */
  function Reduced(s: nat): nat {
    if s == 0 then 0 else (s - 1) % MAX_WORD + 1
  }

  lemma FoldReduces(s: nat)
    requires s < WRAP
    ensures Fold(s) == Reduced(s)
  {
    var h, l := s / WORD, s % WORD;
    assert s == MAX_WORD * h + (h + l);
    if s != 0 {
      var once := h + l;
      if once <= MAX_WORD {
        assert (s - 1) == MAX_WORD * h + (once - 1);
      } else {
        assert (s - 1) == MAX_WORD * (h + 1) + (once - 1 - MAX_WORD);
      }
    }
  }

  lemma PlusReduces(s: nat, w: nat)
    requires w <= MAX_WORD
    ensures Plus(Reduced(s), w) == Reduced(s + w)
  {
    if s != 0 {
      var q, r := (s - 1) / MAX_WORD, (s - 1) % MAX_WORD;
      assert s - 1 == MAX_WORD * q + r;
      if r + w < MAX_WORD {
        assert s + w - 1 == MAX_WORD * q + (r + w);
      } else if r + w < 2 * MAX_WORD {
        assert s + w - 1 == MAX_WORD * (q + 1) + (r + w - MAX_WORD);
      }
    }
  }

  lemma {:induction false} OnesSumReduces(ws: seq<nat>)
    requires Fit(ws)
    ensures OnesSum(ws) == Reduced(Sum(ws))
  {
    if ws != [] {
      var first := ws[..|ws| - 1];
      OnesSumReduces(first);
      PlusReduces(Sum(first), ws[|ws| - 1]);
    }
  }

  // ---------- the loop ----------

  lemma NextWord(buf: seq<byte>, i: nat)
    requires i % 2 == 0 && i < |buf|
    ensures i + 1 < |buf| ==> Sum32(Words(buf[..i + 2])) == Add32(Sum32(Words(buf[..i])), WordOf(buf[i], buf[i + 1]))
    ensures i + 1 == |buf| ==> Sum32(Words(buf)) == Add32(Sum32(Words(buf[..i])), buf[i] as nat)
  {
    var end := if i + 1 < |buf| then i + 2 else |buf|;
    var ws := Words(buf[..end]);
    assert |ws| == i / 2 + 1 && ws[i / 2] == WordAt(buf, i / 2);
    assert ws[..i / 2] == Words(buf[..i]);
    assert buf[..|buf|] == buf;
  }

  /** What calculate_tcpcsum reads: nothing when pktlen is not positive. */
  function Prefix(buf: seq<byte>, pktlen: int): seq<byte>
    requires pktlen <= |buf|
  {
    if pktlen < 0 then [] else buf[..pktlen]
  }

  /** calculate_tcpcsum, its sum held in 32 bits: the RFC's checksum whenever the words are not too many. */
  method CalculateTcpCsum(buf: seq<byte>, pktlen: int) returns (csum: nat)
    requires pktlen <= |buf|
    ensures csum == MAX_WORD - Fold(Sum32(Words(Prefix(buf, pktlen))))
    ensures pktlen <= 2 * MAX_WORDS ==> csum == Checksum(Words(Prefix(buf, pktlen)))
  {
    var sum, ptr, len := 0, 0, pktlen;
    ghost var read := Prefix(buf, pktlen);
    while len > 1
      invariant 0 <= ptr <= |read| && ptr % 2 == 0
      invariant if pktlen < 0 then len < 0 else ptr + len == pktlen
      invariant sum == Sum32(Words(read[..ptr]))
    {
      NextWord(read, ptr);
      assert read[ptr] == buf[ptr] && read[ptr + 1] == buf[ptr + 1];
      sum := Add32(sum, WordOf(buf[ptr], buf[ptr + 1]));
      ptr := ptr + 2;
      len := len - 2;
    }
    if len == 1 {
      NextWord(read, ptr);
      assert read[ptr] == buf[ptr];
      sum := Add32(sum, buf[ptr] as nat);
    } else {
      assert read[..ptr] == read;
    }
    csum := FoldAndComplement(sum);
    if pktlen <= 2 * MAX_WORDS {
      FoldIsChecksum(Words(read));
    }
  }

  method FoldAndComplement(sum: nat) returns (csum: nat)
    requires sum < WRAP
    ensures csum == MAX_WORD - Fold(sum)
  {
    var folded := sum / WORD + sum % WORD;
    folded := folded + folded / WORD;
    csum := (WRAP - 1 - folded) % WORD;
  }

  lemma FoldIsChecksum(ws: seq<nat>)
    requires Fit(ws) && |ws| <= MAX_WORDS
    ensures MAX_WORD - Fold(Sum32(ws)) == Checksum(ws)
  {
    Sum32IsSum(ws);
    OnesSumReduces(ws);
    FoldReduces(Sum(ws));
  }

  // ---------- how long a buffer may be ----------

  // n words, all ones as far as one too many for 32 bits.
  function Ones(n: nat): (ws: seq<nat>)
    ensures |ws| == n && Fit(ws)
  {
    seq(n, i requires 0 <= i < n => if i <= MAX_WORDS then MAX_WORD else 0)
  }

  lemma {:induction false} OnesSums(n: nat)
    ensures Sum32(Ones(n)) == if n <= MAX_WORDS then n * MAX_WORD else MAX_WORD - 1
    ensures OnesSum(Ones(n)) == if n == 0 then 0 else MAX_WORD
  {
    if n > 0 {
      OnesSums(n - 1);
      assert Ones(n)[..n - 1] == Ones(n - 1);
    }
  }

  /** The result is the RFC's for every buffer of n words exactly when n is at most 65537. */
  lemma RightExactly(n: nat)
    ensures (forall ws | |ws| == n && Fit(ws) :: MAX_WORD - Fold(Sum32(ws)) == Checksum(ws)) <==> n <= MAX_WORDS
  {
    if n <= MAX_WORDS {
      forall ws | |ws| == n && Fit(ws)
        ensures MAX_WORD - Fold(Sum32(ws)) == Checksum(ws)
      {
        FoldIsChecksum(ws);
      }
    } else {
      OnesSums(n);
      assert MAX_WORD - Fold(Sum32(Ones(n))) != Checksum(Ones(n));
    }
  }

  // ---------- the checksum word ----------

  lemma {:induction false} SumUpdate(ws: seq<nat>, k: nat, x: nat)
    requires k < |ws|
    ensures Sum(ws[k := x]) == Sum(ws) - ws[k] + x
  {
    var n := |ws| - 1;
    if k < n {
      SumUpdate(ws[..n], k, x);
      assert ws[k := x][..n] == ws[..n][k := x];
    } else {
      assert ws[k := x][..n] == ws[..n];
    }
  }

  lemma ReducedPlus(s: nat, x: nat)
    requires x <= MAX_WORD
    ensures Reduced(s + x) == MAX_WORD <==> x == MAX_WORD - Reduced(s) || (Reduced(s) == MAX_WORD && x == MAX_WORD)
  {
    PlusReduces(s, x);
  }

  /** A zeroed word replaced by x makes the checksum zero exactly when x is the checksum; all ones stand for zero. */
  lemma VerifiesExactly(ws: seq<nat>, k: nat, x: nat)
    requires Fit(ws) && k < |ws| && ws[k] == 0 && x <= MAX_WORD
    ensures Checksum(ws[k := x]) == 0 <==> x == Checksum(ws) || (Checksum(ws) == 0 && x == MAX_WORD)
  {
    SumUpdate(ws, k, x);
    OnesSumReduces(ws);
    OnesSumReduces(ws[k := x]);
    ReducedPlus(Sum(ws), x);
  }

  // ---------- byte order ----------

  function Swap(w: nat): (r: nat)
    requires w <= MAX_WORD
    ensures r <= MAX_WORD
  {
    w % 256 * 256 + w / 256
  }

  function Swapped(ws: seq<nat>): (r: seq<nat>)
    requires Fit(ws)
    ensures |r| == |ws| && Fit(r) && forall i | 0 <= i < |ws| :: r[i] == Swap(ws[i])
  {
    seq(|ws|, i requires 0 <= i < |ws| => Swap(ws[i]))
  }

  lemma SwapComplement(w: nat)
    requires w <= MAX_WORD
    ensures Swap(MAX_WORD - w) == MAX_WORD - Swap(w)
  {
    var h, l := w / 256, w % 256;
    assert MAX_WORD - w == 256 * (255 - h) + (255 - l);
  }

  /** Adding with the carry brought round does not mind the order of the bytes. */
  lemma SwapPlus(a: nat, b: nat)
    requires a <= MAX_WORD && b <= MAX_WORD
    ensures Plus(a, b) <= MAX_WORD && Swap(Plus(a, b)) == Plus(Swap(a), Swap(b))
  {
    var al, ah, bl, bh := a % 256, a / 256, b % 256, b / 256;
    var low, high := al + bl, ah + bh;
    SwapParts(low, high);
    assert a + b == 256 * high + low && Swap(a) + Swap(b) == 256 * low + high;
  }

  lemma SwapParts(low: nat, high: nat)
    requires low <= 510 && high <= 510
    ensures var s, t := 256 * high + low, 256 * low + high;
            Plus(s, 0) <= MAX_WORD && Swap(Plus(s, 0)) == Plus(t, 0)
  {
    var s := 256 * high + low;
    if low < 256 && high < 256 {
      assert s / 256 == high && s % 256 == low;
    } else if low < 256 {
      assert s - MAX_WORD == 256 * (high - 256) + (low + 1);
    } else if high < 255 {
      assert s == 256 * (high + 1) + (low - 256);
    } else {
      assert s - MAX_WORD == 256 * (high - 255) + (low - 255);
    }
  }

  lemma SwappedFirst(ws: seq<nat>)
    requires Fit(ws) && ws != []
    ensures Fit(ws[..|ws| - 1])
    ensures Swapped(ws)[..|ws| - 1] == Swapped(ws[..|ws| - 1]) && Swapped(ws)[|ws| - 1] == Swap(ws[|ws| - 1])
  {
  }

  lemma {:induction false} SumOfSwapped(ws: seq<nat>)
    requires Fit(ws)
    ensures OnesSum(Swapped(ws)) == Swap(OnesSum(ws))
  {
    if ws != [] {
      var first, last := ws[..|ws| - 1], ws[|ws| - 1];
      SwappedFirst(ws);
      SumOfSwapped(first);
      SwapPlus(OnesSum(first), last);
    }
  }

  /** The checksum of the byte-swapped words is the byte-swapped checksum. */
  lemma ByteOrderIndependent(ws: seq<nat>)
    requires Fit(ws)
    ensures OnesSum(Swapped(ws)) == Swap(OnesSum(ws)) && Checksum(Swapped(ws)) == Swap(Checksum(ws))
  {
    SumOfSwapped(ws);
    SwapComplement(OnesSum(ws));
  }

  // ---------- the packet ----------

  const SYN_SCAN := 0
  const NULL_SCAN := 1
  const FIN_SCAN := 2
  const XMAS_SCAN := 3
  const ACK_SCAN := 4

  const PACKET := 4096
  const IP_HEADER := 20
  const TCP_HEADER := 20
  const PSEUDO := 12

  // A 16-bit field in network order, and as a little-endian host stores it.
  function Network16(n: nat): (s: seq<byte>)
    requires n < WORD
    ensures |s| == 2
  {
    [(n / 256) as byte, (n % 256) as byte]
  }

  function Host16(n: nat): (s: seq<byte>)
    requires n < WORD
    ensures |s| == 2 && WordOf(s[0], s[1]) == n
  {
    [(n % 256) as byte, (n / 256) as byte]
  }

  /** The TCP flags of a scan: FIN 1, SYN 2, PSH 8, ACK 16, URG 32. */
  function Flags(scan: int): byte {
    if scan == SYN_SCAN then 2
    else if scan == FIN_SCAN then 1
    else if scan == XMAS_SCAN then 41
    else if scan == ACK_SCAN then 16
    else 0
  }

  /** The IP header before its checksum: the total length is left in host order. */
  function IpHeader(src: seq<byte>, dst: seq<byte>): (h: seq<byte>)
    requires |src| == |dst| == 4
    ensures |h| == IP_HEADER && h[10] == 0 && h[11] == 0
  {
    [0x45, 0] + Host16(IP_HEADER + TCP_HEADER) + Network16(9999) + [0, 0, 64, 6, 0, 0] + src + dst
  }

  /** The TCP header before its checksum. */
  function TcpHeader(srcPort: nat, dstPort: nat, scan: int): (h: seq<byte>)
    requires srcPort < WORD && dstPort < WORD
    ensures |h| == TCP_HEADER && h[16] == 0 && h[17] == 0
  {
    Network16(srcPort) + Network16(dstPort) + [0, 0x98, 0x96, 0x7F] + [0, 0, 0, 0] + [0x50, Flags(scan)]
    + Network16(14600) + [0, 0, 0, 0]
  }

  /** What is summed before the TCP header. */
  function PseudoHeader(src: seq<byte>, dst: seq<byte>): (h: seq<byte>)
    requires |src| == |dst| == 4
    ensures |h| == PSEUDO
  {
    src + dst + [0, 6] + Network16(TCP_HEADER)
  }

  /** Storing a checksum in a zeroed field of a buffer leaves the buffer with checksum zero. */
  lemma StoredVerifies(buf: seq<byte>, k: nat, stored: seq<byte>)
    requires 2 * k + 1 < |buf| && buf[2 * k] == 0 && buf[2 * k + 1] == 0
    requires stored == buf[2 * k := Host16(Checksum(Words(buf)))[0]][2 * k + 1 := Host16(Checksum(Words(buf)))[1]]
    ensures Checksum(Words(stored)) == 0
  {
    var ws, c := Words(buf), Checksum(Words(buf));
    assert forall i | 0 <= i < |ws| && i != k :: WordAt(stored, i) == WordAt(buf, i);
    assert WordAt(stored, k) == WordOf(Host16(c)[0], Host16(c)[1]) == c;
    assert Words(stored) == ws[k := c];
    VerifiesExactly(ws, k, c);
  }

  method Put(a: array<byte>, at: nat, s: seq<byte>)
    requires at + |s| <= a.Length
    modifies a
    ensures a[..at] == old(a[..at]) && a[at..at + |s|] == s && a[at + |s|..] == old(a[at + |s|..])
  {
    var i := 0;
    while i < |s|
      invariant 0 <= i <= |s|
      invariant a[..at] == old(a[..at]) && a[at..at + i] == s[..i] && a[at + i..] == old(a[at + i..])
    {
      a[at + i] := s[i];
      i := i + 1;
    }
    assert s[..i] == s;
  }

  // The IP header with its checksum.
  method SealIp(src: seq<byte>, dst: seq<byte>) returns (ip: seq<byte>)
    requires |src| == |dst| == 4
    ensures |ip| == IP_HEADER && ip == IpHeader(src, dst)[10 := ip[10]][11 := ip[11]]
    ensures Checksum(Words(ip)) == 0
  {
    var bare := IpHeader(src, dst);
    var check := CalculateTcpCsum(bare, IP_HEADER);
    assert Prefix(bare, IP_HEADER) == bare;
    ip := bare[10 := Host16(check)[0]][11 := Host16(check)[1]];
    StoredVerifies(bare, 5, ip);
  }

  // The TCP header with the checksum of the pseudo header and itself.
  method SealTcp(dst: seq<byte>, src: seq<byte>, bare: seq<byte>) returns (tcp: seq<byte>)
    requires |src| == |dst| == 4 && |bare| == TCP_HEADER && bare[16] == 0 && bare[17] == 0
    ensures |tcp| == TCP_HEADER && tcp == bare[16 := tcp[16]][17 := tcp[17]]
    ensures Checksum(Words(PseudoHeader(src, dst) + tcp)) == 0
  {
    var psh := PseudoHeader(src, dst) + bare;
    var check := CalculateTcpCsum(psh, PSEUDO + TCP_HEADER);
    assert Prefix(psh, PSEUDO + TCP_HEADER) == psh;
    tcp := bare[16 := Host16(check)[0]][17 := Host16(check)[1]];
    assert PseudoHeader(src, dst) + tcp == psh[28 := Host16(check)[0]][29 := Host16(check)[1]];
    StoredVerifies(psh, 14, PseudoHeader(src, dst) + tcp);
  }

  // Two bytes, and four, in network order.
  function Read16(p: seq<byte>, at: nat): nat
    requires at + 2 <= |p|
  {
    256 * p[at] as nat + p[at + 1] as nat
  }

  function Read32(p: seq<byte>, at: nat): nat
    requires at + 4 <= |p|
  {
    0x1_0000 * Read16(p, at) + Read16(p, at + 2)
  }

  /**
   * The fields of an IP header: version 4 and five words, no service type, the total length of 40 with its low byte first,
   * identification 9999, no fragment, time to live 64, protocol 6, and the addresses.
   */
  predicate IpFields(p: seq<byte>, src: seq<byte>, dst: seq<byte>) {
    && |p| == 20 && p[0] == 0x45 && p[1] == 0 && p[2] == 40 && p[3] == 0
    && Read16(p, 4) == 9999 && Read16(p, 6) == 0 && p[8] == 64 && p[9] == 6
    && p[12..16] == src && p[16..20] == dst
  }

  /** The fields of a TCP header: the ports, sequence 9999999, nothing acknowledged, five words, the flags, window 14600, nothing urgent. */
  predicate TcpFields(p: seq<byte>, srcPort: nat, dstPort: nat, scan: int) {
    && |p| == 20 && Read16(p, 0) == srcPort % 65536 && Read16(p, 2) == dstPort % 65536
    && Read32(p, 4) == 9999999 && Read32(p, 8) == 0 && p[12] == 0x50
    && p[13] == (if scan == SYN_SCAN then 2 else if scan == NULL_SCAN then 0 else if scan == FIN_SCAN then 1
                 else if scan == XMAS_SCAN then 41 else if scan == ACK_SCAN then 16 else 0)
    && Read16(p, 14) == 14600 && Read16(p, 18) == 0
  }

  lemma IpFieldsRead(src: seq<byte>, dst: seq<byte>, p: seq<byte>)
    requires |src| == |dst| == 4 && |p| == IP_HEADER && p == IpHeader(src, dst)[10 := p[10]][11 := p[11]]
    ensures IpFields(p, src, dst)
  {
    var h := IpHeader(src, dst);
    assert h[12..16] == src && h[16..20] == dst;
    assert p[12..16] == h[12..16] && p[16..20] == h[16..20];
  }

  lemma TcpFieldsRead(srcPort: nat, dstPort: nat, scan: int, p: seq<byte>)
    requires |p| == TCP_HEADER && p == TcpHeader(srcPort % WORD, dstPort % WORD, scan)[16 := p[16]][17 := p[17]]
    ensures TcpFields(p, srcPort, dstPort, scan)
  {
    var h := TcpHeader(srcPort % WORD, dstPort % WORD, scan);
    assert forall i | 0 <= i < 20 && i != 16 && i != 17 :: p[i] == h[i];
  }

  lemma PseudoIs(src: seq<byte>, dst: seq<byte>)
    requires |src| == |dst| == 4
    ensures PseudoHeader(src, dst) == src + dst + [0, 6, 0, 20]
  {
  }

  /**
   * prepare_tcp_pkt: the fields of both headers, and both checksums verify, that of TCP over the addresses, the protocol
   * number 6 and the length 20 in front of the header; the rest of the 4096 bytes is zero.
   */
  method PrepareTcpPkt(dst: seq<byte>, dstPort: nat, src: seq<byte>, srcPort: nat, scan: int) returns (datagram: array<byte>)
    requires |src| == |dst| == 4
    ensures fresh(datagram) && datagram.Length == 4096
    ensures IpFields(datagram[..20], src, dst) && TcpFields(datagram[20..40], srcPort, dstPort, scan)
    ensures Checksum(Words(datagram[..20])) == 0
    ensures Checksum(Words(src + dst + [0, 6, 0, 20] + datagram[20..40])) == 0
    ensures forall i | 40 <= i < 4096 :: datagram[i] == 0
  {
    datagram := new byte[PACKET](i => 0);
    var ip := SealIp(src, dst);
    var tcp := SealTcp(dst, src, TcpHeader(srcPort % WORD, dstPort % WORD, scan));
    IpFieldsRead(src, dst, ip);
    TcpFieldsRead(srcPort, dstPort, scan, tcp);
    PseudoIs(src, dst);
    Put(datagram, 0, ip);
    ghost var tail := datagram[IP_HEADER..];
    Put(datagram, IP_HEADER, tcp);
    assert datagram[IP_HEADER + TCP_HEADER..] == tail[TCP_HEADER..];
  }
}
