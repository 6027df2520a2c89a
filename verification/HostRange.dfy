/**
 * The hosts of an address range: the byte-wise netmask loop and the enumeration of the host numbers.
 * The four bytes of an address or a mask are their 32 bits, the most significant of the first byte first.
 */
module HostRange {
  import opened Wrappers

  type Bits = a: seq<bool> | |a| == 32 witness seq(32, i => false)

  function Pow2(n: nat): (p: nat)
    ensures p >= 1
  {
    if n == 0 then 1 else 2 * Pow2(n - 1)
  }

  function Value(s: seq<bool>): nat {
    if s == [] then 0 else 2 * Value(s[..|s| - 1]) + if s[|s| - 1] then 1 else 0
  }

  /** The n low bits of i. */
  function BitsOf(i: nat, n: nat): (s: seq<bool>)
    ensures |s| == n
  {
    if n == 0 then [] else BitsOf(i / 2, n - 1) + [i % 2 == 1]
  }

  function Zeros(n: nat): (s: seq<bool>)
    ensures |s| == n
  {
    seq(n, i => false)
  }

  function And(a: Bits, b: Bits): Bits {
    seq(32, i requires 0 <= i < 32 => a[i] && b[i])
  }

  function Or(a: Bits, b: Bits): Bits {
    seq(32, i requires 0 <= i < 32 => a[i] || b[i])
  }

  lemma {:induction false} ValueOfBits(i: nat, n: nat)
    requires i < Pow2(n)
    ensures Value(BitsOf(i, n)) == i
  {
    if n > 0 {
      ValueOfBits(i / 2, n - 1);
    }
  }

  lemma {:induction false} ValueBound(s: seq<bool>)
    ensures Value(s) < Pow2(|s|)
  {
    if s != [] {
      ValueBound(s[..|s| - 1]);
    }
  }

  lemma {:induction false} ValueConcat(s: seq<bool>, t: seq<bool>)
    ensures Value(s + t) == Value(s) * Pow2(|t|) + Value(t)
  {
    if t == [] {
      assert s + t == s;
    } else {
      var first := t[..|t| - 1];
      ValueConcat(s, first);
      assert (s + t)[..|s + t| - 1] == s + first;
      Double(Value(s), Pow2(|first|));
    }
  }

  lemma Double(a: nat, b: nat)
    ensures 2 * (a * b) == a * (2 * b)
  {
  }

  lemma {:induction false} ZerosAreZero(n: nat)
    ensures Value(Zeros(n)) == 0
  {
    if n > 0 {
      ZerosAreZero(n - 1);
      assert Zeros(n)[..n - 1] == Zeros(n - 1);
    }
  }

  lemma {:induction false} SmallNumber(i: nat, n: nat, z: nat)
    requires z <= n && i < Pow2(z)
    ensures BitsOf(i, n) == Zeros(n - z) + BitsOf(i, z)
  {
    if z > 0 {
      SmallNumber(i / 2, n - 1, z - 1);
    } else if n > 0 {
      SmallNumber(0, n - 1, 0);
    }
  }

  // ---------- the netmask loop ----------

  /** The byte of the mask the loop writes for bit i. */
  function ByteIndex(i: nat): int
    requires i < 32
  {
    var b := (32 - i) / 8;
    if i == 0 then b - 1 else if i % 8 == 0 then b - i / 8 else b
  }

  /** It is the byte bit i is in but for bits 16 and 24, and outside the mask for bit 24. */
  lemma ByteIndexExactly(i: nat)
    requires i < 32
    ensures ByteIndex(i) == 3 - i / 8 <==> i != 16 && i != 24
    ensures 0 <= ByteIndex(i) < 4 <==> i != 24
  {
  }

  /** The mask of RFC 4632: prefix ones, then zeros. */
  function StandardMask(prefix: nat): Bits
    requires prefix <= 32
  {
    seq(32, i => i < prefix)
  }

  /** Its value. */
  lemma {:induction false} MaskValue(n: nat, prefix: nat)
    requires prefix <= n
    ensures Value(seq(n, i => i < prefix)) == Pow2(n) - Pow2(n - prefix)
  {
    var mask := seq(n, i => i < prefix);
    if n > 0 {
      if prefix < n {
        MaskValue(n - 1, prefix);
        assert mask[..n - 1] == seq(n - 1, i => i < prefix);
      } else {
        MaskValue(n - 1, n - 1);
        assert mask[..n - 1] == seq(n - 1, i => i < n - 1);
      }
    }
  }

  /**
   * What the loop makes of a mask of ones: below a prefix of 16 the bit meant for the second byte is
   * cleared in the first.
   */
  function LoopMask(prefix: nat): Bits
    requires 8 <= prefix <= 32
  {
    if prefix >= 16 then StandardMask(prefix) else StandardMask(prefix)[7 := false][15 := true]
  }

  /** The first loop of get_ipAdresses; ok is false when it comes to write outside the mask. */
  method Netmask(prefix: nat) returns (ok: bool, netmask: array<bool>)
    requires prefix <= 32
    ensures fresh(netmask) && ok == (prefix >= 8) && (ok ==> netmask[..] == LoopMask(prefix))
  {
    ok, netmask := true, new bool[32](k => true);
    var i: int := 32 - prefix - 1;
    while i >= 0
      invariant -1 <= i <= 31 - prefix && netmask.Length == 32 && ok && (prefix < 8 ==> i >= 24)
      invariant forall k | 0 <= k < 32 && k != 7 && k != 15 :: netmask[k] == (k < prefix || k >= 31 - i)
      invariant netmask[7] == !(prefix < 16 && i < 16)
      invariant netmask[15]
    {
      var byte := (32 - i) / 8;
      if i == 0 {
        byte := byte - 1;
      } else if i > 0 && i % 8 == 0 {
        byte := byte - i / 8;
      }
      assert byte == ByteIndex(i);
      if byte < 0 {
        ok := false;
        return;
      }
      var bit := i % 8;
      netmask[8 * byte + 7 - bit] := false;
      i := i - 1;
    }
  }

  /** The loop yields the standard mask exactly when the prefix is at least 16. */
  lemma NetmaskExactly(prefix: nat)
    requires 8 <= prefix <= 32
    ensures LoopMask(prefix) == StandardMask(prefix) <==> prefix >= 16
  {
    assert prefix < 16 ==> LoopMask(prefix)[15] && !LoopMask(prefix)[7];
    assert StandardMask(prefix)[7];
  }

  // ---------- the hosts ----------

  /** get_hostcount; None when it ends the program. */
  function HostCount(prefix: nat): Option<int> {
    if prefix > 32 then None else Some(Pow2(32 - prefix) - 2)
  }

  /** How the enumeration ends: normally, with the program, or with a mask bit written outside the mask. */
  datatype Ending = Returns | Exits | WritesOutside

  // How many of them are enumerated.
  function InRange(prefix: nat): nat
    requires prefix <= 32
  {
    if Pow2(32 - prefix) < 2 then 0 else Pow2(32 - prefix) - 2
  }

  /** Host number i of a network. */
  function Host(network: Bits, i: nat): Bits {
    Or(network, BitsOf(i, |network|))
  }

  /** Hosts number 1 to n of a network. */
  function Hosts(network: Bits, n: nat): (hosts: seq<Bits>)
    ensures |hosts| == n && forall k | 0 <= k < n :: hosts[k] == Host(network, k + 1)
  {
    seq(n, k requires 0 <= k < n => Host(network, k + 1))
  }

  /** The list after those of the hosts that resolve have been pushed on list, one by one. */
  function Pushed(hosts: seq<Bits>, resolves: Bits -> bool, list: seq<Bits>): seq<Bits> {
    if hosts == [] then list
    else
      var last := hosts[|hosts| - 1];
      (if resolves(last) then [last] else []) + Pushed(hosts[..|hosts| - 1], resolves, list)
  }

  /** The list of addresses; a new one goes to its front. */
  class IpList {
    var list: seq<Bits>
    var count: nat

    ghost predicate Valid()
      reads this
    {
      count == |list|
    }

    constructor ()
      ensures Valid() && list == []
    {
      list, count := [], 0;
    }

    /** push_ip, for an address that resolves to itself or not at all. */
    method PushIp(ip: Bits, resolves: Bits -> bool)
      requires Valid()
      modifies this
      ensures Valid() && list == (if resolves(ip) then [ip] else []) + old(list)
    {
      if !resolves(ip) {
        return;
      }
      list := [ip] + list;
      count := count + 1;
    }

    /** get_ipAdresses */
    method GetIpAddresses(ip: Bits, prefix: nat, resolves: Bits -> bool) returns (ending: Ending)
      requires Valid()
      modifies this
      ensures Valid()
      ensures ending == if prefix > 32 then Exits else if prefix < 8 then WritesOutside else Returns
      ensures list ==
              if ending == Returns then Pushed(Hosts(And(ip, LoopMask(prefix)), InRange(prefix)), resolves, old(list))
              else old(list)
    {
      var hostcount := HostCount(prefix);
      if hostcount.None? {
        return Exits;
      }
      var ok, netmask := Netmask(prefix);
      if !ok {
        return WritesOutside;
      }
      var host := And(ip, netmask[..]);
      var i := 1;
      while i <= hostcount.value
        invariant 1 <= i && (i == 1 || i <= hostcount.value + 1) && Valid()
        invariant list == Pushed(Hosts(host, i - 1), resolves, old(list))
      {
        var newIp := Host(host, i);
        assert Hosts(host, i)[..i - 1] == Hosts(host, i - 1);
        if resolves(newIp) {
          PushIp(newIp, resolves);
        }
        i := i + 1;
      }
      return Returns;
    }
  }

  // ---------- what the list holds ----------

  /** The network address is the multiple of the range's size next below the given address. */
  lemma NetworkOf(ip: Bits, prefix: nat)
    requires prefix <= 32
    ensures And(ip, StandardMask(prefix)) == ip[..prefix] + Zeros(32 - prefix)
    ensures Value(And(ip, StandardMask(prefix))) == Value(ip[..prefix]) * Pow2(32 - prefix)
    ensures Value(And(ip, StandardMask(prefix))) <= Value(ip) < Value(And(ip, StandardMask(prefix))) + Pow2(32 - prefix)
  {
    var z := 32 - prefix;
    assert And(ip, StandardMask(prefix)) == ip[..prefix] + Zeros(z);
    ValueConcat(ip[..prefix], Zeros(z));
    ZerosAreZero(z);
    ValueConcat(ip[..prefix], ip[prefix..]);
    ValueBound(ip[prefix..]);
    assert ip == ip[..prefix] + ip[prefix..];
  }

  /** Or-ing a host number into the network address adds it. */
  lemma HostValue(ip: Bits, prefix: nat, i: nat)
    requires prefix <= 32 && i < Pow2(32 - prefix)
    ensures var network := And(ip, StandardMask(prefix)); Value(Host(network, i)) == Value(network) + i
  {
    var z, network := 32 - prefix, And(ip, StandardMask(prefix));
    NetworkOf(ip, prefix);
    SmallNumber(i, |network|, z);
    assert Host(network, i) == ip[..prefix] + BitsOf(i, z);
    ValueConcat(ip[..prefix], BitsOf(i, z));
    ValueOfBits(i, z);
  }

  lemma {:induction false} PushedAt(hosts: seq<Bits>, j: nat, resolves: Bits -> bool)
    requires forall ip :: resolves(ip)
    ensures |Pushed(hosts, resolves, [])| == |hosts|
    ensures j < |hosts| ==> Pushed(hosts, resolves, [])[j] == hosts[|hosts| - 1 - j]
  {
    if hosts != [] {
      PushedAt(hosts[..|hosts| - 1], if j == 0 then 0 else j - 1, resolves);
    }
  }

  /**
   * From a prefix of 16 on, when every address resolves, the list is the addresses between the network and the
   * broadcast address, each once, in order, the last in front; it is empty for 31 and 32.
   */
  lemma ListsTheHosts(ip: Bits, prefix: nat, j: nat, resolves: Bits -> bool)
    requires 16 <= prefix <= 32 && forall ip :: resolves(ip)
    ensures var (size, network) := (Pow2(32 - prefix), And(ip, StandardMask(prefix)));
            var list := Pushed(Hosts(And(ip, LoopMask(prefix)), InRange(prefix)), resolves, []);
            && |list| == (if size < 2 then 0 else size - 2)
            && (prefix >= 31 ==> list == [])
            && (j < |list| ==>
                  Value(list[j]) == Value(network) + (size - 2 - j)
                  && Value(network) < Value(list[j]) < Value(network) + size - 1)
  {
    NetmaskExactly(prefix);
    SmallRanges(prefix);
    HostListed(And(ip, StandardMask(prefix)), InRange(prefix), j, resolves);
    if j < InRange(prefix) {
      HostValue(ip, prefix, InRange(prefix) - j);
    }
  }

  lemma HostListed(network: Bits, n: nat, j: nat, resolves: Bits -> bool)
    requires forall ip :: resolves(ip)
    ensures var list := Pushed(Hosts(network, n), resolves, []);
            |list| == n && (j < n ==> list[j] == Host(network, n - j))
  {
    PushedAt(Hosts(network, n), j, resolves);
  }

  lemma SmallRanges(prefix: nat)
    requires prefix <= 32
    ensures prefix >= 31 ==> Pow2(32 - prefix) <= 2
  {
    assert Pow2(1) == 2;
  }

  // ---------- when only some addresses resolve ----------

  predicate Rising(hosts: seq<Bits>) {
    forall i, j | 0 <= i < j < |hosts| :: Value(hosts[i]) < Value(hosts[j])
  }

  predicate Falling(list: seq<Bits>) {
    forall i, j | 0 <= i < j < |list| :: Value(list[i]) > Value(list[j])
  }

  lemma {:induction false} PushedMembers(hosts: seq<Bits>, resolves: Bits -> bool, a: Bits)
    ensures a in Pushed(hosts, resolves, []) <==> a in hosts && resolves(a)
  {
    if hosts != [] {
      var first, last := hosts[..|hosts| - 1], hosts[|hosts| - 1];
      PushedMembers(first, resolves, a);
      assert hosts == first + [last];
    }
  }

  lemma {:induction false} PushedFalls(hosts: seq<Bits>, resolves: Bits -> bool)
    requires Rising(hosts)
    ensures Falling(Pushed(hosts, resolves, []))
  {
    if hosts != [] {
      var first, last := hosts[..|hosts| - 1], hosts[|hosts| - 1];
      var list := Pushed(first, resolves, []);
      PushedFalls(first, resolves);
      forall j | 0 <= j < |list|
        ensures Value(list[j]) < Value(last)
      {
        PushedMembers(first, resolves, list[j]);
        assert list[j] in first;
      }
    }
  }

  lemma {:induction false} SameValue(a: seq<bool>, b: seq<bool>)
    requires |a| == |b| && Value(a) == Value(b)
    ensures a == b
  {
    if a != [] {
      SameValue(a[..|a| - 1], b[..|b| - 1]);
      assert a == a[..|a| - 1] + [a[|a| - 1]] && b == b[..|b| - 1] + [b[|b| - 1]];
    }
  }

  lemma HostValues(ip: Bits, prefix: nat)
    requires prefix <= 32
    ensures var network, n := And(ip, StandardMask(prefix)), InRange(prefix);
            && (forall k | 0 <= k < n :: Value(Hosts(network, n)[k]) == Value(network) + k + 1)
            && (n == 0 || n + 2 == Pow2(32 - prefix))
  {
    var network, n := And(ip, StandardMask(prefix)), InRange(prefix);
    forall k | 0 <= k < n
      ensures Value(Hosts(network, n)[k]) == Value(network) + k + 1
    {
      HostValue(ip, prefix, k + 1);
    }
  }

  /**
   * From a prefix of 16 on the list is exactly the addresses between the network and the broadcast address that resolve,
   * the greatest in front and each once.
   */
  lemma ListsWhatResolves(ip: Bits, prefix: nat, resolves: Bits -> bool, a: Bits)
    requires 16 <= prefix <= 32
    ensures var (size, network) := (Pow2(32 - prefix), And(ip, StandardMask(prefix)));
            var list := Pushed(Hosts(And(ip, LoopMask(prefix)), InRange(prefix)), resolves, []);
            && Falling(list)
            && (a in list <==> resolves(a) && Value(network) < Value(a) < Value(network) + size - 1)
  {
    var network, n := And(ip, StandardMask(prefix)), InRange(prefix);
    var hosts := Hosts(network, n);
    NetmaskExactly(prefix);
    HostValues(ip, prefix);
    PushedFalls(hosts, resolves);
    PushedMembers(hosts, resolves, a);
    if Value(network) < Value(a) < Value(network) + Pow2(32 - prefix) - 1 {
      var k := Value(a) - Value(network) - 1;
      SameValue(hosts[k], a);
      assert a == hosts[k];
    }
  }

  /** What was listed before stays behind it. */
  lemma {:induction false} PushedOnto(hosts: seq<Bits>, resolves: Bits -> bool, list: seq<Bits>)
    ensures Pushed(hosts, resolves, list) == Pushed(hosts, resolves, []) + list
  {
    if hosts != [] {
      PushedOnto(hosts[..|hosts| - 1], resolves, list);
    }
  }
}
