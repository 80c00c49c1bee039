/**
 * The IPv4 block test of utils/security-check.ts: signed 32-bit shifts and masks
 * against the arithmetic meaning of a block (section 3.1 of RFC 4632).
 */
module Cidr {
  import opened Wrappers
  import opened Text

  // ----- the 32-bit operators of JavaScript, on mathematical integers

  function Pow2(k: nat): (p: nat)
    ensures p >= 1
  {
    if k == 0 then 1 else 2 * Pow2(k - 1)
  }

  const TWO32 := 0x1_0000_0000

  function ToUint32(x: int): int { x % TWO32 }

  function ToInt32(x: int): int {
    if ToUint32(x) >= TWO32 / 2 then ToUint32(x) - TWO32 else ToUint32(x)
  }

  /** NaN converts to zero. */
  function Number(x: Option<int>): int {
    if x.Some? then x.value else 0
  }

  function BitAnd(a: nat, b: nat): nat {
    if a == 0 || b == 0 then 0 else 2 * BitAnd(a / 2, b / 2) + a % 2 * (b % 2)
  }

  function BitOr(a: nat, b: nat): nat {
    if a == 0 then b else if b == 0 then a
    else 2 * BitOr(a / 2, b / 2) + (if a % 2 == 1 || b % 2 == 1 then 1 else 0)
  }

  function And(x: int, y: int): int { ToInt32(BitAnd(ToUint32(x), ToUint32(y))) }

  function Or(x: int, y: int): int { ToInt32(BitOr(ToUint32(x), ToUint32(y))) }

  function Not(x: int): int { -1 - ToInt32(x) }

  /** Only the low five bits of the shift count matter. */
  function ShiftLeft(x: int, count: int): int { ToInt32(ToInt32(x) * Pow2(count % 32)) }

  // ----- the program

  function Octets(parts: seq<string>): seq<Option<int>> {
    seq(|parts|, i requires 0 <= i < |parts| => ParseInt(parts[i]))
  }

  function ToInteger(parts: seq<Option<int>>): int
    requires |parts| == 4
  {
    Or(Or(Or(ShiftLeft(Number(parts[0]), 24), ShiftLeft(Number(parts[1]), 16)), ShiftLeft(Number(parts[2]), 8)),
       Number(parts[3]))
  }

  function Mask(prefix: Option<int>): int {
    if prefix == Some(0) then 0
    else ShiftLeft(Not(0), if prefix.Some? then 32 - prefix.value else 0)
  }

  predicate IpMatchesCidr(ip: string, cidr: string)
    requires '/' in cidr
  {
    SplitTwice(cidr, '/');
    var network, prefix := Split(cidr, '/')[0], ParseInt(Split(cidr, '/')[1]);
    && '.' in ip && '.' in network
    && (var ipParts, networkParts := Octets(Split(ip, '.')), Octets(Split(network, '.'));
        && |ipParts| == 4 && |networkParts| == 4
        && And(ToInteger(ipParts), Mask(prefix)) == And(ToInteger(networkParts), Mask(prefix)))
  }

  /** What the program accepts. */
  ghost predicate Accepts(ip: string, allowedIps: seq<string>) {
    exists r :: r in allowedIps && (r == ip || ('/' in r && IpMatchesCidr(ip, r)))
  }

  method ValidateIpAgainstAllowList(ip: string, allowedIps: seq<string>) returns (allowed: bool)
    ensures allowed <==> Accepts(ip, allowedIps)
  {
    for i := 0 to |allowedIps|
      invariant forall r :: r in allowedIps[..i] ==> r != ip && !('/' in r && IpMatchesCidr(ip, r))
    {
      var restriction := allowedIps[i];
      assert restriction in allowedIps && allowedIps[..i + 1] == allowedIps[..i] + [restriction];
      if restriction == ip {
        return true;
      }
      if '/' in restriction {
        if IpMatchesCidr(ip, restriction) {
          return true;
        }
      }
    }
    assert allowedIps[..|allowedIps|] == allowedIps;
    return false;
  }

  // ----- what it should mean

  predicate IsQuad(parts: seq<Option<int>>) {
    |parts| == 4 && forall i :: 0 <= i < 4 ==> parts[i].Some? && 0 <= parts[i].value <= 255
  }

  function QuadValue(parts: seq<Option<int>>): (v: nat)
    requires IsQuad(parts)
    ensures v < TWO32
  {
    parts[0].value * 0x100_0000 + parts[1].value * 0x1_0000 + parts[2].value * 0x100 + parts[3].value
  }

  /** The address that a dotted quad denotes. */
  function Address(text: string): Option<nat> {
    if IsQuad(Octets(Split(text, '.'))) then Some(QuadValue(Octets(Split(text, '.')))) else None
  }

  /** Two addresses agree in all but the low bits. */
  predicate SameBlock(x: nat, y: nat, hostBits: nat) {
    x / Pow2(hostBits) == y / Pow2(hostBits)
  }

  /** A dotted quad, a slash, and a prefix length of at most 32. */
  predicate IsBlock(cidr: string) {
    && '/' in cidr
    && (SplitTwice(cidr, '/');
        && Address(Split(cidr, '/')[0]).Some?
        && ParseInt(Split(cidr, '/')[1]).Some? && 0 <= ParseInt(Split(cidr, '/')[1]).value <= 32)
  }

  predicate InBlock(address: nat, cidr: string)
    requires IsBlock(cidr)
  {
    SplitTwice(cidr, '/');
    SameBlock(address, Address(Split(cidr, '/')[0]).value, 32 - ParseInt(Split(cidr, '/')[1]).value)
  }

  /** An entry with a slash that cannot be read as IPv4, such as an IPv6 block. */
  predicate IsForeign(cidr: string) {
    '/' in cidr && (SplitTwice(cidr, '/'); '.' !in Split(cidr, '/')[0])
  }

  // ----- shifts

  lemma SignRoundTrip(x: int)
    ensures ToUint32(ToInt32(x)) == ToUint32(x)
    ensures 0 <= x < TWO32 ==> ToUint32(x) == x
  {
  }

  lemma Powers()
    ensures Pow2(8) == 0x100 && Pow2(16) == 0x1_0000 && Pow2(24) == 0x100_0000 && Pow2(32) == TWO32
  {
    assert Pow2(4) == 16 && Pow2(8) == 0x100;
    assert Pow2(12) == 0x1000 && Pow2(16) == 0x1_0000;
    assert Pow2(20) == 0x10_0000 && Pow2(24) == 0x100_0000;
    assert Pow2(28) == 0x1000_0000 && Pow2(32) == TWO32;
  }

  lemma {:induction false} PowerSum(n: nat, k: nat)
    ensures Pow2(n + k) == Pow2(n) * Pow2(k)
  {
    if n > 0 {
      PowerSum(n - 1, k);
      assert Pow2(n + k) == 2 * Pow2(n - 1 + k);
    }
  }

  lemma ShiftedOctet(octet: int)
    requires 0 <= octet <= 255
    ensures ToUint32(ShiftLeft(octet, 24)) == octet * 0x100_0000
    ensures ToUint32(ShiftLeft(octet, 16)) == octet * 0x1_0000
    ensures ToUint32(ShiftLeft(octet, 8)) == octet * 0x100
  {
    Powers();
    assert ToInt32(octet) == octet;
    SignRoundTrip(octet * 0x100_0000);
    SignRoundTrip(octet * 0x1_0000);
    SignRoundTrip(octet * 0x100);
  }

  // ----- disjunction of disjoint bits

  /** One bit further: the upper number is even. */
  lemma OrDoubled(a: nat, low: nat)
    ensures BitOr(2 * a, low) == 2 * BitOr(a, low / 2) + low % 2
  {
    assert (2 * a) / 2 == a && (2 * a) % 2 == 0;
  }

  lemma TimesDoubled(high: nat, m: nat)
    ensures high * (2 * m) == 2 * (high * m)
  {
  }

  lemma {:induction false} OrIsSum(high: nat, low: nat, k: nat)
    requires low < Pow2(k)
    ensures BitOr(high * Pow2(k), low) == high * Pow2(k) + low
  {
    if k > 0 {
      var m := Pow2(k - 1);
      assert Pow2(k) == 2 * m;
      TimesDoubled(high, m);
      OrIsSum(high, low / 2, k - 1);
      OrDoubled(high * m, low);
      hide BitOr, Pow2;
    }
  }

  lemma OrShifted(x: int, y: int, high: nat, low: nat, k: nat, m: nat)
    requires Pow2(k) == m && ToUint32(x) == high * m && ToUint32(y) == low < m && high * m + low < TWO32
    ensures ToUint32(Or(x, y)) == high * m + low
  {
    OrIsSum(high, low, k);
    SignRoundTrip(high * m + low);
  }

  lemma QuadInteger(parts: seq<Option<int>>)
    requires IsQuad(parts)
    ensures ToUint32(ToInteger(parts)) == QuadValue(parts)
  {
    var a, b, c, d := parts[0].value, parts[1].value, parts[2].value, parts[3].value;
    ShiftedOctet(a);
    ShiftedOctet(b);
    ShiftedOctet(c);
    JoinThree(ShiftLeft(a, 24), ShiftLeft(b, 16), ShiftLeft(c, 8), a, b, c);
    JoinLast(Or(Or(ShiftLeft(a, 24), ShiftLeft(b, 16)), ShiftLeft(c, 8)), d, a, b, c);
  }

  /** The address with its last octet zero. */
  function QuadTop(a: nat, b: nat, c: nat): nat {
    a * 0x100_0000 + b * 0x1_0000 + c * 0x100
  }

  lemma JoinThree(x: int, y: int, z: int, a: nat, b: nat, c: nat)
    requires a < 0x100 && b < 0x100 && c < 0x100
    requires ToUint32(x) == a * 0x100_0000 && ToUint32(y) == b * 0x1_0000 && ToUint32(z) == c * 0x100
    ensures ToUint32(Or(Or(x, y), z)) == QuadTop(a, b, c)
  {
    Powers();
    OrShifted(x, y, a, b * 0x1_0000, 24, 0x100_0000);
    OrShifted(Or(x, y), z, a * 0x100 + b, c * 0x100, 16, 0x1_0000);
  }

  lemma JoinLast(o: int, d: nat, a: nat, b: nat, c: nat)
    requires d < 0x100 && QuadTop(a, b, c) + d < TWO32 && ToUint32(o) == QuadTop(a, b, c)
    ensures ToUint32(Or(o, d)) == QuadTop(a, b, c) + d
  {
    Powers();
    SignRoundTrip(d);
    OrShifted(o, d, a * 0x1_0000 + b * 0x100 + c, d, 8, 0x100);
  }

  // ----- masking clears the host bits

  lemma NoSmallMultiple(d: int, m: int)
    requires 0 - m < d * m < m
    ensures d == 0
  {
  }

  lemma Quotient(x: nat, m: nat, q: nat, r: nat)
    requires m > 0 && x == q * m + r && r < m
    ensures x / m == q
  {
    var p, s := x / m, x % m;
    assert x == p * m + s;
    assert (p - q) * m == r - s;
    NoSmallMultiple(p - q, m);
  }

  lemma HalfFirst(x: nat, m: nat)
    requires m > 0
    ensures x / (2 * m) == x / 2 / m
  {
    var q, r := x / 2 / m, x / 2 % m;
    assert x / 2 == q * m + r;
    assert x == q * (2 * m) + (2 * r + x % 2);
    Quotient(x, 2 * m, q, 2 * r + x % 2);
  }

  lemma {:induction false} AndOnes(x: nat, n: nat)
    requires x < Pow2(n)
    ensures BitAnd(x, Pow2(n) - 1) == x
  {
    if n > 0 && x > 0 {
      assert (Pow2(n) - 1) / 2 == Pow2(n - 1) - 1 && (Pow2(n) - 1) % 2 == 1;
      AndOnes(x / 2, n - 1);
    }
  }

  /** n ones followed by k zeros. */
  function NetworkBits(n: nat, k: nat): nat {
    (Pow2(n) - 1) * Pow2(k)
  }

  lemma DoubledAnd(x: nat, half: nat)
    ensures BitAnd(x, 2 * half) == 2 * BitAnd(x / 2, half)
  {
    assert (2 * half) / 2 == half && (2 * half) % 2 == 0;
  }

  lemma {:induction false} AndIsMultiple(x: nat, n: nat, k: nat)
    requires x < Pow2(n + k)
    ensures BitAnd(x, NetworkBits(n, k)) == Multiple(x, Pow2(k))
  {
    if k == 0 {
      AndOnes(x, n);
    } else {
      assert Pow2(n + k) == 2 * Pow2(n + k - 1) && Pow2(k) == 2 * Pow2(k - 1);
      hide Pow2, BitAnd, NetworkBits, Multiple;
      AndIsMultiple(x / 2, n, k - 1);
      DoubledBits(n, k);
      DoubledAnd(x, NetworkBits(n, k - 1));
      DoubledMultiple(x, Pow2(k - 1));
    }
  }

  lemma AndClearsLowBits(x: nat, n: nat, k: nat)
    requires x < Pow2(n + k)
    ensures BitAnd(x, NetworkBits(n, k)) == x / Pow2(k) * Pow2(k)
  {
    AndIsMultiple(x, n, k);
  }

  lemma DoubledBits(n: nat, k: nat)
    requires k > 0
    ensures NetworkBits(n, k) == 2 * NetworkBits(n, k - 1)
  {
    var ones, m := Pow2(n) - 1, Pow2(k - 1);
    assert ones * (2 * m) == 2 * (ones * m);
  }

  /** The multiple of m at or below x. */
  function Multiple(x: nat, m: nat): nat
    requires m > 0
  {
    x / m * m
  }

  lemma DoubledMultiple(x: nat, m: nat)
    requires m > 0
    ensures Multiple(x, 2 * m) == 2 * Multiple(x / 2, m)
  {
    HalfFirst(x, m);
    var q := x / 2 / m;
    assert q * (2 * m) == 2 * (q * m);
  }

  /** The host bits that the mask really clears: the shift count is taken modulo 32. */
  function HostBits(prefix: Option<int>): (k: nat)
    ensures k <= 32
  {
    if prefix == Some(0) then 32 else if prefix.None? then 0 else (32 - prefix.value) % 32
  }

  lemma Complement(m: nat)
    requires 0 < m <= TWO32 / 2
    ensures ToUint32(ToInt32(-1 * m)) == TWO32 - m
  {
  }

  lemma HalfRange(k: nat)
    requires k < 32
    ensures Pow2(k) <= TWO32 / 2
  {
    PowerGrows(k, 31);
    Powers();
    assert Pow2(32) == 2 * Pow2(31);
  }

  lemma ShiftedOnes(count: int)
    ensures ToUint32(ShiftLeft(Not(0), count)) == TWO32 - Pow2(count % 32)
  {
    HalfRange(count % 32);
    Complement(Pow2(count % 32));
    assert ToInt32(Not(0)) == -1;
  }

  lemma MaskBits(prefix: Option<int>)
    ensures ToUint32(Mask(prefix)) == NetworkBits(32 - HostBits(prefix), HostBits(prefix))
  {
    if prefix == Some(0) {
      assert NetworkBits(0, 32) == 0;
    } else {
      hide ShiftLeft, Not, Pow2, NetworkBits;
      AllOnes(HostBits(prefix));
      ShiftedOnes(if prefix.Some? then 32 - prefix.value else 0);
    }
  }

  lemma OneLess(p: int, q: int)
    ensures (p - 1) * q == p * q - q
  {
  }

  lemma AllOnes(k: nat)
    requires k <= 32
    ensures NetworkBits(32 - k, k) == TWO32 - Pow2(k)
  {
    PowerSum(32 - k, k);
    OneLess(Pow2(32 - k), Pow2(k));
    Powers();
  }

  lemma {:induction false} PowerGrows(k: nat, n: nat)
    requires k <= n
    ensures Pow2(k) <= Pow2(n)
  {
    if k < n {
      PowerGrows(k, n - 1);
    }
  }

  lemma Cleared(u: nat, m: nat)
    requires u < TWO32 && m > 0
    ensures 0 <= u / m * m < TWO32
  {
    var q := u / m;
    assert u == q * m + u % m;
  }

  lemma MaskedWord(u: nat, prefix: Option<int>, m: nat)
    requires u < TWO32 && m == Pow2(HostBits(prefix))
    ensures BitAnd(u, ToUint32(Mask(prefix))) == u / m * m < TWO32
  {
    hide NetworkBits, BitAnd, Mask, ToUint32;
    var k := HostBits(prefix);
    Powers();
    MaskBits(prefix);
    AndClearsLowBits(u, 32 - k, k);
    Cleared(u, m);
  }

  lemma Masked(x: int, prefix: Option<int>, m: nat) returns (q: nat)
    requires m == Pow2(HostBits(prefix))
    ensures q == ToUint32(x) / m && q * m < TWO32
    ensures And(x, Mask(prefix)) == ToInt32(q * m)
  {
    hide Pow2, BitAnd, Mask, HostBits, ToInt32;
    MaskedWord(ToUint32(x), prefix, m);
    q := ToUint32(x) / m;
  }

  lemma SameSigned(u: nat, v: nat)
    requires u < TWO32 && v < TWO32
    ensures ToInt32(u) == ToInt32(v) <==> u == v
  {
  }

  lemma SameMultiple(a: nat, b: nat, m: nat)
    requires m > 0
    ensures a * m == b * m <==> a == b
  {
    if a < b {
      assert (b - a) * m > 0;
    } else if b < a {
      assert (a - b) * m > 0;
    }
  }

  lemma MaskedExactlyWhen(x: int, y: int, prefix: Option<int>)
    ensures And(x, Mask(prefix)) == And(y, Mask(prefix)) <==>
              SameBlock(ToUint32(x), ToUint32(y), HostBits(prefix))
  {
    var m := Pow2(HostBits(prefix));
    var p := Masked(x, prefix, m);
    var q := Masked(y, prefix, m);
    EqualMasked(And(x, Mask(prefix)), And(y, Mask(prefix)), p, q, m);
  }

  lemma EqualMasked(u: int, v: int, p: nat, q: nat, m: nat)
    requires u == ToInt32(p * m) && v == ToInt32(q * m) && p * m < TWO32 && q * m < TWO32 && m > 0
    ensures u == v <==> p == q
  {
    SameSigned(p * m, q * m);
    SameMultiple(p, q, m);
  }

  // ----- the theorems

  lemma NoDotNoQuad(text: string)
    requires '.' !in text
    ensures Address(text) == None
  {
    SplitFree(text, '.');
  }

  /** On dotted quads the test compares quotients, whatever the prefix says. */
  lemma MatchExactlyWhen(ip: string, cidr: string)
    requires '/' in cidr && |Split(cidr, '/')| >= 2
    requires Address(ip).Some? && Address(Split(cidr, '/')[0]).Some?
    ensures IpMatchesCidr(ip, cidr) <==>
              SameBlock(Address(ip).value, Address(Split(cidr, '/')[0]).value, HostBits(ParseInt(Split(cidr, '/')[1])))
  {
    var network, prefix := Split(cidr, '/')[0], ParseInt(Split(cidr, '/')[1]);
    if '.' !in ip { NoDotNoQuad(ip); }
    if '.' !in network { NoDotNoQuad(network); }
    var ipParts, networkParts := Octets(Split(ip, '.')), Octets(Split(network, '.'));
    QuadInteger(ipParts);
    QuadInteger(networkParts);
    MaskedExactlyWhen(ToInteger(ipParts), ToInteger(networkParts), prefix);
  }

  /** The mask has the length the prefix asks for exactly when that is a prefix length. */
  lemma PrefixHonouredExactlyWhen(prefix: int)
    ensures HostBits(Some(prefix)) == 32 - prefix <==> 0 <= prefix <= 32
  {
  }

  /** A prefix of 33 is a prefix of 1: it admits half of all addresses. */
  lemma PrefixPastTheEnd(ip: string, cidr: string)
    requires '/' in cidr && |Split(cidr, '/')| >= 2 && ParseInt(Split(cidr, '/')[1]) == Some(33)
    requires Address(ip).Some? && Address(Split(cidr, '/')[0]).Some?
    ensures IpMatchesCidr(ip, cidr) <==>
              (Address(ip).value < TWO32 / 2 <==> Address(Split(cidr, '/')[0]).value < TWO32 / 2)
  {
    MatchExactlyWhen(ip, cidr);
    Halves(Address(ip).value, Address(Split(cidr, '/')[0]).value);
  }

  lemma Halves(x: nat, y: nat)
    requires x < TWO32 && y < TWO32
    ensures SameBlock(x, y, 31) <==> (x < TWO32 / 2 <==> y < TWO32 / 2)
  {
    Powers();
    assert Pow2(32) == 2 * Pow2(31);
    var m := Pow2(31);
    Quotient(x, m, if x < m then 0 else 1, if x < m then x else x - m);
    Quotient(y, m, if y < m then 0 else 1, if y < m then y else y - m);
  }

  lemma BlockExactlyWhen(ip: string, cidr: string)
    requires Address(ip).Some? && '/' in cidr && (IsBlock(cidr) || IsForeign(cidr))
    ensures IpMatchesCidr(ip, cidr) <==> IsBlock(cidr) && InBlock(Address(ip).value, cidr)
  {
    SplitTwice(cidr, '/');
    if IsBlock(cidr) {
      MatchExactlyWhen(ip, cidr);
      PrefixHonouredExactlyWhen(ParseInt(Split(cidr, '/')[1]).value);
    }
  }

  /** An IPv4 address is accepted exactly when it is listed or lies in a listed block. */
  lemma AcceptedExactlyWhen(ip: string, allowedIps: seq<string>)
    requires Address(ip).Some?
    requires forall r :: r in allowedIps && '/' in r ==> IsBlock(r) || IsForeign(r)
    ensures Accepts(ip, allowedIps) <==>
              ip in allowedIps || exists r :: r in allowedIps && IsBlock(r) && InBlock(Address(ip).value, r)
  {
    forall r | r in allowedIps && '/' in r
      ensures IpMatchesCidr(ip, r) <==> IsBlock(r) && InBlock(Address(ip).value, r)
    {
      BlockExactlyWhen(ip, r);
    }
  }

  /** A text without a dot, such as an IPv6 address, lies in no block: it is accepted only when it is listed. */
  lemma UndottedExactlyWhen(ip: string, allowedIps: seq<string>)
    requires '.' !in ip
    ensures Accepts(ip, allowedIps) <==> ip in allowedIps
  {
  }

  /** Four parts, of which those that are not numbers are taken as zero. */
  function ReadLoosely(text: string): seq<Option<int>> {
    var parts := Octets(Split(text, '.'));
    seq(|parts|, i requires 0 <= i < |parts| => Some(Number(parts[i])))
  }

  /** On texts of four parts, numbers or not, the test compares the quotients of what is read with zeros. */
  lemma LooseMatchExactlyWhen(ip: string, cidr: string)
    requires '/' in cidr && |Split(cidr, '/')| >= 2
    requires IsQuad(ReadLoosely(ip)) && Address(Split(cidr, '/')[0]).Some?
    ensures IpMatchesCidr(ip, cidr) <==>
              SameBlock(QuadValue(ReadLoosely(ip)), Address(Split(cidr, '/')[0]).value,
                        HostBits(ParseInt(Split(cidr, '/')[1])))
  {
    var network, prefix := Split(cidr, '/')[0], ParseInt(Split(cidr, '/')[1]);
    if '.' !in ip { SplitFree(ip, '.'); }
    if '.' !in network { NoDotNoQuad(network); }
    var ipParts, networkParts := Octets(Split(ip, '.')), Octets(Split(network, '.'));
    assert ToInteger(ipParts) == ToInteger(ReadLoosely(ip));
    QuadInteger(ReadLoosely(ip));
    QuadInteger(networkParts);
    MaskedExactlyWhen(ToInteger(ipParts), ToInteger(networkParts), prefix);
  }

  // ----- addresses and blocks as they are written

  function Dotted(a: nat, b: nat, c: nat, d: nat): string {
    Join([Decimal(a), Decimal(b), Decimal(c), Decimal(d)], '.')
  }

  lemma DottedParts(a: nat, b: nat, c: nat, d: nat)
    ensures Split(Dotted(a, b, c, d), '.') == [Decimal(a), Decimal(b), Decimal(c), Decimal(d)]
    ensures Octets(Split(Dotted(a, b, c, d), '.')) == [Some(a), Some(b), Some(c), Some(d)]
  {
    SplitJoin([Decimal(a), Decimal(b), Decimal(c), Decimal(d)], '.');
    ParseDecimal(a);
    ParseDecimal(b);
    ParseDecimal(c);
    ParseDecimal(d);
  }

  /** Written addresses are read back. */
  lemma AddressOfDotted(a: nat, b: nat, c: nat, d: nat)
    requires a < 0x100 && b < 0x100 && c < 0x100 && d < 0x100
    ensures Address(Dotted(a, b, c, d)) == Some(QuadTop(a, b, c) + d)
  {
    DottedParts(a, b, c, d);
  }

  lemma BlockParts(a: nat, b: nat, c: nat, d: nat, prefix: nat)
    ensures Split(Block(Dotted(a, b, c, d), prefix), '/') == [Dotted(a, b, c, d), Decimal(prefix)]
  {
    var network := Dotted(a, b, c, d);
    JoinHolds([Decimal(a), Decimal(b), Decimal(c), Decimal(d)], '.', '/');
    SplitAt(network, Decimal(prefix), '/');
    SplitFree(network, '/');
    SplitFree(Decimal(prefix), '/');
  }

  lemma ReadBlockExactlyWhen(ip: string, cidr: string, x: nat, y: nat, prefix: nat)
    requires '/' in cidr && |Split(cidr, '/')| >= 2 && prefix <= 32
    requires Address(ip) == Some(x) && Address(Split(cidr, '/')[0]) == Some(y)
    requires ParseInt(Split(cidr, '/')[1]) == Some(prefix)
    ensures IpMatchesCidr(ip, cidr) <==> SameBlock(x, y, 32 - prefix)
  {
    hide IpMatchesCidr, SameBlock, Split, Address, ParseInt, HostBits;
    MatchExactlyWhen(ip, cidr);
    PrefixHonouredExactlyWhen(prefix);
  }

  /** The text of a block. */
  function Block(network: string, prefix: nat): (cidr: string)
    ensures '/' in cidr
  {
    network + "/" + Decimal(prefix)
  }

  /**
   * On written addresses and blocks, for all octets and every prefix length from 0
   * to 32: the test is true exactly when both addresses give the same quotient by
   * two to the number of host bits.
   */
  lemma WrittenBlockExactlyWhen(a: nat, b: nat, c: nat, d: nat, n1: nat, n2: nat, n3: nat, n4: nat, prefix: nat)
    requires a < 0x100 && b < 0x100 && c < 0x100 && d < 0x100
    requires n1 < 0x100 && n2 < 0x100 && n3 < 0x100 && n4 < 0x100 && prefix <= 32
    ensures IpMatchesCidr(Dotted(a, b, c, d), Block(Dotted(n1, n2, n3, n4), prefix)) <==>
              SameBlock(QuadTop(a, b, c) + d, QuadTop(n1, n2, n3) + n4, 32 - prefix)
  {
    hide IpMatchesCidr, SameBlock, QuadTop, Split, Dotted, Block, Address, ParseInt, Decimal;
    AddressOfDotted(a, b, c, d);
    AddressOfDotted(n1, n2, n3, n4);
    BlockParts(n1, n2, n3, n4, prefix);
    ParseDecimal(prefix);
    ReadBlockExactlyWhen(Dotted(a, b, c, d), Block(Dotted(n1, n2, n3, n4), prefix),
                         QuadTop(a, b, c) + d, QuadTop(n1, n2, n3) + n4, prefix);
  }

  /** An IPv4-mapped IPv6 address as it is written. */
  function Mapped(a: nat, b: nat, c: nat, d: nat): string {
    "::ffff:" + Dotted(a, b, c, d)
  }

  lemma MappedParts(a: nat, b: nat, c: nat, d: nat)
    ensures Split(Mapped(a, b, c, d), '.') == ["::ffff:" + Decimal(a), Decimal(b), Decimal(c), Decimal(d)]
  {
    var rest := [Decimal(b), Decimal(c), Decimal(d)];
    assert [Decimal(a), Decimal(b), Decimal(c), Decimal(d)] == [Decimal(a)] + rest;
    var front := "::ffff:";
    hide Split, Decimal, Join;
    JoinInFront(front, Decimal(a), rest);
    SplitJoin([front + Decimal(a)] + rest, '.');
  }

  lemma JoinInFront(front: string, first: string, rest: seq<string>)
    requires rest != []
    ensures Join([front + first] + rest, '.') == front + Join([first] + rest, '.')
  {
    assert ([front + first] + rest)[1..] == rest == ([first] + rest)[1..];
  }

  lemma MappedIsLoose(a: nat, b: nat, c: nat, d: nat)
    requires b < 0x100 && c < 0x100 && d < 0x100
    ensures IsQuad(ReadLoosely(Mapped(a, b, c, d)))
    ensures QuadValue(ReadLoosely(Mapped(a, b, c, d))) == QuadTop(0, b, c) + d
  {
    MappedParts(a, b, c, d);
    var first := "::ffff:" + Decimal(a);
    assert first[0] == ':';
    assert ParseInt(first) == None;
    ParseDecimal(b);
    ParseDecimal(c);
    ParseDecimal(d);
    hide Split, ParseInt, Decimal, Mapped;
  }

  /** An IPv4-mapped address is compared as if its first octet were zero. */
  lemma MappedExactlyWhen(a: nat, b: nat, c: nat, d: nat, n1: nat, n2: nat, n3: nat, n4: nat, prefix: nat)
    requires a < 0x100 && b < 0x100 && c < 0x100 && d < 0x100
    requires n1 < 0x100 && n2 < 0x100 && n3 < 0x100 && n4 < 0x100 && prefix <= 32
    ensures IpMatchesCidr(Mapped(a, b, c, d), Block(Dotted(n1, n2, n3, n4), prefix)) <==>
              SameBlock(QuadTop(0, b, c) + d, QuadTop(n1, n2, n3) + n4, 32 - prefix)
  {
    hide IpMatchesCidr, SameBlock, QuadTop, Split, Dotted, Block, Address, ParseInt, Decimal, ReadLoosely, Mapped;
    MappedIsLoose(a, b, c, d);
    AddressOfDotted(n1, n2, n3, n4);
    BlockParts(n1, n2, n3, n4, prefix);
    ParseDecimal(prefix);
    LooseMatchExactlyWhen(Mapped(a, b, c, d), Block(Dotted(n1, n2, n3, n4), prefix));
    PrefixHonouredExactlyWhen(prefix);
  }
}
