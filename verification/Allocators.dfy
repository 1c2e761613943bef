/** The placeholder allocators of the fixture sanitizer and the acceptance
    tests their placeholders must pass (scripts/lib/sanitizer.py,
    scripts/lib/security_patterns.py). */
module Allocators {
  import opened Numerals
  import opened Pools

  /** A dotted-decimal address; its text and its four octets determine each other. */
  datatype Ipv4 = Ipv4(a: nat, b: nat, c: nat, d: nat)

  const HOSTS_PER_RANGE: nat := 241
  const MAC_PLACEHOLDER_PREFIX: string := "02:00:00:"

  // ------------------------------------------------------- the n-th placeholder

  function RangeHost(range: nat, host: nat): Ipv4 {
    match range % 3
    case 0 => Ipv4(198, 51, 100, host)
    case 1 => Ipv4(203, 0, 113, host)
    case _ => Ipv4(192, 0, 2, host)
  }

  function NthIpv4(i: nat): Ipv4 {
    RangeHost(i / HOSTS_PER_RANGE, 10 + i % HOSTS_PER_RANGE)
  }

  function NthIpv6(i: nat): string {
    "2001:db8::" + Numeral(i + 1, 16)
  }

  function HexByte(n: nat): string
    requires n < 256
  {
    [DIGITS[n / 16], DIGITS[n % 16]]
  }

  function NthMac(i: nat): string {
    MAC_PLACEHOLDER_PREFIX + "00:" + HexByte((i + 1) / 256 % 256) + ":" + HexByte((i + 1) % 256)
  }

  // ------------------------------------------------------------------- classes

  class IPv4Allocator {
    var given: map<Ipv4, Ipv4>
    var rangeIdx: nat
    var host: nat

    ghost predicate Valid()
      reads this
    {
      10 <= host <= 250
    }

    ghost function State(): Pool<Ipv4, Ipv4>
      reads this
      requires Valid()
    {
      Pool(given, rangeIdx * HOSTS_PER_RANGE + (host - 10))
    }

    constructor ()
      ensures Valid() && State() == Pool(map[], 0)
    {
      given, rangeIdx, host := map[], 0, 10;
    }

    method Allocate(key: Ipv4) returns (placeholder: Ipv4)
      requires Valid()
      modifies this
      ensures Valid()
      ensures State() == Pools.Allocate(old(State()), NthIpv4, key)
      ensures placeholder == State().given[key]
    {
      if key in given {
        return given[key];
      }
      DivMod(rangeIdx, host - 10);
      placeholder := RangeHost(rangeIdx, host);
      host := host + 1;
      if host > 250 {
        host := 10;
        rangeIdx := rangeIdx + 1;
      }
      given := given[key := placeholder];
    }
  }

  lemma DivMod(q: nat, r: nat)
    requires r < HOSTS_PER_RANGE
    ensures (q * HOSTS_PER_RANGE + r) / HOSTS_PER_RANGE == q
    ensures (q * HOSTS_PER_RANGE + r) % HOSTS_PER_RANGE == r
  {
  }

  class IPv6Allocator {
    var given: map<string, string>
    var counter: nat

    ghost predicate Valid()
      reads this
    {
      counter >= 1
    }

    ghost function State(): Pool<string, string>
      reads this
      requires Valid()
    {
      Pool(given, counter - 1)
    }

    constructor ()
      ensures Valid() && State() == Pool(map[], 0)
    {
      given, counter := map[], 1;
    }

    method Allocate(key: string) returns (placeholder: string)
      requires Valid()
      modifies this
      ensures Valid()
      ensures State() == Pools.Allocate(old(State()), NthIpv6, key)
      ensures placeholder == State().given[key]
    {
      if key in given {
        return given[key];
      }
      placeholder := "2001:db8::" + Numeral(counter, 16);
      counter := counter + 1;
      given := given[key := placeholder];
    }
  }

  class MacAllocator {
    var given: map<string, string>
    var counter: nat

    ghost predicate Valid()
      reads this
    {
      counter >= 1
    }

    ghost function State(): Pool<string, string>
      reads this
      requires Valid()
    {
      Pool(given, counter - 1)
    }

    constructor ()
      ensures Valid() && State() == Pool(map[], 0)
    {
      given, counter := map[], 1;
    }

    method Allocate(key: string) returns (placeholder: string)
      requires Valid()
      modifies this
      ensures Valid()
      ensures State() == Pools.Allocate(old(State()), NthMac, key)
      ensures placeholder == State().given[key]
    {
      if key in given {
        return given[key];
      }
      placeholder := MAC_PLACEHOLDER_PREFIX + "00:" + HexByte(counter / 256 % 256) + ":" + HexByte(counter % 256);
      counter := counter + 1;
      given := given[key := placeholder];
    }
  }

  // -------------------------------------------------------- exact collisions

  lemma SameIpv4(i: nat, j: nat)
    ensures NthIpv4(i) == NthIpv4(j) <==> i % 723 == j % 723
  {
    RangeAndHost(i);
    RangeAndHost(j);
  }

  lemma RangeAndHost(i: nat)
    ensures i / HOSTS_PER_RANGE % 3 == i % 723 / HOSTS_PER_RANGE
    ensures i % HOSTS_PER_RANGE == i % 723 % HOSTS_PER_RANGE
  {
    var q, r := i / 723, i % 723;
    assert i == 723 * q + r;
    assert i / HOSTS_PER_RANGE == 3 * q + r / HOSTS_PER_RANGE;
  }

  lemma HexByteInjective(m: nat, n: nat)
    requires m < 256 && n < 256 && HexByte(m) == HexByte(n)
    ensures m == n
  {
    assert HexByte(m)[0] == HexByte(n)[0] && HexByte(m)[1] == HexByte(n)[1];
    DigitsDistinct(m / 16, n / 16);
    DigitsDistinct(m % 16, n % 16);
  }

  lemma MacBytes(i: nat)
    ensures |NthMac(i)| == 17
    ensures NthMac(i)[12..14] == HexByte((i + 1) / 256 % 256)
    ensures NthMac(i)[15..17] == HexByte((i + 1) % 256)
  {
  }

  lemma SameMac(i: nat, j: nat)
    ensures NthMac(i) == NthMac(j) <==> i % 65536 == j % 65536
  {
    LowBytes(i + 1);
    LowBytes(j + 1);
    Successors(i, j);
    if NthMac(i) == NthMac(j) {
      MacBytes(i);
      MacBytes(j);
      HexByteInjective((i + 1) / 256 % 256, (j + 1) / 256 % 256);
      HexByteInjective((i + 1) % 256, (j + 1) % 256);
    } else {
      assert !((i + 1) / 256 % 256 == (j + 1) / 256 % 256 && (i + 1) % 256 == (j + 1) % 256);
    }
  }

  lemma Successors(i: nat, j: nat)
    ensures i % 65536 == j % 65536 <==> (i + 1) % 65536 == (j + 1) % 65536
  {
    NextResidue(i);
    NextResidue(j);
  }

  lemma NextResidue(i: nat)
    ensures (i + 1) % 65536 == if i % 65536 == 65535 then 0 else i % 65536 + 1
  {
  }

  lemma LowBytes(n: nat)
    ensures n % 65536 == n / 256 % 256 * 256 + n % 256
  {
  }

  /** IPv4: two keys share a placeholder exactly when their first uses are a
      multiple of 723 (241 hosts in 3 ranges) apart. */
  lemma Ipv4Collisions(keys: seq<Ipv4>, i: nat, j: nat)
    requires i < |FirstUses(keys)| && j < |FirstUses(keys)|
    ensures var given := AllocateAll(NthIpv4, keys).given;
      var r := FirstUses(keys);
      r[i] in given && r[j] in given && (given[r[i]] == given[r[j]] <==> i % 723 == j % 723)
  {
    FirstUseDecides(NthIpv4, keys);
    SameIpv4(i, j);
  }

  /** MAC: the same with 65536. */
  lemma MacCollisions(keys: seq<string>, i: nat, j: nat)
    requires i < |FirstUses(keys)| && j < |FirstUses(keys)|
    ensures var given := AllocateAll(NthMac, keys).given;
      var r := FirstUses(keys);
      r[i] in given && r[j] in given && (given[r[i]] == given[r[j]] <==> i % 65536 == j % 65536)
  {
    FirstUseDecides(NthMac, keys);
    SameMac(i, j);
  }

  /** IPv6: never; but the last group is a legal one (at most four hexadecimal
      digits, section 2.2 of RFC 4291) for exactly the first 65535 keys. */
  lemma Ipv6Collisions(keys: seq<string>, i: nat, j: nat)
    requires i < |FirstUses(keys)| && j < |FirstUses(keys)|
    ensures var given := AllocateAll(NthIpv6, keys).given;
      var r := FirstUses(keys);
      && r[i] in given && r[j] in given
      && (given[r[i]] == given[r[j]] <==> i == j)
      && (|given[r[i]]| - |"2001:db8::"| <= 4 <==> i < 65535)
  {
    FirstUseDecides(NthIpv6, keys);
    assert NthIpv6(i)[|"2001:db8::"|..] == Numeral(i + 1, 16);
    assert NthIpv6(j)[|"2001:db8::"|..] == Numeral(j + 1, 16);
    if NthIpv6(i) == NthIpv6(j) {
      NumeralInjective(i + 1, j + 1, 16);
    }
    HexWidth(i + 1);
  }

  // ----------------------------------------------------------- acceptance side

  function Binary(value: nat, width: nat): (bits: seq<bool>)
    ensures |bits| == width
  {
    if width == 0 then [] else Binary(value / 2, width - 1) + [value % 2 == 1]
  }

  /** The whole text matches ones followed by zeros. */
  predicate OnesThenZeros(bits: seq<bool>) {
    forall i, j :: 0 <= i < j < |bits| && bits[j] ==> bits[i]
  }

  function Value(ip: Ipv4): nat {
    ((ip.a * 256 + ip.b) * 256 + ip.c) * 256 + ip.d
  }

  predicate IsNetmask(ip: Ipv4) {
    OnesThenZeros(Binary(Value(ip), 32))
  }

  predicate IsSafeIpv4(ip: Ipv4) {
    || ip.a == 127
    || IsNetmask(ip)
    || (ip.a, ip.b, ip.c) in {(192, 0, 2), (198, 51, 100), (203, 0, 113)}
  }

  function HexDigitValue(c: char): nat {
    if '0' <= c <= '9' then (c - '0') as nat
    else if 'a' <= c <= 'f' then 10 + (c - 'a') as nat
    else if 'A' <= c <= 'F' then 10 + (c - 'A') as nat
    else 0
  }

  /** The second-least significant bit of the first octet. */
  predicate IsLocallyAdministered(mac: string) {
    |mac| >= 2 && (HexDigitValue(mac[0]) * 16 + HexDigitValue(mac[1])) / 2 % 2 == 1
  }

  function Pow2(n: nat): nat {
    if n == 0 then 1 else 2 * Pow2(n - 1)
  }

  predicate AllTrue(bits: seq<bool>) {
    forall i :: 0 <= i < |bits| ==> bits[i]
  }

  lemma AppendBit(bits: seq<bool>, bit: bool)
    ensures OnesThenZeros(bits + [bit]) <==> if bit then AllTrue(bits) else OnesThenZeros(bits)
    ensures AllTrue(bits + [bit]) <==> AllTrue(bits) && bit
  {
    var more := bits + [bit];
    assert more[|bits|] == bit;
    assert forall i :: 0 <= i < |bits| ==> more[i] == bits[i];
    if bit && OnesThenZeros(more) {
      forall i | 0 <= i < |bits| ensures bits[i] {
        assert more[|bits|] ==> more[i];
      }
    }
    if !bit && OnesThenZeros(more) {
      forall i, j | 0 <= i < j < |bits| && bits[j] ensures bits[i] {
        assert more[j] ==> more[i];
      }
    }
    if AllTrue(more) {
      forall i | 0 <= i < |bits| ensures bits[i] {
        assert more[i];
      }
    }
  }

  lemma {:induction false} AllOnes(value: nat, width: nat)
    requires value < Pow2(width)
    ensures AllTrue(Binary(value, width)) <==> value + 1 == Pow2(width)
  {
    if width > 0 {
      AllOnes(value / 2, width - 1);
      AppendBit(Binary(value / 2, width - 1), value % 2 == 1);
    }
  }

  lemma {:induction false} MaskHasGap(value: nat, width: nat) returns (k: nat)
    requires value < Pow2(width) && OnesThenZeros(Binary(value, width))
    ensures k <= width && value + Pow2(k) == Pow2(width)
  {
    k := 0;
    if width > 0 {
      AppendBit(Binary(value / 2, width - 1), value % 2 == 1);
      if value % 2 == 1 {
        AllOnes(value / 2, width - 1);
      } else {
        k := MaskHasGap(value / 2, width - 1);
        k := k + 1;
      }
    }
  }

  lemma {:induction false} GapIsMask(value: nat, width: nat, k: nat)
    requires k <= width && value + Pow2(k) == Pow2(width)
    ensures OnesThenZeros(Binary(value, width))
  {
    if width > 0 {
      AppendBit(Binary(value / 2, width - 1), value % 2 == 1);
      if k == 0 {
        AllOnes(value / 2, width - 1);
      } else {
        GapIsMask(value / 2, width - 1, k - 1);
      }
    }
  }

  /** The textual test accepts exactly the values 2^32 - 2^k. */
  lemma NetmaskExactly(ip: Ipv4)
    requires Value(ip) < Pow2(32)
    ensures IsNetmask(ip) <==> exists k :: 0 <= k <= 32 && Value(ip) + Pow2(k) == Pow2(32)
  {
    if IsNetmask(ip) {
      var k := MaskHasGap(Value(ip), 32);
    }
    if k :| 0 <= k <= 32 && Value(ip) + Pow2(k) == Pow2(32) {
      GapIsMask(Value(ip), 32, k);
    }
  }

  /** Safe are loopback addresses, netmasks, and the documentation ranges. */
  lemma SafeExactly(ip: Ipv4)
    requires Value(ip) < Pow2(32)
    ensures IsSafeIpv4(ip) <==>
      || ip.a == 127
      || (exists k :: 0 <= k <= 32 && Value(ip) + Pow2(k) == Pow2(32))
      || (ip.a == 192 && ip.b == 0 && ip.c == 2)
      || (ip.a == 198 && ip.b == 51 && ip.c == 100)
      || (ip.a == 203 && ip.b == 0 && ip.c == 113)
  {
    NetmaskExactly(ip);
  }

  lemma LowBit(hi: nat, lo: nat)
    ensures (hi * 16 + lo) / 2 % 2 == lo / 2 % 2
  {
    assert (hi * 16 + lo) / 2 == hi * 8 + lo / 2;
  }

  predicate LocalDigit(c: char) {
    || c == '2' || c == '3' || c == '6' || c == '7'
    || c == 'a' || c == 'b' || c == 'e' || c == 'f' || c == 'A' || c == 'B' || c == 'E' || c == 'F'
  }

  lemma LocalDigitExactly(c: char)
    ensures HexDigitValue(c) / 2 % 2 == 1 <==> LocalDigit(c)
  {
  }

  /** The second digit of an address says who administers it. */
  lemma LocalExactly(mac: string)
    ensures IsLocallyAdministered(mac) <==> |mac| >= 2 && LocalDigit(mac[1])
  {
    if |mac| >= 2 {
      LowBit(HexDigitValue(mac[0]), HexDigitValue(mac[1]));
      LocalDigitExactly(mac[1]);
    }
  }

  /** Every placeholder ever handed out passes the safety test on the other
      side (the documentation ranges are those of section 3 of RFC 5737), and
      none is taken for a value still to be replaced. */
  lemma PlaceholdersAccepted(i: nat)
    ensures IsSafeIpv4(NthIpv4(i)) && NthIpv4(i).d < 256
    ensures IsLocallyAdministered(NthMac(i)) && MAC_PLACEHOLDER_PREFIX <= NthMac(i) && |NthMac(i)| == 17
  {
    assert NthMac(i)[0] == '0' && NthMac(i)[1] == '2';
  }

  // --------------------------------------------------- the placeholders themselves

  /** The hosts 10 to 250 of each documentation range in turn. */
  lemma Ipv4Placeholders(i: nat)
    ensures var k := i % 723;
      NthIpv4(i) ==
        if k < 241 then Ipv4(198, 51, 100, 10 + k)
        else if k < 482 then Ipv4(203, 0, 113, k - 231)
        else Ipv4(192, 0, 2, k - 472)
  {
    RangeAndHost(i);
  }

  /** What a text of digits is worth. */
  function Worth(s: string, base: nat): nat {
    if s == [] then 0 else Worth(s[..|s| - 1], base) * base + HexDigitValue(s[|s| - 1])
  }

  lemma DigitWorth(d: nat)
    requires d < 16
    ensures HexDigitValue(DIGITS[d]) == d
  {
  }

  lemma WorthAppended(s: string, d: nat, base: nat)
    requires d < 16
    ensures Worth(s + [DIGITS[d]], base) == Worth(s, base) * base + d
  {
    DigitWorth(d);
    assert (s + [DIGITS[d]])[..|s|] == s;
  }

  lemma Recomposed(n: nat, base: nat)
    requires base == 10 || base == 16
    ensures n / base * base + n % base == n
  {
  }

  lemma {:induction false} NumeralWorth(n: nat, base: nat)
    requires base == 10 || base == 16
    ensures Worth(Numeral(n, base), base) == n
  {
    if n < base {
      WorthAppended([], n, base);
      assert [] + [DIGITS[n]] == [DIGITS[n]];
    } else {
      NumeralWorth(n / base, base);
      WorthAppended(Numeral(n / base, base), n % base, base);
      Recomposed(n, base);
    }
  }

  /** The number of the key, from one, in the last group. */
  lemma Ipv6Placeholders(i: nat)
    ensures "2001:db8::" <= NthIpv6(i) && Worth(NthIpv6(i)[10..], 16) == i + 1
  {
    NumeralWorth(i + 1, 16);
    assert NthIpv6(i)[10..] == Numeral(i + 1, 16);
  }

  /** The octet spelled at `k`. */
  function ByteAt(s: string, k: nat): nat
    requires k + 2 <= |s|
  {
    HexDigitValue(s[k]) * 16 + HexDigitValue(s[k + 1])
  }

  /** The low 16 bits of the number of the key, in the last two octets. */
  lemma MacPlaceholders(i: nat)
    ensures var m := NthMac(i);
      && |m| == 17 && m[..12] == "02:00:00:00:" && m[14] == ':'
      && ByteAt(m, 12) * 256 + ByteAt(m, 15) == (i + 1) % 65536
  {
    var hi, lo := (i + 1) / 256 % 256, (i + 1) % 256;
    var m := NthMac(i);
    MacBytes(i);
    LowBytes(i + 1);
    assert m[12] == m[12..14][0] && m[13] == m[12..14][1] && m[15] == m[15..17][0] && m[16] == m[15..17][1];
    DigitWorth(hi / 16);
    DigitWorth(hi % 16);
    DigitWorth(lo / 16);
    DigitWorth(lo % 16);
  }
}
