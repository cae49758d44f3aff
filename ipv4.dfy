/**
  Dotted-decimal IPv4 addresses and /24 networks, as Python's `ipaddress`
  module reads and prints them: `IPv4Address(text)`, `IPv4Network(text,
  strict=False)` and `str()` of each. A /24 network is the block of 256
  addresses sharing the first 24 bits (section 3.1 of RFC 4632).
 */
module Ipv4 {
  import opened Wrappers
  import opened Text

  type Octet = x: nat | x < 256

  datatype Address = Address(o1: Octet, o2: Octet, o3: Octet, o4: Octet)

  /**
    One octet of `IPv4Address(text)`: non-empty, ASCII digits only, at most
    three of them, no leading zero, value at most 255.
   */
  function ParseOctet(t: string): (r: Option<Octet>)
    ensures r.Some? ==> Canonical(t) && Decimal(r.value) == t
  {
    if t == [] || !AllDigits(t) || |t| > 3 || (t != "0" && t[0] == '0') then None
    else if DecimalValue(t) > 255 then None
    else
      CanonicalRoundTrip(t);
      Some(DecimalValue(t))
  }

  /** `IPv4Address(text)`; `None` where Python raises `AddressValueError`. */
  function ParseAddress(s: string): Option<Address>
  {
    if s == [] || '/' in s then None
    else
      var parts := Split(s, ".");
      if |parts| != 4 then None
      else
        match (ParseOctet(parts[0]), ParseOctet(parts[1]), ParseOctet(parts[2]), ParseOctet(parts[3]))
        case (Some(a), Some(b), Some(c), Some(d)) => Some(Address(a, b, c, d))
        case _ => None
  }

  function OctetTexts(a: Address): seq<string> {
    [Decimal(a.o1), Decimal(a.o2), Decimal(a.o3), Decimal(a.o4)]
  }

  /** `str(IPv4Address)`: four decimal octets joined by dots. */
  function FormatAddress(a: Address): string {
    Join(OctetTexts(a), ".")
  }

  lemma OctetParses(o: Octet)
    ensures ParseOctet(Decimal(o)) == Some(o)
  {
    DecimalRoundTrip(o);
    DecimalBelowThousand(o);
  }

  /** Printing an address and reading it back gives the same address. */
  lemma AddressRoundTrip(a: Address)
    ensures ParseAddress(FormatAddress(a)) == Some(a)
  {
    var parts := OctetTexts(a);
    var s := FormatAddress(a);
    assert forall p :: p in parts ==> '.' !in p && '/' !in p by {
      forall p | p in parts ensures '.' !in p && '/' !in p {
        assert AllDigits(p);
      }
    }
    SplitJoin(parts, ".");
    JoinAvoids(parts, ".", '/');
    OctetParses(a.o1);
    OctetParses(a.o2);
    OctetParses(a.o3);
    OctetParses(a.o4);
  }

  /**
    Every text `IPv4Address` accepts is already in printed form: `str(IPv4Address(s)) == s`.
    With AddressRoundTrip this makes parsing and printing inverse bijections.
   */
  lemma CanonicalText(s: string)
    requires ParseAddress(s).Some?
    ensures FormatAddress(ParseAddress(s).value) == s
  {
    var parts := Split(s, ".");
    var a := ParseAddress(s).value;
    assert OctetTexts(a) == parts;
    JoinSplit(s, ".");
  }

  /** Two texts name the same address exactly when they are the same text. */
  lemma ParseInjective(s: string, t: string)
    requires ParseAddress(s).Some? && ParseAddress(s) == ParseAddress(t)
    ensures s == t
  {
    CanonicalText(s);
    CanonicalText(t);
  }

  // ---------------------------------------------------------------- networks

  datatype Network = Network(base: Address, prefix: nat)

  function Pow2(k: nat): (r: nat)
    ensures r >= 1
  {
    if k == 0 then 1 else 2 * Pow2(k - 1)
  }

  /** How many leading bits of octet `index` (0..3) a prefix of length `prefix` covers. */
  function CoveredBits(prefix: nat, index: nat): (b: nat)
    ensures b <= 8
  {
    if prefix >= 8 * (index + 1) then 8
    else if prefix <= 8 * index then 0
    else prefix - 8 * index
  }

  /** Clear the low `8 - bits` bits of an octet. */
  function KeepHighBits(o: Octet, bits: nat): (r: Octet)
    requires bits <= 8
    ensures r <= o
  {
    RemainderBound(o, Pow2(8 - bits));
    o - o % Pow2(8 - bits)
  }

  lemma RemainderBound(n: nat, d: nat)
    requires d >= 1
    ensures 0 <= n % d <= n
  {
    if n < d {
      assert n == 0 * d + n;
    }
  }

  /** The network address: the host bits of `a` below the prefix set to zero. */
  function MaskTo(a: Address, prefix: nat): Address {
    Address(KeepHighBits(a.o1, CoveredBits(prefix, 0)), KeepHighBits(a.o2, CoveredBits(prefix, 1)),
            KeepHighBits(a.o3, CoveredBits(prefix, 2)), KeepHighBits(a.o4, CoveredBits(prefix, 3)))
  }

  /** A decimal prefix length between 0 and 32 (Python accepts leading zeros here). */
  function ParsePrefix(t: string): (r: Option<nat>)
    ensures r.Some? ==> r.value <= 32
  {
    if t == [] || !AllDigits(t) || DecimalValue(t) > 32 then None else Some(DecimalValue(t))
  }

  /**
    `IPv4Network(text, strict=False)` for `address` or `address/prefixlen`:
    at most one '/', the address parsed as by `IPv4Address`, a missing prefix
    meaning 32, and host bits masked off rather than rejected.
   */
  function ParseNetwork(s: string): (r: Option<Network>)
    ensures r.Some? ==> r.value.prefix <= 32
  {
    var parts := Split(s, "/");
    if |parts| > 2 then None
    else
      var prefix := if |parts| == 1 then Some(32) else ParsePrefix(parts[1]);
      match (ParseAddress(parts[0]), prefix)
      case (Some(a), Some(p)) => Some(Network(MaskTo(a, p), p))
      case _ => None
  }

  /** `str(IPv4Network)`: network address, '/', prefix length. */
  function FormatNetwork(n: Network): string {
    FormatAddress(n.base) + "/" + Decimal(n.prefix)
  }

  /** The /24 network holding an address. */
  function Network24(a: Address): Network {
    Network(MaskTo(a, 24), 24)
  }

  /** Its printed form, "o1.o2.o3.0/24": the key the analyzers group port addresses by. */
  function Slash24(a: Address): string {
    FormatNetwork(Network24(a))
  }

  /** A /24 mask keeps the first three octets and zeroes the fourth. */
  lemma Mask24(a: Address)
    ensures MaskTo(a, 24) == Address(a.o1, a.o2, a.o3, 0)
  {
    assert CoveredBits(24, 0) == 8 && CoveredBits(24, 1) == 8 && CoveredBits(24, 2) == 8 && CoveredBits(24, 3) == 0;
    KeepWhole(a.o1);
    KeepWhole(a.o2);
    KeepWhole(a.o3);
    KeepNothing(a.o4);
  }

  lemma KeepWhole(o: Octet)
    ensures KeepHighBits(o, 8) == o
  {
    assert Pow2(0) == 1;
  }

  lemma KeepNothing(o: Octet)
    ensures KeepHighBits(o, 0) == 0
  {
    assert Pow2(8) == 256 by {
      assert Pow2(4) == 16;
    }
    assert o == 0 * 256 + o;
  }

  /**
    `get_subnet(ip)` of the snapshot port analysis:
    `str(IPv4Network(f"{ip}/24", strict=False))`, or `None` where Python raises.
   */
  function SubnetOf(ip: string): Option<string> {
    match ParseNetwork(ip + "/24")
    case Some(n) => Some(FormatNetwork(n))
    case None => None
  }

  /**
    Parsing "ip/24" as a network agrees with parsing `ip` as an address and
    taking its /24: the two routes the source uses give the same subnet key,
    and the same failures.
   */
  lemma SubnetOfAddress(ip: string)
    ensures SubnetOf(ip) == match ParseAddress(ip)
                            case Some(a) => Some(Slash24(a))
                            case None => None
  {
    if '/' in ip {
      SplitAtFirstSlash(ip + "/24", ip);
    } else {
      SlashTwentyFour(ip);
      match ParseAddress(ip)
      case Some(a) => {
        Mask24(a);
      }
      case None => {}
    }
  }

  /** Without a slash of its own, `ip + "/24"` splits into the address text and the prefix 24. */
  lemma SlashTwentyFour(ip: string)
    requires '/' !in ip
    ensures Split(ip + "/24", "/") == [ip, "24"]
    ensures ParsePrefix("24") == Some(24) && Decimal(24) == "24"
  {
    assert ip + "/24" == ip + "/" + "24";
    SplitAtFirst(ip, "/", "24");
    SplitWithoutSeparator("24", "/");
    assert DecimalValue("24") == 24 by {
      assert "24"[..1] == "2";
    }
  }

  /** The subnet of a parsed address, computed from its printed form as `f"{ip}/24"`. */
  lemma PrintedSubnet(a: Address)
    ensures SubnetOf(FormatAddress(a)) == Some(Slash24(a))
  {
    SubnetOfAddress(FormatAddress(a));
    AddressRoundTrip(a);
  }

  lemma SplitAtFirstSlash(s: string, ip: string)
    requires s == ip + "/24" && '/' in ip
    ensures |Split(s, "/")| > 2
  {
    FirstSlash(ip);
    var j :| 0 <= j < |ip| && ip[j] == '/' && '/' !in ip[..j];
    assert s == ip[..j] + ['/'] + (ip[j + 1..] + "/24");
    SplitAtFirst(ip[..j], "/", ip[j + 1..] + "/24");
    assert (ip[j + 1..] + "/24")[|ip| - j - 1] == '/';
    SplitWithSeparator(ip[j + 1..] + "/24", '/');
  }

  lemma {:induction false} FirstSlash(t: string)
    requires '/' in t
    ensures exists j :: 0 <= j < |t| && t[j] == '/' && '/' !in t[..j]
    decreases |t|
  {
    if t[0] == '/' {
      assert t[..0] == [];
    } else {
      FirstSlash(t[1..]);
      var j :| 0 <= j < |t| - 1 && t[1..][j] == '/' && '/' !in t[1..][..j];
      assert t[..j + 1] == [t[0]] + t[1..][..j];
    }
  }

  /**
    Two addresses fall in the same bucket exactly when their first three
    octets agree: the subnet key is a faithful name for the /24 block.
   */
  lemma SameSlash24(a: Address, b: Address)
    ensures Slash24(a) == Slash24(b) <==> a.o1 == b.o1 && a.o2 == b.o2 && a.o3 == b.o3
  {
    Mask24(a);
    Mask24(b);
    var na, nb := MaskTo(a, 24), MaskTo(b, 24);
    if Slash24(a) == Slash24(b) {
      var sa, sb := FormatAddress(na), FormatAddress(nb);
      var tail := "/" + Decimal(24);
      assert Slash24(a) == sa + tail && Slash24(b) == sb + tail;
      assert |sa| == |sb|;
      assert sa == (sa + tail)[..|sa|];
      assert sa == sb;
      AddressRoundTrip(na);
      AddressRoundTrip(nb);
    }
  }
}
