/**
 Reverse names against prefixes. The synthesizer attaches a PTR to a reverse zone when the reverse name
 ends with the zone's name as raw text, with no label boundary. This module says what that test accepts.
 */
module ReverseZones {
  import opened Basics
  import opened Text
  import opened Net

  /** A prefix whose length falls between labels: whole octets for IPv4, whole nibbles for IPv6. */
  predicate Aligned(p: Prefix) {
    p.addr.Zoneless() && p.bits <= 8 * |p.addr.Raw()| && p.bits % (if p.addr.V4? then 8 else 4) == 0
  }

  function LabelCount(p: Prefix): nat {
    p.bits / (if p.addr.V4? then 8 else 4)
  }

  function ZoneLabels(p: Prefix): seq<string>
    requires LabelCount(p) <= |AddrParts(p.addr)|
  {
    Reversed(AddrParts(p.addr)[..LabelCount(p)]) + ArpaParts(p.addr)
  }

  /** The name of the reverse zone delegated for an aligned prefix. */
  function ZoneName(p: Prefix): string
    requires LabelCount(p) <= |AddrParts(p.addr)|
  {
    Join(ZoneLabels(p), ".")
  }

  // ---------- Labels determine addresses ----------

  lemma HexDigitInjective(m: int, n: int)
    requires 0 <= m < 16 && 0 <= n < 16 && HexDigit(m) == HexDigit(n)
    ensures m == n
  {
  }

  function Nibble(raw: seq<byte>, j: nat): int
    requires j / 2 < |raw|
  {
    if j % 2 == 0 then raw[j / 2] / 16 else raw[j / 2] % 16
  }

  lemma {:induction false} NibblePartAt(raw: seq<byte>, j: nat)
    requires j / 2 < |raw|
    ensures j < |NibbleParts(raw)| && NibbleParts(raw)[j] == [HexDigit(Nibble(raw, j))]
  {
    if j >= 2 {
      NibblePartAt(raw[1..], j - 2);
    }
  }

  lemma NibblePartsEqualAt(x: seq<byte>, y: seq<byte>, j: nat)
    requires j / 2 < |x| && j / 2 < |y|
    ensures j < |NibbleParts(x)| && j < |NibbleParts(y)|
    ensures NibbleParts(x)[j] == NibbleParts(y)[j] <==> Nibble(x, j) == Nibble(y, j)
  {
    NibblePartAt(x, j);
    NibblePartAt(y, j);
    var m, n := Nibble(x, j), Nibble(y, j);
    if NibbleParts(x)[j] == NibbleParts(y)[j] {
      assert [HexDigit(m)][0] == [HexDigit(n)][0];
      HexDigitInjective(m, n);
    }
  }

  lemma ByteFromNibbles(x: byte, y: byte)
    ensures x == y <==> x / 16 == y / 16 && x % 16 == y % 16
  {
  }

  lemma PartsDetermineAddr(a: Addr, b: Addr)
    requires a.V4? == b.V4? && a.Zoneless() && b.Zoneless()
    requires AddrParts(a) == AddrParts(b)
    ensures a == b
  {
    if a.V4? {
      forall i | 0 <= i < 4
        ensures a.octets[i] == b.octets[i]
      {
        assert AddrParts(a)[i] == AddrParts(b)[i];
        PrintNatInjective(a.octets[i], b.octets[i]);
      }
    } else {
      forall i: nat | i < 16
        ensures a.bytes[i] == b.bytes[i]
      {
        NibblePartsEqualAt(a.bytes, b.bytes, 2 * i);
        NibblePartsEqualAt(a.bytes, b.bytes, 2 * i + 1);
        ByteFromNibbles(a.bytes[i], b.bytes[i]);
      }
      assert a.bytes == b.bytes;
    }
  }

  lemma ReversedTwice<T>(s: seq<T>)
    ensures Reversed(Reversed(s)) == s
  {
  }

  /** Two addresses without zones never share a reverse name. */
  lemma ReverseNameInjective(a: Addr, b: Addr)
    requires a.Zoneless() && b.Zoneless()
    ensures ReverseName(a) == ReverseName(b) <==> a == b
  {
    if ReverseName(a) == ReverseName(b) {
      SplitReverseName(a);
      SplitReverseName(b);
      var la, lb := ReverseLabels(a), ReverseLabels(b);
      assert la[|la| - 2..] == ArpaParts(a) && lb[|lb| - 2..] == ArpaParts(b);
      assert a.V4? == b.V4? by {
        assert ArpaParts(a)[0] == ArpaParts(b)[0];
        assert |ArpaParts(a)[0]| == |ArpaParts(b)[0]|;
      }
      assert la[..|la| - 2] == Reversed(AddrParts(a)) && lb[..|lb| - 2] == Reversed(AddrParts(b));
      ReversedTwice(AddrParts(a));
      ReversedTwice(AddrParts(b));
      PartsDetermineAddr(a, b);
    }
  }

  // ---------- Containment is agreement of leading labels ----------

  predicate SameBits(x: byte, y: byte, from: nat, to: nat)
    requires to <= 8
  {
    forall j: nat :: from <= j < to ==> Bit([x], j) == Bit([y], j)
  }

  lemma NibbleSum(n: int)
    requires 0 <= n < 16
    ensures n == 8 * (n / 8 % 2) + 4 * (n / 4 % 2) + 2 * (n / 2 % 2) + n % 2
  {
  }

  lemma HighBits(x: byte)
    ensures Bit([x], 0) == x / 16 / 8 % 2 && Bit([x], 1) == x / 16 / 4 % 2
    ensures Bit([x], 2) == x / 16 / 2 % 2 && Bit([x], 3) == x / 16 % 2
  {
  }

  lemma LowBits(x: byte)
    ensures Bit([x], 4) == x % 16 / 8 % 2 && Bit([x], 5) == x % 16 / 4 % 2
    ensures Bit([x], 6) == x % 16 / 2 % 2 && Bit([x], 7) == x % 16 % 2
  {
    var q, r := x / 16, x % 16;
    LowPart(q, r);
  }

  lemma LowPart(q: int, r: int)
    requires 0 <= q < 16 && 0 <= r < 16
    ensures (16 * q + r) / 8 == 2 * q + r / 8 && (2 * q + r / 8) % 2 == r / 8 % 2
    ensures (16 * q + r) / 4 == 4 * q + r / 4 && (4 * q + r / 4) % 2 == r / 4 % 2
    ensures (16 * q + r) / 2 == 8 * q + r / 2 && (8 * q + r / 2) % 2 == r / 2 % 2
    ensures (16 * q + r) % 2 == r % 2
  {
  }

  lemma HighNibbleBits(x: byte, y: byte)
    ensures SameBits(x, y, 0, 4) <==> x / 16 == y / 16
  {
    HighBits(x);
    HighBits(y);
    if SameBits(x, y, 0, 4) {
      NibbleSum(x / 16);
      NibbleSum(y / 16);
      assert forall j: nat :: j < 4 ==> Bit([x], j) == Bit([y], j);
    }
  }

  lemma LowNibbleBits(x: byte, y: byte)
    ensures SameBits(x, y, 4, 8) <==> x % 16 == y % 16
  {
    LowBits(x);
    LowBits(y);
    if SameBits(x, y, 4, 8) {
      NibbleSum(x % 16);
      NibbleSum(y % 16);
      assert forall j: nat :: 4 <= j < 8 ==> Bit([x], j) == Bit([y], j);
    }
  }

  lemma BitOfByte(raw: seq<byte>, j: nat)
    requires j < 8 * |raw|
    ensures Bit(raw, j) == Bit([raw[j / 8]], j % 8)
  {
  }

  /** The first `4 * k` bits agree exactly when the first `k` nibbles do. */
  lemma BitsAreNibbles(x: seq<byte>, y: seq<byte>, k: nat)
    requires |x| == |y| && k <= 2 * |x|
    ensures (forall j: nat :: j < 4 * k ==> Bit(x, j) == Bit(y, j)) <==>
            (forall n: nat :: n < k ==> Nibble(x, n) == Nibble(y, n))
  {
    if forall j: nat :: j < 4 * k ==> Bit(x, j) == Bit(y, j) {
      forall n: nat | n < k
        ensures Nibble(x, n) == Nibble(y, n)
      {
        NibbleFromBits(x, y, n);
      }
    }
    if forall n: nat :: n < k ==> Nibble(x, n) == Nibble(y, n) {
      forall j: nat | j < 4 * k
        ensures Bit(x, j) == Bit(y, j)
      {
        assert Nibble(x, j / 4) == Nibble(y, j / 4);
        NibbleFromBits(x, y, j / 4);
        BitInNibble(x, y, j);
      }
    }
  }

  predicate SameNibbleBits(x: seq<byte>, y: seq<byte>, n: nat)
    requires |x| == |y| && n / 2 < |x|
  {
    SameBits(x[n / 2], y[n / 2], n % 2 * 4, n % 2 * 4 + 4)
  }

  lemma NibbleFromBits(x: seq<byte>, y: seq<byte>, n: nat)
    requires |x| == |y| && n / 2 < |x|
    ensures (forall j: nat :: 4 * n <= j < 4 * n + 4 ==> Bit(x, j) == Bit(y, j)) ==> SameNibbleBits(x, y, n)
    ensures SameNibbleBits(x, y, n) <==> Nibble(x, n) == Nibble(y, n)
  {
    var b, c := x[n / 2], y[n / 2];
    if n % 2 == 0 {
      HighNibbleBits(b, c);
    } else {
      LowNibbleBits(b, c);
    }
    if forall j: nat :: 4 * n <= j < 4 * n + 4 ==> Bit(x, j) == Bit(y, j) {
      forall i: nat | n % 2 * 4 <= i < n % 2 * 4 + 4
        ensures Bit([b], i) == Bit([c], i)
      {
        var j := n / 2 * 8 + i;
        assert 4 * n <= j < 4 * n + 4 && j / 8 == n / 2 && j % 8 == i;
        BitOfByte(x, j);
        BitOfByte(y, j);
      }
    }
  }

  lemma BitInNibble(x: seq<byte>, y: seq<byte>, j: nat)
    requires |x| == |y| && j < 8 * |x|
    requires SameNibbleBits(x, y, j / 4)
    ensures Bit(x, j) == Bit(y, j)
  {
    var n := j / 4;
    assert n / 2 == j / 8 && n % 2 * 4 <= j % 8 < n % 2 * 4 + 4;
    BitOfByte(x, j);
    BitOfByte(y, j);
  }

  lemma NibbleBits(raw: seq<byte>, k: nat)
    requires k / 2 < |raw|
    ensures Bit(raw, 4 * k) == Nibble(raw, k) / 8 % 2 && Bit(raw, 4 * k + 1) == Nibble(raw, k) / 4 % 2
    ensures Bit(raw, 4 * k + 2) == Nibble(raw, k) / 2 % 2
  {
    BitOfByte(raw, 4 * k);
    BitOfByte(raw, 4 * k + 1);
    BitOfByte(raw, 4 * k + 2);
    var b := raw[k / 2];
    HighBits(b);
    LowBits(b);
    assert 4 * k / 8 == k / 2 && (4 * k + 1) / 8 == k / 2 && (4 * k + 2) / 8 == k / 2;
  }

  /** The number that the first `r` bits of a nibble spell. */
  function Leading(nibble: int, r: nat): int
    requires r < 4
  {
    match r
    case 0 => 0
    case 1 => nibble / 8
    case 2 => nibble / 4
    case _ => nibble / 2
  }

  /** Bits `4 * k` and on, `r` of them. */
  predicate SameFrom(x: seq<byte>, y: seq<byte>, k: nat, r: nat)
    requires |x| == |y| && 4 * k + r <= 8 * |x|
  {
    forall j: nat :: 4 * k <= j < 4 * k + r ==> Bit(x, j) == Bit(y, j)
  }

  lemma LeadingOfNibble(m: int, n: int)
    requires 0 <= m < 16 && 0 <= n < 16
    ensures m / 8 == n / 8 <==> m / 8 % 2 == n / 8 % 2
    ensures m / 4 == n / 4 <==> m / 8 % 2 == n / 8 % 2 && m / 4 % 2 == n / 4 % 2
    ensures m / 2 == n / 2 <==> m / 8 % 2 == n / 8 % 2 && m / 4 % 2 == n / 4 % 2 && m / 2 % 2 == n / 2 % 2
  {
  }

  lemma LeadingIff(x: seq<byte>, y: seq<byte>, k: nat, r: nat)
    requires |x| == |y| && k / 2 < |x| && r < 4
    ensures SameFrom(x, y, k, r) <==> Leading(Nibble(x, k), r) == Leading(Nibble(y, k), r)
  {
    NibbleBits(x, k);
    NibbleBits(y, k);
    LeadingOfNibble(Nibble(x, k), Nibble(y, k));
    assert SameFrom(x, y, k, r) <==>
           (r > 0 ==> Bit(x, 4 * k) == Bit(y, 4 * k)) && (r > 1 ==> Bit(x, 4 * k + 1) == Bit(y, 4 * k + 1)) &&
           (r > 2 ==> Bit(x, 4 * k + 2) == Bit(y, 4 * k + 2));
  }

  /** Two addresses begin with the same `bits` bits: whole nibbles are equal, and so are the leading bits of the next one. */
  predicate SameLead(x: seq<byte>, y: seq<byte>, bits: nat)
    requires |x| == |y| && bits <= 8 * |x|
  {
    && (forall n: nat :: n < bits / 4 ==> Nibble(x, n) == Nibble(y, n))
    && (bits % 4 != 0 ==> Leading(Nibble(x, bits / 4), bits % 4) == Leading(Nibble(y, bits / 4), bits % 4))
  }

  /** An address is in a prefix of any length exactly when it is of its family, has no zone, and begins with its bits. */
  lemma ContainsByNibbles(p: Prefix, a: Addr)
    requires p.bits <= 8 * |p.addr.Raw()|
    ensures Contains(p, a) <==> a.Zoneless() && p.addr.V4? == a.V4? && SameLead(p.addr.Raw(), a.Raw(), p.bits)
  {
    if p.addr.V4? == a.V4? {
      var x, y, k, r := p.addr.Raw(), a.Raw(), p.bits / 4, p.bits % 4;
      BitsAreNibbles(x, y, k);
      if r != 0 {
        LeadingIff(x, y, k, r);
      }
      assert p.bits == 4 * k + r;
      assert (forall j: nat :: j < p.bits ==> Bit(x, j) == Bit(y, j)) <==>
             (forall j: nat :: j < 4 * k ==> Bit(x, j) == Bit(y, j)) && SameFrom(x, y, k, r);
    }
  }

  /** Octet labels agree when both their nibbles do. */
  lemma OctetLabelsAgree(x: Octets4, y: Octets4, k: nat)
    requires k <= 4
    ensures OctetParts(x)[..k] == OctetParts(y)[..k] <==> x[..k] == y[..k]
    ensures x[..k] == y[..k] <==> forall n: nat :: n < 2 * k ==> Nibble(x, n) == Nibble(y, n)
  {
    var xs, ys := OctetParts(x)[..k], OctetParts(y)[..k];
    if xs == ys {
      forall i | 0 <= i < k
        ensures x[i] == y[i]
      {
        assert xs[i] == ys[i];
        PrintNatInjective(x[i], y[i]);
      }
    }
    if x[..k] == y[..k] {
      forall n: nat | n < 2 * k
        ensures Nibble(x, n) == Nibble(y, n)
      {
        assert x[n / 2] == x[..k][n / 2] == y[..k][n / 2] == y[n / 2];
      }
      assert forall i :: 0 <= i < k ==> x[..k][i] == y[..k][i];
    }
    if forall n: nat :: n < 2 * k ==> Nibble(x, n) == Nibble(y, n) {
      forall i | 0 <= i < k
        ensures x[i] == y[i]
      {
        assert Nibble(x, 2 * i) == Nibble(y, 2 * i) && Nibble(x, 2 * i + 1) == Nibble(y, 2 * i + 1);
        ByteFromNibbles(x[i], y[i]);
      }
    }
  }

  lemma NibbleLabelsAgree(x: Octets16, y: Octets16, k: nat)
    requires k <= 32
    ensures NibbleParts(x)[..k] == NibbleParts(y)[..k] <==> forall n: nat :: n < k ==> Nibble(x, n) == Nibble(y, n)
  {
    var xs, ys := NibbleParts(x)[..k], NibbleParts(y)[..k];
    forall n: nat | n < k
      ensures xs[n] == ys[n] <==> Nibble(x, n) == Nibble(y, n)
    {
      NibblePartsEqualAt(x, y, n);
    }
  }

  lemma ContainsByParts(p: Prefix, a: Addr)
    requires Aligned(p) && a.Zoneless() && p.addr.V4? == a.V4?
    ensures LabelCount(p) <= |AddrParts(a)| == |AddrParts(p.addr)|
    ensures Contains(p, a) <==> AddrParts(p.addr)[..LabelCount(p)] == AddrParts(a)[..LabelCount(p)]
  {
    var k := LabelCount(p);
    if a.V4? {
      BitsAreNibbles(p.addr.octets, a.octets, 2 * k);
      OctetLabelsAgree(p.addr.octets, a.octets, k);
    } else {
      BitsAreNibbles(p.addr.bytes, a.bytes, k);
      NibbleLabelsAgree(p.addr.bytes, a.bytes, k);
    }
  }

  // ---------- Containment is a label suffix ----------

  lemma ReversedTakes<T>(s: seq<T>, k: nat)
    requires k <= |s|
    ensures Reversed(s)[|s| - k..] == Reversed(s[..k])
  {
  }

  lemma SplitZoneName(p: Prefix)
    requires LabelCount(p) <= |AddrParts(p.addr)|
    ensures Split(ZoneName(p), '.') == ZoneLabels(p)
  {
    PartsHaveNoDots(p.addr);
    var parts := AddrParts(p.addr)[..LabelCount(p)];
    forall l | l in ZoneLabels(p)
      ensures '.' !in l
    {
      if l in Reversed(parts) {
        assert l in AddrParts(p.addr);
      }
    }
    SplitJoin(ZoneLabels(p), '.');
  }

  lemma DifferentFamilies(a: Addr, b: Addr)
    requires a.V4? != b.V4?
    ensures ArpaParts(a) != ArpaParts(b)
  {
    assert |ArpaParts(a)[0]| != |ArpaParts(b)[0]|;
  }

  /** The tails that a zone's labels can be compared with, for addresses of the same family. */
  lemma TailOfReverseLabels(p: Prefix, a: Addr)
    requires Aligned(p) && LabelCount(p) < |AddrParts(p.addr)|
    ensures IsTail(ZoneLabels(p), ReverseLabels(a)) <==>
            p.addr.V4? == a.V4? && AddrParts(p.addr)[..LabelCount(p)] == AddrParts(a)[..LabelCount(p)]
  {
    var k := LabelCount(p);
    var z, l := ZoneLabels(p), ReverseLabels(a);
    var ps := AddrParts(p.addr)[..k];
    if p.addr.V4? == a.V4? {
      var tail := l[|l| - |z|..];
      ReversedTakes(AddrParts(a), k);
      assert tail == Reversed(AddrParts(a)[..k]) + ArpaParts(a);
      if tail == z {
        assert tail[..k] == z[..k];
        ReversedTwice(ps);
        ReversedTwice(AddrParts(a)[..k]);
      }
    } else {
      DifferentFamilies(p.addr, a);
      assert z[|z| - 2..] == ArpaParts(p.addr) && l[|l| - 2..] == ArpaParts(a);
    }
  }

  /** An address is in an aligned prefix exactly when its reverse name is a proper subdomain of the zone. */
  lemma ContainedIffSubdomain(p: Prefix, a: Addr)
    requires Aligned(p) && LabelCount(p) < |AddrParts(p.addr)| && a.Zoneless()
    ensures Contains(p, a) <==> HasSuffix(ReverseName(a), "." + ZoneName(p))
  {
    SuffixOfParts(ReverseName(a), ZoneName(p), '.');
    SplitReverseName(a);
    SplitZoneName(p);
    TailOfReverseLabels(p, a);
    if p.addr.V4? == a.V4? {
      ContainsByParts(p, a);
    }
  }

  /** The one aligned case left: a prefix of full length has one address, whose reverse name is the zone name itself. */
  lemma FullLengthIsTheNameItself(p: Prefix, a: Addr)
    requires Aligned(p) && LabelCount(p) == |AddrParts(p.addr)| && a.Zoneless()
    ensures Contains(p, a) <==> ReverseName(a) == ZoneName(p)
  {
    assert AddrParts(p.addr)[..LabelCount(p)] == AddrParts(p.addr);
    assert ZoneName(p) == ReverseName(p.addr);
    ReverseNameInjective(p.addr, a);
    if p.addr.V4? == a.V4? {
      ContainsByParts(p, a);
      assert AddrParts(a)[..LabelCount(p)] == AddrParts(a);
      if AddrParts(p.addr) == AddrParts(a) {
        PartsDetermineAddr(p.addr, a);
      }
    }
  }

  /** Hence the raw suffix test accepts every address of the zone's prefix. */
  lemma RawSuffixAcceptsThePrefix(p: Prefix, a: Addr)
    requires Aligned(p) && a.Zoneless() && Contains(p, a)
    ensures HasSuffix(ReverseName(a), ZoneName(p))
  {
    if LabelCount(p) == |AddrParts(p.addr)| {
      FullLengthIsTheNameItself(p, a);
    } else {
      ContainedIffSubdomain(p, a);
      var s, t := ReverseName(a), ZoneName(p);
      assert s[|s| - |"." + t|..][1..] == s[|s| - |t|..];
    }
  }

  // ---------- What the raw suffix test really accepts ----------

  /** Same family, the same labels above the zone's own one, and that one matching as a text suffix. */
  ghost predicate RawMatch(p: Prefix, a: Addr)
    requires Aligned(p) && 1 <= LabelCount(p)
  {
    var k := LabelCount(p);
    p.addr.V4? == a.V4? && AddrParts(p.addr)[..k - 1] == AddrParts(a)[..k - 1] &&
    HasSuffix(AddrParts(a)[k - 1], AddrParts(p.addr)[k - 1])
  }

  lemma ZoneLabelsSplit(parts: seq<string>, arpa: seq<string>, k: nat)
    requires 1 <= k <= |parts|
    ensures (Reversed(parts[..k]) + arpa)[0] == parts[k - 1]
    ensures (Reversed(parts[..k]) + arpa)[1..] == Reversed(parts[..k - 1]) + arpa
  {
  }

  lemma LabelsFromTheEnd(parts: seq<string>, arpa: seq<string>, k: nat)
    requires 1 <= k <= |parts| && |arpa| == 2
    ensures (Reversed(parts) + arpa)[|parts| - k] == parts[k - 1]
    ensures (Reversed(parts) + arpa)[|parts| - k + 1..] == Reversed(parts[..k - 1]) + arpa
  {
    ReversedTakes(parts, k - 1);
  }

  /** Leading labels of two addresses agree exactly when the same labels, as they end the reverse names, do. */
  lemma LeadingLabelsReversed(ps: seq<string>, qs: seq<string>, arpa: seq<string>, k: nat)
    requires k <= |ps| && k <= |qs|
    ensures Reversed(qs[..k]) + arpa == Reversed(ps[..k]) + arpa <==> ps[..k] == qs[..k]
  {
    var x, y := Reversed(qs[..k]), Reversed(ps[..k]);
    if x + arpa == y + arpa {
      assert x == (x + arpa)[..k] == (y + arpa)[..k] == y;
      ReversedTwice(qs[..k]);
      ReversedTwice(ps[..k]);
    }
  }

  lemma RawSuffixSameFamily(p: Prefix, a: Addr)
    requires Aligned(p) && 1 <= LabelCount(p) && p.addr.V4? == a.V4?
    ensures RawTail(ZoneLabels(p), ReverseLabels(a)) <==> RawMatch(p, a)
  {
    var k, arpa := LabelCount(p), ArpaParts(a);
    var ps, qs := AddrParts(p.addr), AddrParts(a);
    ZoneLabelsSplit(ps, arpa, k);
    LabelsFromTheEnd(qs, arpa, k);
    LeadingLabelsReversed(ps, qs, arpa, k - 1);
  }

  lemma RawSuffixOtherFamily(p: Prefix, a: Addr)
    requires Aligned(p) && 1 <= LabelCount(p) && p.addr.V4? != a.V4?
    ensures !RawTail(ZoneLabels(p), ReverseLabels(a))
  {
    var z, l := ZoneLabels(p), ReverseLabels(a);
    DifferentFamilies(p.addr, a);
    assert z[1..][|z| - 3..] == ArpaParts(p.addr) && l[|l| - 2..] == ArpaParts(a);
    if |z| <= |l| {
      assert l[|l| - |z| + 1..][|z| - 3..] == l[|l| - 2..];
    }
  }

  lemma RawSuffixMeaning(p: Prefix, a: Addr)
    requires Aligned(p) && 1 <= LabelCount(p)
    ensures HasSuffix(ReverseName(a), ZoneName(p)) <==> RawMatch(p, a)
  {
    RawSuffixOfParts(ReverseName(a), ZoneName(p), '.');
    SplitReverseName(a);
    SplitZoneName(p);
    if p.addr.V4? == a.V4? {
      RawSuffixSameFamily(p, a);
    } else {
      RawSuffixOtherFamily(p, a);
    }
  }

  lemma TailOfArpa(l: seq<string>, a: Addr, b: Addr)
    ensures RawTail(ArpaParts(b), l + ArpaParts(a)) <==> a.V4? == b.V4?
  {
    var x, y, s := ArpaParts(a), ArpaParts(b), l + ArpaParts(a);
    assert s[|l|] == x[0] && s[|l| + 1..] == ["arpa"] == y[1..];
    assert "in-addr"[4..] == "ddr" && "ddr"[0] != "ip6"[0];
    assert HasSuffix(x[0], y[0]) <==> a.V4? == b.V4?;
  }

  /** A zone without labels of its own, in-addr.arpa or ip6.arpa, takes exactly its family: every address of its prefix. */
  lemma RootZoneIsExact(p: Prefix, a: Addr)
    requires Aligned(p) && LabelCount(p) == 0 && a.Zoneless()
    ensures HasSuffix(ReverseName(a), ZoneName(p)) <==> Contains(p, a)
  {
    RawSuffixOfParts(ReverseName(a), ZoneName(p), '.');
    SplitReverseName(a);
    SplitZoneName(p);
    assert ZoneLabels(p) == ArpaParts(p.addr);
    TailOfArpa(Reversed(AddrParts(a)), a, p.addr);
  }

  lemma ThreeDigits(o: byte, v: byte)
    requires o >= 100 && HasSuffix(PrintNat(v), PrintNat(o))
    ensures v == o
  {
    assert |PrintNat(o)| == 3 by {
      assert PrintNat(o) == PrintNat(o / 10) + [DigitChar(o % 10)];
      assert PrintNat(o / 10) == PrintNat(o / 100) + [DigitChar(o / 10 % 10)];
    }
    assert |PrintNat(v)| <= 3 by {
      if v >= 100 {
        assert PrintNat(v / 10) == PrintNat(v / 100) + [DigitChar(v / 10 % 10)];
      }
    }
    assert PrintNat(v) == PrintNat(o);
    PrintNatInjective(v, o);
  }

  /** An octet below 100 is also the decimal suffix of a larger one: 7 of 17, 42 of 142. */
  function Lookalike(o: byte): (v: byte)
    requires o < 100
    ensures v != o
  {
    if o < 10 then 10 + o else 100 + o
  }

  lemma LookalikeEndsTheSame(o: byte)
    requires o < 100
    ensures HasSuffix(PrintNat(Lookalike(o)), PrintNat(o))
  {
    var v := Lookalike(o);
    assert PrintNat(v) == PrintNat(v / 10) + [DigitChar(v % 10)];
    if o < 10 {
      assert v % 10 == o;
    } else {
      assert v / 10 == 10 + o / 10 && v % 10 == o % 10;
      assert v / 10 / 10 == 1 && v / 10 % 10 == o / 10;
      assert PrintNat(v / 10) == PrintNat(1) + [DigitChar(o / 10)];
      assert PrintNat(o) == [DigitChar(o / 10)] + [DigitChar(o % 10)];
      assert PrintNat(v)[1..] == PrintNat(o);
    }
  }

  /** The test a caller can make on the zone: no IPv4 octet ends in another one's decimal text. */
  predicate BoundarySafe(p: Prefix)
    requires Aligned(p)
  {
    p.addr.V6? || LabelCount(p) == 0 || p.addr.octets[LabelCount(p) - 1] >= 100
  }

  lemma OneMoreAgrees(x: seq<string>, y: seq<string>, k: nat)
    requires 1 <= k <= |x| && k <= |y| && x[..k - 1] == y[..k - 1] && x[k - 1] == y[k - 1]
    ensures x[..k] == y[..k]
  {
    assert x[..k] == x[..k - 1] + [x[k - 1]] && y[..k] == y[..k - 1] + [y[k - 1]];
  }

  lemma MatchIsContainment(p: Prefix, a: Addr)
    requires Aligned(p) && 1 <= LabelCount(p) && BoundarySafe(p) && a.Zoneless() && RawMatch(p, a)
    ensures Contains(p, a)
  {
    OwnLabelAgrees(p, a);
    OneMoreAgrees(AddrParts(p.addr), AddrParts(a), LabelCount(p));
    ContainsByParts(p, a);
  }

  lemma BoundarySafeIsEnough(p: Prefix, a: Addr)
    requires Aligned(p) && BoundarySafe(p) && a.Zoneless()
    ensures HasSuffix(ReverseName(a), ZoneName(p)) <==> Contains(p, a)
  {
    if LabelCount(p) == 0 {
      RootZoneIsExact(p, a);
    } else {
      RawSuffixMeaning(p, a);
      if Contains(p, a) {
        RawSuffixAcceptsThePrefix(p, a);
      }
      if RawMatch(p, a) {
        MatchIsContainment(p, a);
      }
    }
  }

  lemma OwnLabelAgrees(p: Prefix, a: Addr)
    requires Aligned(p) && 1 <= LabelCount(p) && BoundarySafe(p) && p.addr.V4? == a.V4?
    requires HasSuffix(AddrParts(a)[LabelCount(p) - 1], AddrParts(p.addr)[LabelCount(p) - 1])
    ensures AddrParts(a)[LabelCount(p) - 1] == AddrParts(p.addr)[LabelCount(p) - 1]
  {
    var k := LabelCount(p);
    if a.V4? {
      ThreeDigits(p.addr.octets[k - 1], a.octets[k - 1]);
    } else {
      NibblePartAt(p.addr.bytes, k - 1);
      NibblePartAt(a.bytes, k - 1);
    }
  }

  /** An address outside an unsafe prefix that the synthesizer would still file under the prefix's zone. */
  lemma UnsafeZoneTakesAStranger(p: Prefix) returns (a: Addr)
    requires Aligned(p) && !BoundarySafe(p)
    ensures a.V4? && HasSuffix(ReverseName(a), ZoneName(p)) && !Contains(p, a)
  {
    var k := LabelCount(p);
    var o := p.addr.octets[k - 1];
    a := V4(p.addr.octets[k - 1 := Lookalike(o)]);
    LookalikeEndsTheSame(o);
    RawSuffixMeaning(p, a);
    assert AddrParts(p.addr)[..k - 1] == AddrParts(a)[..k - 1];
    ContainsByParts(p, a);
    if AddrParts(p.addr)[..k] == AddrParts(a)[..k] {
      assert AddrParts(p.addr)[..k][k - 1] == AddrParts(a)[..k][k - 1];
      PrintNatInjective(o, Lookalike(o));
    }
  }

  ghost predicate SuffixTestIsContainment(p: Prefix)
    requires LabelCount(p) <= |AddrParts(p.addr)|
  {
    forall a: Addr :: a.Zoneless() ==> (HasSuffix(ReverseName(a), ZoneName(p)) <==> Contains(p, a))
  }

  /**
   For every aligned prefix, from /0 to full length: the raw suffix test means containment exactly for IPv6 zones,
   for in-addr.arpa itself, and for IPv4 zones whose own octet is 100 or more.
   */
  lemma SuffixTestExactIff(p: Prefix)
    requires Aligned(p)
    ensures SuffixTestIsContainment(p) <==> BoundarySafe(p)
  {
    if BoundarySafe(p) {
      forall a: Addr | a.Zoneless()
        ensures HasSuffix(ReverseName(a), ZoneName(p)) <==> Contains(p, a)
      {
        BoundarySafeIsEnough(p, a);
      }
    } else {
      var a := UnsafeZoneTakesAStranger(p);
    }
  }
}
