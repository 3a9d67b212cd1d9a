/**
 Addresses and prefixes as Go's `net/netip` presents them, and the reverse-DNS names built from them.
 IPv4 text is modelled in full. IPv6 text syntax is a parameter, `V6Text`: everything proved here holds
 for any way of reading and printing IPv6 addresses.
 */
module Net {
  import opened Basics
  import opened Text

  type Octets4 = s: seq<byte> | |s| == 4 witness [0, 0, 0, 0]
  type Octets16 = s: seq<byte> | |s| == 16 witness seq(16, _ => 0)

  datatype Addr = V4(octets: Octets4) | V6(bytes: Octets16, zone: string) {
    function Raw(): seq<byte> {
      if V4? then octets else bytes
    }

    predicate Zoneless() {
      V6? ==> zone == ""
    }
  }

  datatype V6Text = V6Text(read: string -> Option<(Octets16, string)>, show: (Octets16, string) -> string)

  // ---------- IPv4 text ----------

  function ParseOctet(s: string): Option<byte> {
    if CanonicalDecimal(s) && DigitsValue(s) < 256 then Some(DigitsValue(s)) else None
  }

  function ParseV4(s: string): Option<Octets4> {
    var parts := Split(s, '.');
    if |parts| == 4 && forall p :: p in parts ==> ParseOctet(p).Some? then
      Some(seq(4, i requires 0 <= i < 4 => ParseOctet(parts[i]).value))
    else None
  }

  function OctetParts(o: seq<byte>): (parts: seq<string>)
    ensures |parts| == |o|
    ensures forall i :: 0 <= i < |o| ==> parts[i] == PrintNat(o[i])
  {
    seq(|o|, i requires 0 <= i < |o| => PrintNat(o[i]))
  }

  function PrintV4(o: Octets4): string {
    Join(OctetParts(o), ".")
  }

  lemma OctetRoundTrip(b: byte)
    ensures ParseOctet(PrintNat(b)) == Some(b)
    ensures '.' !in PrintNat(b)
  {
    PrintNatCanonical(b);
  }

  /** The IPv4 parser accepts exactly what the printer prints, so IPv4 text is always canonical. */
  lemma ParseV4Exact(s: string, o: Octets4)
    ensures ParseV4(s) == Some(o) <==> s == PrintV4(o)
  {
    var parts := OctetParts(o);
    forall i | 0 <= i < 4
      ensures ParseOctet(parts[i]) == Some(o[i]) && '.' !in parts[i]
    {
      OctetRoundTrip(o[i]);
    }
    if s == PrintV4(o) {
      SplitJoin(parts, '.');
      assert ParseV4(s).value == o;
    }
    if ParseV4(s) == Some(o) {
      var ps := Split(s, '.');
      forall i | 0 <= i < 4
        ensures ps[i] == parts[i]
      {
        assert ps[i] in ps;
        assert o[i] == ParseOctet(ps[i]).value;
        CanonicalDecimalPrints(ps[i]);
      }
      assert ps == parts;
      JoinSplit(s, '.');
    }
  }

  // ---------- ParseAddr and ParsePrefix ----------

  /** `netip.ParseAddr` decides by the first of `.`, `:` and `%`. */
  function FirstMark(s: string): Option<char> {
    if s == "" then None
    else if s[0] == '.' || s[0] == ':' || s[0] == '%' then Some(s[0])
    else FirstMark(s[1..])
  }

  function ParseAddr(v6: V6Text, s: string): Option<Addr> {
    match FirstMark(s)
    case Some('.') => (match ParseV4(s) case Some(o) => Some(V4(o)) case None => None)
    case Some(':') => (match v6.read(s) case Some((b, z)) => Some(V6(b, z)) case None => None)
    case _ => None
  }

  predicate NoMark(s: string) {
    '.' !in s && ':' !in s && '%' !in s
  }

  /** Text with a colon before any other mark is read as IPv6, whatever comes after; without a mark it is no address. */
  lemma {:induction false} FirstMarkDecides(v6: V6Text, front: string, rest: string)
    requires NoMark(front)
    ensures FirstMark(front + ":" + rest) == Some(':') && FirstMark(front) == None
    ensures ParseAddr(v6, front) == None
    ensures ParseAddr(v6, front + ":" + rest) ==
            match v6.read(front + ":" + rest) case Some((b, z)) => Some(V6(b, z)) case None => None
    decreases front
  {
    var s := front + ":" + rest;
    if front == "" {
      assert s[0] == ':';
    } else {
      assert s[0] == front[0] && s[1..] == front[1..] + ":" + rest;
      FirstMarkDecides(v6, front[1..], rest);
    }
  }

  /** Parsing IPv4 text does not depend on the IPv6 syntax. */
  lemma ParseAddrV4(v6: V6Text, o: Octets4)
    ensures ParseAddr(v6, PrintV4(o)) == Some(V4(o))
  {
    ParseV4Exact(PrintV4(o), o);
    PrintNatCanonical(o[0]);
    var rest := Join(OctetParts(o)[1..], ".");
    assert PrintV4(o) == PrintNat(o[0]) + "." + rest;
    DigitsThenDot(PrintNat(o[0]), rest);
  }

  lemma {:induction false} DigitsThenDot(d: string, rest: string)
    requires AllDigits(d)
    ensures FirstMark(d + "." + rest) == Some('.')
  {
    var s := d + "." + rest;
    if d != "" {
      assert s[0] == d[0];
      assert s[1..] == d[1..] + "." + rest;
      DigitsThenDot(d[1..], rest);
    }
  }

  function PrintAddr(v6: V6Text, a: Addr): string {
    match a
    case V4(o) => PrintV4(o)
    case V6(b, z) => v6.show(b, z)
  }

  datatype Prefix = Prefix(addr: Addr, bits: nat)

  function ParsePrefix(v6: V6Text, cidr: string): (r: Option<Prefix>)
    ensures r.Some? ==> r.value.bits <= 8 * |r.value.addr.Raw()| && r.value.addr.Zoneless()
  {
    var parts := Split(cidr, '/');
    var last := parts[|parts| - 1];
    if |parts| < 2 || !CanonicalDecimal(last) then None
    else
      match ParseAddr(v6, Join(parts[..|parts| - 1], "/"))
      case Some(a) =>
        if !a.Zoneless() || DigitsValue(last) > 8 * |a.Raw()| then None else Some(Prefix(a, DigitsValue(last)))
      case None => None
  }

  lemma LengthSplitsOff(front: string, n: nat)
    ensures Split(front + "/" + PrintNat(n), '/') == Split(front, '/') + [PrintNat(n)]
  {
    PrintNatCanonical(n);
    SplitConcat(front, PrintNat(n), '/');
    SplitWhole(PrintNat(n), '/');
  }

  lemma WrittenPrefixReads(v6: V6Text, front: string, a: Addr, n: nat)
    requires ParseAddr(v6, front) == Some(a) && a.Zoneless() && n <= 8 * |a.Raw()|
    ensures ParsePrefix(v6, front + "/" + PrintNat(n)) == Some(Prefix(a, n))
  {
    LengthSplitsOff(front, n);
    PrintNatCanonical(n);
    JoinSplit(front, '/');
    var parts := Split(front + "/" + PrintNat(n), '/');
    assert parts[..|parts| - 1] == Split(front, '/');
  }

  lemma ReadPrefixIsWritten(v6: V6Text, cidr: string, a: Addr, n: nat) returns (front: string)
    requires ParsePrefix(v6, cidr) == Some(Prefix(a, n))
    ensures cidr == front + "/" + PrintNat(n) && ParseAddr(v6, front) == Some(a)
  {
    var parts := Split(cidr, '/');
    var last := parts[|parts| - 1];
    front := Join(parts[..|parts| - 1], "/");
    CanonicalDecimalPrints(last);
    JoinConcat(parts[..|parts| - 1], [last], "/");
    assert parts[..|parts| - 1] + [last] == parts;
    JoinSplit(cidr, '/');
  }

  /** A prefix is the text of an address without zone, a slash, and a length in decimal that the family allows. */
  lemma ParsePrefixExact(v6: V6Text, cidr: string, a: Addr, n: nat)
    ensures ParsePrefix(v6, cidr) == Some(Prefix(a, n)) <==>
            && a.Zoneless() && n <= (if a.V4? then 32 else 128)
            && exists front :: cidr == front + "/" + PrintNat(n) && ParseAddr(v6, front) == Some(a)
  {
    if ParsePrefix(v6, cidr) == Some(Prefix(a, n)) {
      var front := ReadPrefixIsWritten(v6, cidr, a, n);
    }
    if a.Zoneless() && n <= 8 * |a.Raw()| {
      forall front | cidr == front + "/" + PrintNat(n) && ParseAddr(v6, front) == Some(a)
        ensures ParsePrefix(v6, cidr) == Some(Prefix(a, n))
      {
        WrittenPrefixReads(v6, front, a, n);
      }
    }
  }

  /** Bit `j` of an address, counted from the most significant one. */
  function Bit(raw: seq<byte>, j: nat): int
    requires j < 8 * |raw|
  {
    var b := raw[j / 8];
    match j % 8
    case 0 => b / 128 % 2
    case 1 => b / 64 % 2
    case 2 => b / 32 % 2
    case 3 => b / 16 % 2
    case 4 => b / 8 % 2
    case 5 => b / 4 % 2
    case 6 => b / 2 % 2
    case _ => b % 2
  }

  /** `netip.Prefix.Contains`: same family, no zone, and the first `bits` bits agree. */
  predicate Contains(p: Prefix, a: Addr) {
    a.Zoneless() && p.addr.V4? == a.V4? && p.bits <= 8 * |a.Raw()| &&
    forall j: nat :: j < p.bits ==> Bit(p.addr.Raw(), j) == Bit(a.Raw(), j)
  }

  // ---------- Reverse names ----------

  function HexDigit(n: int): (c: char)
    requires 0 <= n < 16
    ensures c != '.'
    ensures n < 10 ==> c as int == '0' as int + n
    ensures n >= 10 ==> c as int == 'a' as int + n - 10
  {
    if n < 10 then (('0' as int) + n) as char else (('a' as int) + n - 10) as char
  }

  /** Two hexadecimal labels a byte, most significant first. */
  function NibbleParts(raw: seq<byte>): (parts: seq<string>)
    ensures |parts| == 2 * |raw|
  {
    if raw == [] then []
    else [[HexDigit(raw[0] / 16)], [HexDigit(raw[0] % 16)]] + NibbleParts(raw[1..])
  }

  /** The labels of an address, most significant first: octets in decimal, or nibbles in hexadecimal. */
  function AddrParts(a: Addr): (parts: seq<string>)
    ensures a.V4? ==> |parts| == 4
    ensures a.V6? ==> |parts| == 32
  {
    match a
    case V4(o) => OctetParts(o)
    case V6(b, _) => NibbleParts(b)
  }

  function ArpaParts(a: Addr): (parts: seq<string>)
    ensures |parts| == 2
  {
    if a.V4? then ["in-addr", "arpa"] else ["ip6", "arpa"]
  }

  lemma {:induction false} NibblePartsAreDigits(raw: seq<byte>)
    ensures forall p :: p in NibbleParts(raw) ==> |p| == 1 && p[0] != '.'
  {
    if raw != [] {
      NibblePartsAreDigits(raw[1..]);
    }
  }

  function Reversed<T>(s: seq<T>): (r: seq<T>)
    ensures |r| == |s|
    ensures forall i :: 0 <= i < |s| ==> r[i] == s[|s| - 1 - i]
  {
    seq(|s|, i requires 0 <= i < |s| => s[|s| - 1 - i])
  }

  function ReverseLabels(a: Addr): seq<string> {
    Reversed(AddrParts(a)) + ArpaParts(a)
  }

  /** The canonical in-addr.arpa or ip6.arpa name (section 3.5 of RFC 1035, section 2.5 of RFC 3596). */
  function ReverseName(a: Addr): string {
    Join(ReverseLabels(a), ".")
  }

  lemma PartsHaveNoDots(a: Addr)
    ensures forall p :: p in AddrParts(a) ==> p != "" && '.' !in p
  {
    if a.V4? {
      forall p | p in AddrParts(a)
        ensures p != "" && '.' !in p
      {
        var i :| 0 <= i < 4 && p == AddrParts(a)[i];
        OctetRoundTrip(a.octets[i]);
        PrintNatCanonical(a.octets[i]);
      }
    } else {
      NibblePartsAreDigits(a.bytes);
    }
  }

  lemma SplitReverseName(a: Addr)
    ensures Split(ReverseName(a), '.') == ReverseLabels(a)
  {
    PartsHaveNoDots(a);
    forall p | p in ReverseLabels(a)
      ensures '.' !in p
    {
      if p in Reversed(AddrParts(a)) {
        assert p in AddrParts(a);
      }
    }
    SplitJoin(ReverseLabels(a), '.');
  }

  /** Text in which every label is followed by the separator, as the string builder leaves it. */
  function Dotted(labels: seq<string>, sep: string): string {
    if labels == [] then "" else labels[0] + sep + Dotted(labels[1..], sep)
  }

  lemma {:induction false} DottedThenJoin(xs: seq<string>, ys: seq<string>, sep: string)
    requires |ys| >= 1
    ensures Dotted(xs, sep) + Join(ys, sep) == Join(xs + ys, sep)
  {
    if xs == [] {
      assert xs + ys == ys;
    } else {
      DottedThenJoin(xs[1..], ys, sep);
      assert (xs + ys)[1..] == xs[1..] + ys;
      var d, j := Dotted(xs[1..], sep), Join(ys, sep);
      assert xs[0] + sep + d + j == xs[0] + sep + (d + j);
    }
  }

  lemma {:induction false} DottedSnoc(xs: seq<string>, x: string, sep: string)
    ensures Dotted(xs + [x], sep) == Dotted(xs, sep) + x + sep
  {
    if xs == [] {
      assert xs + [x] == [x];
      assert Dotted([x][1..], sep) == "";
    } else {
      DottedSnoc(xs[1..], x, sep);
      assert (xs + [x])[1..] == xs[1..] + [x];
      var d := Dotted(xs[1..], sep);
      assert xs[0] + sep + (d + x + sep) == xs[0] + sep + d + x + sep;
    }
  }

  lemma DottedByte(rest: seq<string>, hi: string, lo: string, sep: string)
    ensures Dotted(Reversed([hi, lo] + rest), sep) == Dotted(Reversed(rest), sep) + lo + sep + hi + sep
  {
    var r := Reversed(rest);
    assert Reversed([hi, lo] + rest) == (r + [lo]) + [hi];
    DottedSnoc(r, lo, sep);
    DottedSnoc(r + [lo], hi, sep);
  }

  lemma FourLabels(w: string, x: string, y: string, z: string, tail: seq<string>, sep: string)
    requires |tail| >= 1
    ensures w + sep + x + sep + y + sep + z + sep + Join(tail, sep) == Join([w, x, y, z] + tail, sep)
  {
    var one, two, three := [w], [w, x], [w, x, y];
    assert Dotted(one, sep) == w + sep by {
      assert one[1..] == [];
    }
    DottedSnoc(one, x, sep);
    assert one + [x] == two;
    DottedSnoc(two, y, sep);
    assert two + [y] == three;
    DottedSnoc(three, z, sep);
    assert three + [z] == [w, x, y, z];
    DottedThenJoin([w, x, y, z], tail, sep);
  }

  lemma JoinPair(x: string, y: string, sep: string)
    ensures Join([x, y], sep) == x + sep + y
  {
    assert [x, y][1..] == [y];
  }

  method ReverseFqdn(a: Addr) returns (name: string)
    ensures name == ReverseName(a)
  {
    if a.V4? {
      name := DottedQuadName(a.octets);
    } else {
      name := Nibbles(a.bytes);
      DottedThenJoin(Reversed(NibbleParts(a.bytes)), ["ip6", "arpa"], ".");
      JoinPair("ip6", "arpa", ".");
      name := name + "ip6.arpa";
    }
  }

  /** An IPv4 address read backwards in decimal, under in-addr.arpa. */
  lemma ReverseNameV4(b: Octets4)
    ensures ReverseName(V4(b)) ==
            PrintNat(b[3]) + "." + PrintNat(b[2]) + "." + PrintNat(b[1]) + "." + PrintNat(b[0]) + "." + "in-addr.arpa"
  {
    var w, x, y, z, dot := PrintNat(b[3]), PrintNat(b[2]), PrintNat(b[1]), PrintNat(b[0]), ".";
    assert Reversed(OctetParts(b)) == [w, x, y, z];
    FourLabels(w, x, y, z, ["in-addr", "arpa"], dot);
    JoinPair("in-addr", "arpa", dot);
  }

  /** The 4-byte branch: four decimals, last octet first, and the suffix. */
  method DottedQuadName(b: Octets4) returns (name: string)
    ensures name == ReverseName(V4(b))
  {
    ReverseNameV4(b);
    name := PrintNat(b[3]) + "." + PrintNat(b[2]) + "." + PrintNat(b[1]) + "." + PrintNat(b[0]) + "." + "in-addr.arpa";
  }

  /** What the builder holds once bytes 15 down to `i` are written. */
  ghost function TextFrom(b: Octets16, i: nat, sep: string): string
    requires i <= 16
  {
    Dotted(Reversed(NibbleParts(b[i..])), sep)
  }

  lemma NoByteYet(b: Octets16, sep: string)
    ensures TextFrom(b, 16, sep) == ""
    ensures TextFrom(b, 0, sep) == Dotted(Reversed(NibbleParts(b)), sep)
  {
    assert b[16..] == [];
    assert b[0..] == b;
  }

  lemma NextByte(b: Octets16, i: nat, sep: string)
    requires i < 16
    ensures TextFrom(b, i, sep)
         == TextFrom(b, i + 1, sep) + [HexDigit(b[i] % 16)] + sep + [HexDigit(b[i] / 16)] + sep
  {
    assert b[i..][1..] == b[i + 1..];
    DottedByte(NibbleParts(b[i + 1..]), [HexDigit(b[i] / 16)], [HexDigit(b[i] % 16)], sep);
  }

  /** `text` spells `b`, last byte first and low nibble first, each nibble one hexadecimal digit and a dot. */
  predicate SpellsBackwards(text: string, b: Octets16, n: nat)
    requires n <= 16
  {
    |text| == 4 * n && forall k: nat :: k < n ==>
      && text[4 * k] == HexDigit(b[15 - k] % 16) && text[4 * k + 1] == '.'
      && text[4 * k + 2] == HexDigit(b[15 - k] / 16) && text[4 * k + 3] == '.'
  }

  lemma SpellsNext(front: string, b: Octets16, m: nat)
    requires m < 16 && SpellsBackwards(front, b, m)
    ensures SpellsBackwards(front + [HexDigit(b[15 - m] % 16), '.', HexDigit(b[15 - m] / 16), '.'], b, m + 1)
  {
    var text := front + [HexDigit(b[15 - m] % 16), '.', HexDigit(b[15 - m] / 16), '.'];
    forall k: nat | k < m
      ensures text[4 * k] == front[4 * k] && text[4 * k + 1] == front[4 * k + 1]
      ensures text[4 * k + 2] == front[4 * k + 2] && text[4 * k + 3] == front[4 * k + 3]
    {
    }
  }

  lemma {:induction false} TextSpells(b: Octets16, n: nat)
    requires n <= 16
    ensures SpellsBackwards(TextFrom(b, 16 - n, "."), b, n)
  {
    if n == 0 {
      NoByteYet(b, ".");
    } else {
      var m: nat := n - 1;
      var front := TextFrom(b, 16 - m, ".");
      TextSpells(b, m);
      SpellsNext(front, b, m);
      NextByte(b, 15 - m, ".");
      FourCharacters(front, HexDigit(b[15 - m] % 16), HexDigit(b[15 - m] / 16));
    }
  }

  lemma FourCharacters(front: string, lo: char, hi: char)
    ensures front + [lo] + "." + [hi] + "." == front + [lo, '.', hi, '.']
  {
  }

  /** An IPv6 address read backwards, 32 hexadecimal digits each followed by a dot, under ip6.arpa. */
  lemma ReverseNameV6(b: Octets16, zone: string)
    ensures |ReverseName(V6(b, zone))| == 72 && ReverseName(V6(b, zone))[64..] == "ip6.arpa"
    ensures SpellsBackwards(ReverseName(V6(b, zone))[..64], b, 16)
  {
    TextSpells(b, 16);
    NoByteYet(b, ".");
    DottedThenJoin(Reversed(NibbleParts(b)), ["ip6", "arpa"], ".");
    JoinPair("ip6", "arpa", ".");
    var text := TextFrom(b, 0, ".");
    assert ReverseName(V6(b, zone)) == text + "ip6.arpa";
    assert (text + "ip6.arpa")[..64] == text && (text + "ip6.arpa")[64..] == "ip6.arpa";
  }

  /** The builder loop: bytes from last to first, low nibble before high nibble, each followed by a dot. */
  method Nibbles(b: Octets16) returns (text: string)
    ensures text == Dotted(Reversed(NibbleParts(b)), ".")
  {
    var dot := ".";
    text := "";
    NoByteYet(b, dot);
    var i := 15;
    while i >= 0
      invariant -1 <= i <= 15
      invariant text == TextFrom(b, i + 1, dot)
    {
      NextByte(b, i, dot);
      text := text + [HexDigit(b[i] % 16)] + dot + [HexDigit(b[i] / 16)] + dot;
      i := i - 1;
    }
  }
}
