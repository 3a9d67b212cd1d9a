/**
 The probe's DHCP codec (section 2 of RFC 2131; sections 2, 3.1 and 3.2 of RFC 2132): a fixed header of 236
 bytes, a magic cookie, options as code, length and value, an end marker, and padding to 300 bytes.
 */
module Dhcp {
  import opened Basics

  type u16 = n: int | 0 <= n < 0x1_0000

  type u32 = n: int | 0 <= n < 0x1_0000_0000

  datatype Packet = Packet(op: byte, htype: byte, hlen: byte, hops: byte, xid: u32, secs: u16, flags: u16,
                           ciaddr: seq<byte>, yiaddr: seq<byte>, siaddr: seq<byte>, giaddr: seq<byte>,
                           chaddr: seq<byte>, options: map<byte, seq<byte>>)

  const OPT_END: byte := 255
  const COOKIE: seq<byte> := [99, 130, 83, 99]
  const HEADER: nat := 240
  const MIN_LENGTH: nat := 300

  // ---------- Numbers and addresses ----------

  function Be16(v: u16): (b: seq<byte>)
    ensures |b| == 2
  {
    [v / 0x100, v % 0x100]
  }

  function Be32(v: u32): (b: seq<byte>)
    ensures |b| == 4
  {
    [v / 0x100_0000, v / 0x1_0000 % 0x100, v / 0x100 % 0x100, v % 0x100]
  }

  function FromBe16(b: seq<byte>): u16
    requires |b| == 2
  {
    (b[0] as int) * 0x100 + b[1]
  }

  function FromBe32(b: seq<byte>): u32
    requires |b| == 4
  {
    (b[0] as int) * 0x100_0000 + (b[1] as int) * 0x1_0000 + (b[2] as int) * 0x100 + b[3]
  }

  lemma Be16RoundTrip(v: u16)
    ensures FromBe16(Be16(v)) == v
  {
    var hi, lo := v / 0x100, v % 0x100;
    assert v == 0x100 * hi + lo;
  }

  /** Two bytes out of four: the quotients of the halves, not of the whole. */
  lemma Be32Halves(v: u32)
    ensures Be32(v) == Be16(v / 0x1_0000) + Be16(v % 0x1_0000)
  {
    var hi, lo := v / 0x1_0000, v % 0x1_0000;
    assert v / 0x100_0000 == hi / 0x100;
    LowHalf(hi, lo);
  }

  lemma LowHalf(hi: nat, lo: nat)
    requires lo < 0x1_0000
    ensures (0x1_0000 * hi + lo) / 0x100 % 0x100 == lo / 0x100
    ensures (0x1_0000 * hi + lo) % 0x100 == lo % 0x100
  {
    var q, r := lo / 0x100, lo % 0x100;
    assert 0x1_0000 * hi + lo == 0x100 * (0x100 * hi + q) + r;
    assert (0x1_0000 * hi + lo) / 0x100 == 0x100 * hi + q;
  }

  lemma Be32RoundTrip(v: u32)
    ensures FromBe32(Be32(v)) == v
  {
    var hi, lo := v / 0x1_0000, v % 0x1_0000;
    Be32Halves(v);
    Be16RoundTrip(hi);
    Be16RoundTrip(lo);
    var b := Be32(v);
    assert b[..2] == Be16(hi) && b[2..] == Be16(lo);
    assert v == 0x1_0000 * hi + lo;
  }

  function Zeros(n: nat): (z: seq<byte>)
    ensures |z| == n && forall i :: 0 <= i < n ==> z[i] == 0
  {
    seq(n, _ => 0)
  }

  /** `ensure4`: an IPv4 address in its 4-byte form, or zeros. A nil address is the empty sequence. */
  function Ensure4(ip: seq<byte>): (r: seq<byte>)
    ensures |r| == 4
  {
    if |ip| == 4 then ip
    else if |ip| == 16 && ip[..10] == Zeros(10) && ip[10] == 255 && ip[11] == 255 then ip[12..]
    else Zeros(4)
  }

  // ---------- The printer ----------

  function Tlv(code: byte, val: seq<byte>): seq<byte> {
    [code, |val| % 0x100] + val
  }

  function OptionBytes(options: map<byte, seq<byte>>, order: seq<byte>): seq<byte>
    requires forall k :: 0 <= k < |order| ==> order[k] in options
  {
    if order == [] then []
    else OptionBytes(options, order[..|order| - 1]) + Tlv(order[|order| - 1], options[order[|order| - 1]])
  }

  function Fixed(p: Packet): (h: seq<byte>)
    ensures |h| == 28
  {
    [p.op, p.htype, p.hlen, p.hops] + Be32(p.xid) + Be16(p.secs) + Be16(p.flags) +
    Ensure4(p.ciaddr) + Ensure4(p.yiaddr) + Ensure4(p.siaddr) + Ensure4(p.giaddr)
  }

  /** Hardware address, server name and boot file: 208 bytes, of which only the first are ever set. */
  function ChaddrField(chaddr: seq<byte>): (f: seq<byte>)
    requires |chaddr| <= 212
    ensures |f| == 208
    ensures |chaddr| <= 208 ==> f[..|chaddr|] == chaddr
  {
    (chaddr + Zeros(212 - |chaddr|))[..208]
  }

  function Header(p: Packet): (h: seq<byte>)
    requires |p.chaddr| <= 212
    ensures |h| == HEADER
  {
    Fixed(p) + ChaddrField(p.chaddr) + COOKIE
  }

  function Padded(b: seq<byte>): (r: seq<byte>)
    ensures b <= r && |r| == Max(|b|, MIN_LENGTH)
  {
    b + Zeros(Max(0, MIN_LENGTH - |b|))
  }

  /** An order in which a Go map of these options may be visited. */
  ghost predicate IsOrder(options: map<byte, seq<byte>>, order: seq<byte>) {
    && (forall k :: 0 <= k < |order| ==> order[k] in options)
    && (forall c :: c in options ==> c in order)
    && (forall j, k :: 0 <= j < k < |order| ==> order[j] != order[k])
  }

  function Marshal(p: Packet, order: seq<byte>): seq<byte>
    requires |p.chaddr| <= 212 && forall k :: 0 <= k < |order| ==> order[k] in p.options
  {
    Padded(Header(p) + OptionBytes(p.options, order) + [OPT_END])
  }

  /** Bytes 4 to 11 hold the transaction, the seconds and the flags, most significant byte first. */
  predicate NumbersAt(raw: seq<byte>, xid: int, secs: int, flags: int)
    requires |raw| >= 12
  {
    && xid == (((raw[4] as int) * 256 + raw[5] as int) * 256 + raw[6] as int) * 256 + raw[7] as int
    && secs == (raw[8] as int) * 256 + raw[9] as int
    && flags == (raw[10] as int) * 256 + raw[11] as int
  }

  lemma MarshalledNumbers(p: Packet, order: seq<byte>)
    requires |p.chaddr| <= 212 && forall k :: 0 <= k < |order| ==> order[k] in p.options
    ensures |Marshal(p, order)| >= 300 && NumbersAt(Marshal(p, order), p.xid, p.secs, p.flags)
  {
    var raw := Marshal(p, order);
    assert raw[..12] == Fixed(p)[..12];
    NumbersOf(p, raw[..12]);
    assert forall k :: 0 <= k < 12 ==> raw[..12][k] == raw[k];
  }

  lemma NumbersOf(p: Packet, first: seq<byte>)
    requires first == Fixed(p)[..12]
    ensures NumbersAt(first, p.xid, p.secs, p.flags)
  {
    assert first == [p.op, p.htype, p.hlen, p.hops] + Be32(p.xid) + Be16(p.secs) + Be16(p.flags);
    assert first[4..8] == Be32(p.xid) && first[8..10] == Be16(p.secs) && first[10..12] == Be16(p.flags);
    Be32RoundTrip(p.xid);
    Be16RoundTrip(p.secs);
    Be16RoundTrip(p.flags);
    assert first[4] == Be32(p.xid)[0] && first[5] == Be32(p.xid)[1] && first[6] == Be32(p.xid)[2] && first[7] == Be32(p.xid)[3];
    assert first[8] == Be16(p.secs)[0] && first[9] == Be16(p.secs)[1];
    assert first[10] == Be16(p.flags)[0] && first[11] == Be16(p.flags)[1];
  }

  /** Where the other fields stand: op, type, length and hops, the four addresses, and the cookie 99, 130, 83, 99. */
  predicate FieldsAt(raw: seq<byte>, p: Packet)
    requires |raw| >= 240
  {
    && raw[0] == p.op && raw[1] == p.htype && raw[2] == p.hlen && raw[3] == p.hops
    && raw[12..16] == p.ciaddr && raw[16..20] == p.yiaddr && raw[20..24] == p.siaddr && raw[24..28] == p.giaddr
    && raw[236] == 99 && raw[237] == 130 && raw[238] == 83 && raw[239] == 99
  }

  /** The packet with its addresses as they are sent. */
  function Sent(p: Packet): Packet {
    p.(ciaddr := Ensure4(p.ciaddr), yiaddr := Ensure4(p.yiaddr), siaddr := Ensure4(p.siaddr), giaddr := Ensure4(p.giaddr))
  }

  lemma MarshalledFields(p: Packet, order: seq<byte>)
    requires |p.chaddr| <= 212 && forall k :: 0 <= k < |order| ==> order[k] in p.options
    ensures |Marshal(p, order)| >= 300 && FieldsAt(Marshal(p, order), Sent(p))
    ensures |p.chaddr| <= 208 ==> Marshal(p, order)[28..28 + |p.chaddr|] == p.chaddr
  {
    var raw, fixed, field := Marshal(p, order), Fixed(p), ChaddrField(p.chaddr);
    assert raw[..240] == Header(p);
    assert raw[..28] == fixed && raw[28..236] == field && raw[236..240] == COOKIE;
    assert raw[236] == raw[236..240][0] && raw[237] == raw[236..240][1] && raw[238] == raw[236..240][2] && raw[239] == raw[236..240][3];
    assert raw[12..16] == fixed[12..16] && raw[16..20] == fixed[16..20] && raw[20..24] == fixed[20..24] && raw[24..28] == fixed[24..28];
    if |p.chaddr| <= 208 {
      assert raw[28..28 + |p.chaddr|] == field[..|p.chaddr|];
    }
  }

  /** Behind the 240 bytes come the options, then 255, and then only zeros, up to 300 bytes in all or no further. */
  lemma MarshalledEnd(p: Packet, order: seq<byte>)
    requires |p.chaddr| <= 212 && forall k :: 0 <= k < |order| ==> order[k] in p.options
    ensures var raw, options := Marshal(p, order), OptionBytes(p.options, order);
            && |raw| == (if |options| < 59 then 300 else 241 + |options|)
            && raw[240..240 + |options|] == options && raw[240 + |options|] == 255
            && forall k :: 241 + |options| <= k < |raw| ==> raw[k] == 0
  {
  }

  /** An address field of the header: four bytes as they are, an IPv4-mapped address by its last four, anything else as zeros. */
  lemma AddressField(ip: seq<byte>, tail: seq<byte>)
    ensures |ip| == 4 ==> Ensure4(ip) == ip
    ensures |tail| == 4 && ip == [0, 0, 0, 0, 0, 0, 0, 0, 0, 0, 255, 255] + tail ==> Ensure4(ip) == tail
    ensures |ip| != 4 && |ip| != 16 ==> Ensure4(ip) == [0, 0, 0, 0]
  {
  }

  /** `copy(buf[off:], src)`. */
  method Copy(buf: array<byte>, off: nat, src: seq<byte>)
    requires off + |src| <= buf.Length
    modifies buf
    ensures buf[..] == old(buf[..off]) + src + old(buf[off + |src|..])
  {
    for k := 0 to |src|
      invariant buf[..] == old(buf[..off]) + src[..k] + old(buf[off + k..])
    {
      buf[off + k] := src[k];
    }
    assert src[..|src|] == src;
  }

  /** Filling the next bytes of a buffer that is zero from there on. */
  lemma FillNext(done: seq<byte>, src: seq<byte>, n: nat)
    requires |src| <= n
    ensures (done + Zeros(n))[..|done|] + src + (done + Zeros(n))[|done| + |src|..] == done + src + Zeros(n - |src|)
  {
  }

  method FillHeader(p: Packet) returns (buf: array<byte>)
    requires |p.chaddr| <= 212
    ensures fresh(buf) && buf[..] == Header(p)
  {
    buf := new byte[240](_ => 0);
    assert buf[..] == [] + Zeros(240);
    FillAt(buf, [], [p.op, p.htype, p.hlen, p.hops], 240);
    ghost var done := [] + [p.op, p.htype, p.hlen, p.hops];
    FillAt(buf, done, Be32(p.xid), 236);
    done := done + Be32(p.xid);
    FillAt(buf, done, Be16(p.secs), 232);
    done := done + Be16(p.secs);
    FillAt(buf, done, Be16(p.flags), 230);
    done := done + Be16(p.flags);
    FillAt(buf, done, Ensure4(p.ciaddr), 228);
    done := done + Ensure4(p.ciaddr);
    FillAt(buf, done, Ensure4(p.yiaddr), 224);
    done := done + Ensure4(p.yiaddr);
    FillAt(buf, done, Ensure4(p.siaddr), 220);
    done := done + Ensure4(p.siaddr);
    FillAt(buf, done, Ensure4(p.giaddr), 216);
    done := done + Ensure4(p.giaddr);
    assert done == Fixed(p);
    FillAt(buf, done, p.chaddr, 212);
    assert buf[..] == Fixed(p) + (p.chaddr + Zeros(212 - |p.chaddr|));
    Copy(buf, 236, COOKIE);
  }

  method FillAt(buf: array<byte>, ghost done: seq<byte>, src: seq<byte>, n: nat)
    requires |src| <= n <= buf.Length && buf[..] == done + Zeros(n)
    modifies buf
    ensures buf[..] == done + src + Zeros(n - |src|)
  {
    FillNext(done, src, n);
    Copy(buf, buf.Length - n, src);
  }

  /** The options visited, in this order, are those no longer waiting. */
  ghost predicate Visited(options: map<byte, seq<byte>>, order: seq<byte>, todo: set<byte>) {
    && todo <= options.Keys
    && (forall k :: 0 <= k < |order| ==> order[k] in options && order[k] !in todo)
    && (forall c :: c in options ==> c in todo || c in order)
    && (forall j, k :: 0 <= j < k < |order| ==> order[j] != order[k])
  }

  lemma VisitNext(options: map<byte, seq<byte>>, order: seq<byte>, todo: set<byte>, code: byte)
    requires Visited(options, order, todo) && code in todo
    ensures Visited(options, order + [code], todo - {code})
  {
    var next := order + [code];
    assert next[..|order|] == order && next[|order|] == code;
  }

  /** Appending code, length and value appends one option. */
  lemma AppendedOption(options: map<byte, seq<byte>>, header: seq<byte>, order: seq<byte>, code: byte, out: seq<byte>)
    requires code in options && forall k :: 0 <= k < |order| ==> order[k] in options
    requires out == header + OptionBytes(options, order)
    ensures forall k :: 0 <= k < |order + [code]| ==> (order + [code])[k] in options
    ensures out + [code, |options[code]| % 0x100] + options[code] == header + OptionBytes(options, order + [code])
  {
    assert (order + [code])[..|order|] == order;
  }

  /** What is written, the options visited in this order, and those waiting. */
  ghost function Appendings(options: map<byte, seq<byte>>, header: seq<byte>): iset<(seq<byte>, seq<byte>, set<byte>)> {
    iset x: (seq<byte>, seq<byte>, set<byte>) | Visited(options, x.1, x.2) && x.0 == header + OptionBytes(options, x.1)
  }

  lemma AppendStart(options: map<byte, seq<byte>>, header: seq<byte>)
    ensures (header, [], options.Keys) in Appendings(options, header)
  {
  }

  lemma AppendNext(options: map<byte, seq<byte>>, header: seq<byte>, out: seq<byte>, order: seq<byte>, todo: set<byte>, code: byte)
    requires (out, order, todo) in Appendings(options, header) && code in todo
    ensures code in options
    ensures (out + [code, |options[code]| % 0x100] + options[code], order + [code], todo - {code}) in Appendings(options, header)
  {
    VisitNext(options, order, todo, code);
    AppendedOption(options, header, order, code, out);
  }

  lemma AppendEnd(options: map<byte, seq<byte>>, header: seq<byte>, out: seq<byte>, order: seq<byte>)
    requires (out, order, {}) in Appendings(options, header)
    ensures IsOrder(options, order) && out == header + OptionBytes(options, order)
  {
  }

  method AppendOptions(options: map<byte, seq<byte>>, header: seq<byte>) returns (out: seq<byte>, ghost order: seq<byte>)
    ensures IsOrder(options, order) && out == header + OptionBytes(options, order)
  {
    out, order := header, [];
    var todo := options.Keys;
    AppendStart(options, header);
    while todo != {}
      invariant (out, order, todo) in Appendings(options, header)
      decreases |todo|
    {
      var _ := SomeElement(todo);
      var code: byte :| code in todo;
      AppendNext(options, header, out, order, todo, code);
      var val := options[code];
      out := out + [code, |val| % 0x100];
      out := out + val;
      order, todo := order + [code], todo - {code};
    }
    AppendEnd(options, header, out, order);
  }

  method MarshalBinary(p: Packet) returns (out: seq<byte>)
    requires |p.chaddr| <= 212
    ensures exists order :: IsOrder(p.options, order) && out == Marshal(p, order)
    ensures |out| >= 300 && NumbersAt(out, p.xid, p.secs, p.flags) && FieldsAt(out, Sent(p))
  {
    var buf := FillHeader(p);
    ghost var order;
    out, order := AppendOptions(p.options, buf[..]);
    out := out + [OPT_END];
    ghost var unpadded := out;
    while |out| < 300
      invariant out == unpadded + Zeros(|out| - |unpadded|)
      invariant |unpadded| <= |out| <= Max(|unpadded|, MIN_LENGTH)
      decreases 300 - |out|
    {
      out := out + [0];
    }
    assert out == Marshal(p, order);
    MarshalledNumbers(p, order);
    MarshalledFields(p, order);
  }

  // ---------- The parser ----------

  datatype ParseError = ShortPacket | BadCookie

  /** The option walk over what is left of a packet; a later option of a code replaces an earlier one. */
  function Walk(s: seq<byte>, options: map<byte, seq<byte>>): map<byte, seq<byte>>
    decreases |s|
  {
    if s == [] then options
    else if s[0] == 0 then Walk(s[1..], options)
    else if s[0] == OPT_END || |s| < 2 || 2 + s[1] > |s| then options
    else Walk(s[2 + s[1]..], options[s[0] := s[2..2 + s[1]]])
  }

  function Parse(raw: seq<byte>): Result<Packet, ParseError> {
    if |raw| < HEADER then Err(ShortPacket)
    else if raw[236..240] != COOKIE then Err(BadCookie)
    else
      var hlen := raw[2];
      Ok(Packet(raw[0], raw[1], hlen, raw[3], FromBe32(raw[4..8]), FromBe16(raw[8..10]), FromBe16(raw[10..12]),
                raw[12..16], raw[16..20], raw[20..24], raw[24..28],
                if 0 < hlen <= 16 then raw[28..28 + hlen] else [],
                Walk(raw[HEADER..], map[])))
  }

  method ParseLoop(raw: seq<byte>) returns (r: Result<Packet, ParseError>)
    ensures r == Parse(raw)
    ensures r.Ok? <==> |raw| >= 240 && raw[236..240] == [99, 130, 83, 99]
    ensures r.Ok? ==> NumbersAt(raw, r.value.xid, r.value.secs, r.value.flags) && FieldsAt(raw, r.value)
    ensures r.Ok? ==> r.value.chaddr == if 0 < raw[2] <= 16 then raw[28..28 + raw[2]] else []
  {
    if |raw| < 240 {
      return Err(ShortPacket);
    }
    var hlen := raw[2];
    var chaddr := [];
    if hlen > 0 && hlen <= 16 {
      chaddr := raw[28..28 + hlen];
    }
    assert raw[236..240] == [raw[236], raw[237], raw[238], raw[239]];
    if raw[236] != 99 || raw[237] != 130 || raw[238] != 83 || raw[239] != 99 {
      return Err(BadCookie);
    }
    var options := WalkLoop(raw);
    r := Ok(Packet(raw[0], raw[1], hlen, raw[3], FromBe32(raw[4..8]), FromBe16(raw[8..10]), FromBe16(raw[10..12]),
                   raw[12..16], raw[16..20], raw[20..24], raw[24..28], chaddr, options));
  }

  /** Every index is in bounds, on any byte string. */
  method WalkLoop(raw: seq<byte>) returns (options: map<byte, seq<byte>>)
    requires |raw| >= HEADER
    ensures options == Walk(raw[HEADER..], map[])
  {
    options := map[];
    var i: int := 240;
    while i < |raw|
      invariant 240 <= i <= |raw|
      invariant Walk(raw[i..], options) == Walk(raw[HEADER..], map[])
      decreases |raw| - i
    {
      var rest := raw[i..];
      var code := raw[i];
      i := i + 1;
      assert rest[1..] == raw[i..];
      if code == 0 {
        continue;
      }
      if code == OPT_END {
        return;
      }
      if i >= |raw| {
        return;
      }
      var n := raw[i];
      i := i + 1;
      if i + n > |raw| {
        return;
      }
      assert rest[2 + n..] == raw[i + n..] && rest[2..2 + n] == raw[i..i + n];
      options := options[code := raw[i..i + n]];
      i := i + n;
    }
  }

  /** A zero is passed over, and the walk ends at 255. */
  lemma WalkMarks(rest: seq<byte>, options: map<byte, seq<byte>>)
    ensures Walk([0] + rest, options) == Walk(rest, options) && Walk([255] + rest, options) == options
  {
    assert ([0] + rest)[1..] == rest;
  }

  // ---------- What the walk stores ----------

  /** The options of a byte string, one after the other, as the walk meets them. */
  function Items(s: seq<byte>): seq<(byte, seq<byte>)>
    decreases |s|
  {
    if s == [] then []
    else if s[0] == 0 then Items(s[1..])
    else if s[0] == OPT_END || |s| < 2 || 2 + s[1] > |s| then []
    else [(s[0], s[2..2 + s[1]])] + Items(s[2 + s[1]..])
  }

  /** At offset `o` the bytes are a code, a length and as many value bytes. */
  ghost predicate ItemAt(s: seq<byte>, o: nat, item: (byte, seq<byte>)) {
    o + 2 + |item.1| <= |s| && s[o] == item.0 && s[o + 1] == |item.1| && s[o + 2..o + 2 + |item.1|] == item.1
  }

  lemma ItemShifts(s: seq<byte>, n: nat, item: (byte, seq<byte>))
    requires n <= |s| && exists o: nat :: ItemAt(s[n..], o, item)
    ensures exists o: nat :: ItemAt(s, o, item)
  {
    var o: nat :| ItemAt(s[n..], o, item);
    assert ItemAt(s, o + n, item);
  }

  /** Every item is the slice of the packet announced by its length byte, and its code is neither pad nor end. */
  lemma {:induction false} ItemsAreSlices(s: seq<byte>, k: nat)
    requires k < |Items(s)|
    ensures exists o: nat :: ItemAt(s, o, Items(s)[k])
    ensures 1 <= Items(s)[k].0 <= 254 && |Items(s)[k].1| <= 255
    decreases |s|
  {
    if s[0] == 0 {
      ItemsAreSlices(s[1..], k);
      ItemShifts(s, 1, Items(s)[k]);
    } else {
      var n: int := 2 + (s[1] as int);
      if k == 0 {
        assert ItemAt(s, 0, Items(s)[0]);
      } else {
        var rest := Items(s[n..]);
        assert Items(s)[k] == rest[k - 1];
        ItemsAreSlices(s[n..], k - 1);
        ItemShifts(s, n, Items(s)[k]);
      }
    }
  }

  function Store(options: map<byte, seq<byte>>, items: seq<(byte, seq<byte>)>): map<byte, seq<byte>> {
    if items == [] then options
    else Store(options, items[..|items| - 1])[items[|items| - 1].0 := items[|items| - 1].1]
  }

  lemma {:induction false} StoreCons(options: map<byte, seq<byte>>, head: (byte, seq<byte>), rest: seq<(byte, seq<byte>)>)
    ensures Store(options, [head] + rest) == Store(options[head.0 := head.1], rest)
  {
    if rest == [] {
      assert [head] + rest == [head];
      assert [head][..0] == [];
      assert Store(options, []) == options;
    } else {
      StoreCons(options, head, rest[..|rest| - 1]);
      assert ([head] + rest)[..|rest|] == [head] + rest[..|rest| - 1];
    }
  }

  lemma {:induction false} WalkStoresItems(s: seq<byte>, options: map<byte, seq<byte>>)
    ensures Walk(s, options) == Store(options, Items(s))
    decreases |s|
  {
    if s != [] && s[0] == 0 {
      WalkStoresItems(s[1..], options);
    } else if s != [] && s[0] != OPT_END && |s| >= 2 && 2 + (s[1] as int) <= |s| {
      var n: int := 2 + (s[1] as int);
      WalkStoresItems(s[n..], options[s[0] := s[2..n]]);
      StoreCons(options, (s[0], s[2..n]), Items(s[n..]));
    }
  }

  ghost predicate LastOf(items: seq<(byte, seq<byte>)>, k: nat, c: byte) {
    k < |items| && items[k].0 == c && forall j :: k < j < |items| ==> items[j].0 != c
  }

  lemma {:induction false} StoreKeepsLast(items: seq<(byte, seq<byte>)>, c: byte)
    ensures c in Store(map[], items) <==> exists k: nat :: LastOf(items, k, c)
    ensures forall k: nat :: LastOf(items, k, c) ==> c in Store(map[], items) && Store(map[], items)[c] == items[k].1
  {
    if items != [] {
      var n := |items| - 1;
      StoreKeepsLast(items[..n], c);
      if items[n].0 == c {
        assert LastOf(items, n, c);
      } else {
        forall k: nat
          ensures LastOf(items, k, c) <==> LastOf(items[..n], k, c)
        {
        }
      }
    }
  }

  /** Of the options of any byte string, the walk stores each code with the value of its last occurrence. */
  lemma LastOccurrenceWins(s: seq<byte>, c: byte)
    ensures c in Walk(s, map[]) <==> exists k: nat :: LastOf(Items(s), k, c)
    ensures forall k: nat :: LastOf(Items(s), k, c) ==> c in Walk(s, map[]) && Walk(s, map[])[c] == Items(s)[k].1
  {
    WalkStoresItems(s, map[]);
    StoreKeepsLast(Items(s), c);
  }

  // ---------- Round trips ----------

  predicate GoodOptions(options: map<byte, seq<byte>>) {
    forall c :: c in options ==> 1 <= c <= 254 && |options[c]| <= 255
  }

  /** The packets that survive: IPv4 addresses, a hardware address as long as HLen says, options that fit. */
  predicate Canonical(p: Packet) {
    && |p.ciaddr| == 4 && |p.yiaddr| == 4 && |p.siaddr| == 4 && |p.giaddr| == 4
    && |p.chaddr| == (if 0 < p.hlen <= 16 then p.hlen else 0)
    && GoodOptions(p.options)
  }

  lemma WalkTlv(code: byte, val: seq<byte>, rest: seq<byte>, options: map<byte, seq<byte>>)
    requires 1 <= code <= 254 && |val| <= 255
    ensures Walk(Tlv(code, val) + rest, options) == Walk(rest, options[code := val])
  {
    var s := Tlv(code, val) + rest;
    assert s[2..2 + |val|] == val && s[2 + |val|..] == rest;
  }

  function Picked(options: map<byte, seq<byte>>, order: seq<byte>): map<byte, seq<byte>>
    requires forall k :: 0 <= k < |order| ==> order[k] in options
  {
    map c | c in order :: options[c]
  }

  lemma PickedLast(options: map<byte, seq<byte>>, order: seq<byte>)
    requires order != [] && forall k :: 0 <= k < |order| ==> order[k] in options
    ensures var n := |order| - 1;
            Picked(options, order) == Picked(options, order[..n])[order[n] := options[order[n]]]
  {
    var n := |order| - 1;
    assert forall c :: c in order <==> c in order[..n] || c == order[n];
  }

  lemma {:induction false} WalkOptions(options: map<byte, seq<byte>>, order: seq<byte>, rest: seq<byte>)
    requires GoodOptions(options) && forall k :: 0 <= k < |order| ==> order[k] in options
    ensures Walk(OptionBytes(options, order) + rest, map[]) == Walk(rest, Picked(options, order))
  {
    if order == [] {
      assert OptionBytes(options, order) + rest == rest;
    } else {
      var n := |order| - 1;
      var front, code := order[..n], order[n];
      var val, bytes := options[code], OptionBytes(options, front);
      WalkOptions(options, front, Tlv(code, val) + rest);
      WalkTlv(code, val, rest, Picked(options, front));
      assert (bytes + Tlv(code, val)) + rest == bytes + (Tlv(code, val) + rest);
      PickedLast(options, order);
    }
  }

  lemma WalkMarshalled(options: map<byte, seq<byte>>, order: seq<byte>, pad: seq<byte>)
    requires GoodOptions(options) && IsOrder(options, order)
    ensures Walk(OptionBytes(options, order) + ([OPT_END] + pad), map[]) == options
  {
    WalkOptions(options, order, [OPT_END] + pad);
    assert Picked(options, order) == options;
  }

  lemma FixedFields(p: Packet, tail: seq<byte>)
    ensures var raw := Fixed(p) + tail;
            raw[..4] == [p.op, p.htype, p.hlen, p.hops] && raw[4..8] == Be32(p.xid) && raw[8..10] == Be16(p.secs) &&
            raw[10..12] == Be16(p.flags) && raw[12..16] == Ensure4(p.ciaddr) && raw[16..20] == Ensure4(p.yiaddr) &&
            raw[20..24] == Ensure4(p.siaddr) && raw[24..28] == Ensure4(p.giaddr) && raw[28..] == tail
  {
  }

  lemma MarshalLayout(p: Packet, order: seq<byte>) returns (pad: seq<byte>)
    requires |p.chaddr| <= 208 && forall k :: 0 <= k < |order| ==> order[k] in p.options
    ensures var raw := Marshal(p, order);
            |raw| >= HEADER && raw == Fixed(p) + raw[28..] && raw[28..28 + |p.chaddr|] == p.chaddr &&
            raw[236..240] == COOKIE && raw[HEADER..] == OptionBytes(p.options, order) + ([OPT_END] + pad)
  {
    var body := OptionBytes(p.options, order) + [OPT_END];
    var unpadded := Header(p) + OptionBytes(p.options, order) + [OPT_END];
    pad := Zeros(Max(0, MIN_LENGTH - |unpadded|));
    var raw := Marshal(p, order);
    var field := ChaddrField(p.chaddr);
    assert raw == Fixed(p) + (field + (COOKIE + (body + pad)));
    assert raw[28..] == field + (COOKIE + (body + pad));
    assert raw[28..28 + |p.chaddr|] == field[..|p.chaddr|];
  }

  /** Bytes that hold every field of a canonical packet where the printer puts it are read as that packet. */
  lemma FieldsRead(raw: seq<byte>, p: Packet)
    requires Canonical(p) && |raw| >= HEADER && raw[236..240] == COOKIE && raw[28..28 + |p.chaddr|] == p.chaddr
    requires raw[..4] == [p.op, p.htype, p.hlen, p.hops] && raw[4..8] == Be32(p.xid) && raw[8..10] == Be16(p.secs)
    requires raw[10..12] == Be16(p.flags) && raw[12..16] == p.ciaddr && raw[16..20] == p.yiaddr
    requires raw[20..24] == p.siaddr && raw[24..28] == p.giaddr && Walk(raw[HEADER..], map[]) == p.options
    ensures Parse(raw) == Ok(p)
  {
    assert raw[0] == raw[..4][0] && raw[1] == raw[..4][1] && raw[2] == raw[..4][2] && raw[3] == raw[..4][3];
    Be32RoundTrip(p.xid);
    Be16RoundTrip(p.secs);
    Be16RoundTrip(p.flags);
  }

  /** Printing and then parsing a canonical packet gives it back, in whatever order its options were written. */
  lemma ParseMarshal(p: Packet, order: seq<byte>)
    requires Canonical(p) && IsOrder(p.options, order)
    ensures |p.chaddr| <= 212 && Parse(Marshal(p, order)) == Ok(p)
  {
    var pad := MarshalLayout(p, order);
    var raw := Marshal(p, order);
    FixedFields(p, raw[28..]);
    WalkMarshalled(p.options, order, pad);
    FieldsRead(raw, p);
  }

  lemma {:induction false} StoredOptionsGood(items: seq<(byte, seq<byte>)>)
    requires forall k :: 0 <= k < |items| ==> 1 <= items[k].0 <= 254 && |items[k].1| <= 255
    ensures GoodOptions(Store(map[], items))
  {
    if items != [] {
      StoredOptionsGood(items[..|items| - 1]);
    }
  }

  /** Whatever the parser accepts is canonical. */
  lemma ParsedIsCanonical(raw: seq<byte>)
    requires Parse(raw).Ok?
    ensures Canonical(Parse(raw).value)
  {
    var s := raw[HEADER..];
    WalkStoresItems(s, map[]);
    forall k | 0 <= k < |Items(s)|
      ensures 1 <= Items(s)[k].0 <= 254 && |Items(s)[k].1| <= 255
    {
      ItemsAreSlices(s, k);
    }
    StoredOptionsGood(Items(s));
  }

  /** A printable packet round-trips exactly when it is canonical. */
  lemma RoundTripIff(p: Packet, order: seq<byte>)
    requires |p.chaddr| <= 212 && IsOrder(p.options, order)
    ensures Parse(Marshal(p, order)) == Ok(p) <==> Canonical(p)
  {
    if Parse(Marshal(p, order)) == Ok(p) {
      ParsedIsCanonical(Marshal(p, order));
    }
    if Canonical(p) {
      ParseMarshal(p, order);
    }
  }

  /** Parsing, printing and parsing again is parsing once, for every byte string the parser accepts. */
  lemma NormalForm(raw: seq<byte>, order: seq<byte>)
    requires Parse(raw).Ok? && IsOrder(Parse(raw).value.options, order)
    ensures |Parse(raw).value.chaddr| <= 212 && Parse(Marshal(Parse(raw).value, order)) == Parse(raw)
  {
    ParsedIsCanonical(raw);
    ParseMarshal(Parse(raw).value, order);
  }

  // ---------- Waiting for a reply ----------

  const BOOT_REPLY: byte := 2
  const OPT_MSG_TYPE: byte := 53
  const MSG_NAK: byte := 6
  const READ_BUFFER: nat := 1500

  datatype Verdict = Skip | Accept | Nak

  function Received(datagram: seq<byte>): seq<byte> {
    if |datagram| <= READ_BUFFER then datagram else datagram[..READ_BUFFER]
  }

  /** What one datagram means to a client waiting for message type `want` of transaction `xid`. */
  function Judge(datagram: seq<byte>, xid: u32, want: byte): Verdict {
    match Parse(Received(datagram))
    case Err(_) => Skip
    case Ok(p) =>
      if p.op != BOOT_REPLY || p.xid != xid || OPT_MSG_TYPE !in p.options then Skip
      else
        var t := p.options[OPT_MSG_TYPE];
        if t != [] && t[0] == want then Accept else if t == [MSG_NAK] then Nak else Skip
  }

  /**
   A datagram is the reply if it parses as a BOOTREPLY, op 2, of the transaction whose option 53 begins with the wanted
   type; a refusal if option 53 is the one byte 6 and 6 is not wanted; and anything else is passed over.
   */
  lemma JudgedByMessageType(datagram: seq<byte>, xid: u32, want: byte, p: Packet)
    requires Parse(if |datagram| <= 1500 then datagram else datagram[..1500]) == Ok(p)
    ensures var ours := p.op == 2 && p.xid == xid && 53 in p.options && |p.options[53]| >= 1;
            && (Judge(datagram, xid, want) == Accept <==> ours && p.options[53][0] == want)
            && (Judge(datagram, xid, want) == Nak <==> ours && p.options[53] == [6] && want != 6)
  {
  }

  datatype Reply = Got(p: Packet) | Refused | TimedOut

  /** The first datagram that is not skipped decides; without one, the read deadline does. */
  method ReadMatching(inbox: seq<seq<byte>>, xid: u32, want: byte) returns (r: Reply)
    ensures r == TimedOut <==> forall k :: 0 <= k < |inbox| ==> Judge(inbox[k], xid, want) == Skip
    ensures r != TimedOut ==>
              exists k :: 0 <= k < |inbox| && (forall j :: 0 <= j < k ==> Judge(inbox[j], xid, want) == Skip) &&
                          (r == Refused <==> Judge(inbox[k], xid, want) == Nak) &&
                          (r.Got? <==> Judge(inbox[k], xid, want) == Accept) &&
                          (r.Got? ==> Parse(Received(inbox[k])) == Ok(r.p))
  {
    for k := 0 to |inbox|
      invariant forall j :: 0 <= j < k ==> Judge(inbox[j], xid, want) == Skip
    {
      var parsed := ParseLoop(Received(inbox[k]));
      if parsed.Err? {
        continue;
      }
      var p := parsed.value;
      if p.op != BOOT_REPLY || p.xid != xid {
        continue;
      }
      if OPT_MSG_TYPE !in p.options {
        continue;
      }
      var t := p.options[OPT_MSG_TYPE];
      if |t| == 0 || t[0] != want {
        if |t| == 1 && t[0] == MSG_NAK {
          assert t == [MSG_NAK];
          return Refused;
        }
        continue;
      }
      return Got(p);
    }
    r := TimedOut;
  }
}
