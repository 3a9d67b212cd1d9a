/**
 What people type into a subnet form, made into text Kea accepts: pool bounds given as the last octets only,
 and comma-separated resolver lists.
 */
module ShortForm {
  import opened Basics
  import opened Text
  import opened Net

  // ---------- Pool bounds ----------

  datatype ExpandError = BadSubnet | NotIpv4 | NotShortForm | BadAddress

  datatype BoundError = BadStart(e: ExpandError) | BadEnd(e: ExpandError)

  lemma SplitDotted(o: seq<byte>)
    requires o != []
    ensures Split(Join(OctetParts(o), "."), '.') == OctetParts(o)
  {
    var parts := OctetParts(o);
    forall p | p in parts
      ensures '.' !in p
    {
      var i :| 0 <= i < |parts| && parts[i] == p;
      OctetRoundTrip(o[i]);
    }
    SplitJoin(parts, '.');
  }

  function ExpandPartialIp(v6: V6Text, cidr: string, value: string): Result<string, ExpandError> {
    var t := TrimSpace(value);
    if ParseAddr(v6, t).Some? then Ok(t)
    else
      match ParsePrefix(v6, cidr)
      case None => Err(BadSubnet)
      case Some(p) =>
        if !p.addr.V4? then Err(NotIpv4)
        else
          SplitDotted(p.addr.octets);
          var base, parts := Split(PrintAddr(v6, p.addr), '.'), Split(t, '.');
          if |parts| >= 4 then Err(NotShortForm)
          else
            var joined := Join(base[..4 - |parts|] + parts, ".");
            if ParseAddr(v6, joined).Some? then Ok(joined) else Err(BadAddress)
  }

  function ExpandPoolBounds(v6: V6Text, cidr: string, start: string, end: string): Result<(string, string), BoundError> {
    match ExpandPartialIp(v6, cidr, start)
    case Err(e) => Err(BadStart(e))
    case Ok(s) =>
      match ExpandPartialIp(v6, cidr, end)
      case Err(e) => Err(BadEnd(e))
      case Ok(t) => Ok((s, t))
  }

  /** The leading octets of a network with the given last ones. */
  function Completed(o: Octets4, g: seq<byte>): Octets4
    requires |g| <= 4
  {
    o[..4 - |g|] + g
  }

  /** `t` spells one to three octets that, put behind those of `o`, make the address `r`. */
  ghost predicate Completes(o: Octets4, t: string, g: seq<byte>, r: string) {
    1 <= |g| <= 3 && t == Join(OctetParts(g), ".") && r == PrintV4(Completed(o, g))
  }

  lemma DottedFirst(v6: V6Text, d: byte, rest: seq<string>)
    requires rest != []
    ensures ParseAddr(v6, Join([PrintNat(d)] + rest, ".")).Some? ==>
              exists q: Octets4 :: Join([PrintNat(d)] + rest, ".") == PrintV4(q)
  {
    var all := [PrintNat(d)] + rest;
    assert all[1..] == rest;
    PrintNatCanonical(d);
    DigitsThenDot(PrintNat(d), Join(rest, "."));
    var s := Join(all, ".");
    if ParseAddr(v6, s).Some? {
      ParseV4Exact(s, ParseV4(s).value);
    }
  }

  lemma LeadingPartsHaveNoDots(o: Octets4, n: nat, parts: seq<string>)
    requires n <= 4 && forall p :: p in parts ==> '.' !in p
    ensures forall p :: p in OctetParts(o)[..n] + parts ==> '.' !in p
  {
    forall i | 0 <= i < n
      ensures '.' !in OctetParts(o)[i]
    {
      OctetRoundTrip(o[i]);
    }
  }

  /** Parts that begin like those of `o` and spell `q` end in the last octets of `q`. */
  lemma LastOctets(o: Octets4, q: Octets4, parts: seq<string>)
    requires |parts| <= 4 && OctetParts(o)[..4 - |parts|] + parts == OctetParts(q)
    ensures parts == OctetParts(q[4 - |parts|..]) && q == Completed(o, q[4 - |parts|..])
  {
    var n := 4 - |parts|;
    forall i | 0 <= i < n
      ensures o[i] == q[i]
    {
      assert OctetParts(q)[i] == OctetParts(o)[i];
      PrintNatInjective(o[i], q[i]);
    }
    assert parts == OctetParts(q)[n..] == OctetParts(q[n..]);
    assert q == q[..n] + q[n..] && q[..n] == o[..n];
  }

  /** Completing octets that parse is the only way the joined text can parse. */
  lemma JoinedParses(v6: V6Text, o: Octets4, parts: seq<string>) returns (g: seq<byte>)
    requires 1 <= |parts| <= 3 && forall p :: p in parts ==> '.' !in p
    requires ParseAddr(v6, Join(OctetParts(o)[..4 - |parts|] + parts, ".")).Some?
    ensures |g| == |parts| && parts == OctetParts(g)
    ensures Join(OctetParts(o)[..4 - |parts|] + parts, ".") == PrintV4(Completed(o, g))
  {
    var n := 4 - |parts|;
    var all := OctetParts(o)[..n] + parts;
    assert all == [PrintNat(o[0])] + all[1..];
    DottedFirst(v6, o[0], all[1..]);
    var q: Octets4 :| Join(all, ".") == PrintV4(q);
    LeadingPartsHaveNoDots(o, n, parts);
    SplitJoin(all, '.');
    SplitDotted(q);
    LastOctets(o, q, parts);
    g := q[n..];
  }

  lemma CompletedParts(o: Octets4, g: seq<byte>)
    requires |g| <= 4
    ensures OctetParts(o)[..4 - |g|] + OctetParts(g) == OctetParts(Completed(o, g))
  {
    var q, parts := Completed(o, g), OctetParts(o)[..4 - |g|] + OctetParts(g);
    forall i | 0 <= i < 4
      ensures parts[i] == PrintNat(q[i])
    {
    }
  }

  lemma SpelledExpands(v6: V6Text, o: Octets4, g: seq<byte>, t: string)
    requires 1 <= |g| <= 3 && t == Join(OctetParts(g), ".")
    ensures |Split(t, '.')| == |g|
    ensures Join(OctetParts(o)[..4 - |g|] + Split(t, '.'), ".") == PrintV4(Completed(o, g))
    ensures ParseAddr(v6, PrintV4(Completed(o, g))).Some?
  {
    SplitDotted(g);
    CompletedParts(o, g);
    ParseAddrV4(v6, Completed(o, g));
  }

  /** An address is left as it is, trimmed; any other value expands exactly when it spells one to three octets of an IPv4 subnet. */
  lemma ExpandExact(v6: V6Text, cidr: string, value: string, r: string)
    ensures ExpandPartialIp(v6, cidr, value) == Ok(r) <==>
            if ParseAddr(v6, TrimSpace(value)).Some? then r == TrimSpace(value)
            else ParsePrefix(v6, cidr).Some? && ParsePrefix(v6, cidr).value.addr.V4? &&
                 exists g :: Completes(ParsePrefix(v6, cidr).value.addr.octets, TrimSpace(value), g, r)
  {
    if ParseAddr(v6, TrimSpace(value)).None? && ParsePrefix(v6, cidr).Some? && ParsePrefix(v6, cidr).value.addr.V4? {
      ShortFormExact(v6, cidr, value, r);
    }
  }

  lemma ShortFormExact(v6: V6Text, cidr: string, value: string, r: string)
    requires ParseAddr(v6, TrimSpace(value)).None?
    requires ParsePrefix(v6, cidr).Some? && ParsePrefix(v6, cidr).value.addr.V4?
    ensures ExpandPartialIp(v6, cidr, value) == Ok(r) <==>
            exists g :: Completes(ParsePrefix(v6, cidr).value.addr.octets, TrimSpace(value), g, r)
  {
    var o, t := ParsePrefix(v6, cidr).value.addr.octets, TrimSpace(value);
    var parts := Split(t, '.');
    SplitDotted(o);
    if ExpandPartialIp(v6, cidr, value) == Ok(r) {
      var g := JoinedParses(v6, o, parts);
      JoinSplit(t, '.');
      assert Completes(o, t, g, r);
    }
    if g :| Completes(o, t, g, r) {
      SpelledExpands(v6, o, g, t);
    }
  }

  /** Whatever a k-octet short form says, it stays in the prefix; and that holds just when the prefix is that short. */
  lemma ShortFormInsideIff(p: Prefix, k: nat)
    requires p.addr.V4? && p.bits <= 32 && 1 <= k <= 3
    ensures (forall g: seq<byte> :: |g| == k ==> Contains(p, V4(Completed(p.addr.octets, g)))) <==> p.bits <= 8 * (4 - k)
  {
    var o, n := p.addr.octets, 4 - k;
    if p.bits <= 8 * n {
      forall g: seq<byte>, j: nat | |g| == k && j < p.bits
        ensures Bit(o, j) == Bit(Completed(o, g), j)
      {
        assert j / 8 < n;
      }
    } else {
      var flipped: byte := if o[n] < 128 then (o[n] as int) + 128 else o[n] - 128;
      var g: seq<byte> := [flipped] + o[n + 1..];
      var q := Completed(o, g);
      assert q[n] == g[0];
      assert Bit(o, 8 * n) == o[n] / 128 % 2 && Bit(q, 8 * n) == q[n] / 128 % 2;
      assert !Contains(p, V4(q));
    }
  }

  lemma {:induction false} DottedHasNoSpace(o: seq<byte>)
    ensures forall c :: c in Join(OctetParts(o), ".") ==> !IsSpace(c)
  {
    if o != [] {
      PrintNatCanonical(o[0]);
      assert OctetParts(o)[1..] == OctetParts(o[1..]);
      DottedHasNoSpace(o[1..]);
    }
  }

  /** What expansion returns is an address, and trimmed. */
  lemma ExpandedIsAddress(v6: V6Text, cidr: string, value: string)
    requires ExpandPartialIp(v6, cidr, value).Ok?
    ensures ParseAddr(v6, ExpandPartialIp(v6, cidr, value).value).Some? && Trimmed(ExpandPartialIp(v6, cidr, value).value)
  {
    var r := ExpandPartialIp(v6, cidr, value).value;
    if ParseAddr(v6, TrimSpace(value)).Some? {
      TrimSpaceFacts(value);
    } else {
      ExpandExact(v6, cidr, value, r);
      var o := ParsePrefix(v6, cidr).value.addr.octets;
      var g :| Completes(o, TrimSpace(value), g, r);
      DottedHasNoSpace(Completed(o, g));
    }
  }

  /** Expanded bounds expand to themselves, under this subnet or any other. */
  lemma ExpandPoolBoundsIdempotent(v6: V6Text, cidr: string, other: string, start: string, end: string)
    requires ExpandPoolBounds(v6, cidr, start, end).Ok?
    ensures var (s, e) := ExpandPoolBounds(v6, cidr, start, end).value;
            ExpandPoolBounds(v6, other, s, e) == Ok((s, e))
  {
    var (s, e) := ExpandPoolBounds(v6, cidr, start, end).value;
    ExpandedIsAddress(v6, cidr, start);
    ExpandedIsAddress(v6, cidr, end);
    TrimmedUnchanged(s);
    TrimmedUnchanged(e);
  }

  // ---------- Resolver lists ----------

  /** The parts that are not blank, trimmed, in order. */
  function Cleaned(parts: seq<string>): seq<string> {
    if parts == [] then []
    else
      var front, p := Cleaned(parts[..|parts| - 1]), TrimSpace(parts[|parts| - 1]);
      if p != "" then front + [p] else front
  }

  function CleanCsv(s: string): string {
    Join(Cleaned(Split(s, ',')), ", ")
  }

  lemma CleanedNext(parts: seq<string>, i: nat)
    requires i < |parts|
    ensures var p := TrimSpace(parts[i]);
            Cleaned(parts[..i + 1]) == if p != "" then Cleaned(parts[..i]) + [p] else Cleaned(parts[..i])
  {
    assert parts[..i + 1][..i] == parts[..i] && parts[..i + 1][i] == parts[i];
  }

  /** `out := parts[:0]` and the appends: the kept parts move down the same array, and no unread part is lost. */
  method Compact(parts: array<string>) returns (n: nat)
    modifies parts
    ensures n <= parts.Length && parts[..n] == Cleaned(old(parts[..]))
  {
    ghost var was := parts[..];
    n := 0;
    for i := 0 to parts.Length
      invariant n <= i
      invariant forall k :: i <= k < parts.Length ==> parts[k] == was[k]
      invariant parts[..n] == Cleaned(was[..i])
    {
      CleanedNext(was, i);
      var p := TrimSpace(parts[i]);
      if p != "" {
        parts[n] := p;
        n := n + 1;
        assert parts[..n] == parts[..n - 1] + [p];
      }
    }
    assert was[..parts.Length] == was;
  }

  method CleanCsvInPlace(s: string) returns (r: string)
    ensures r == CleanCsv(s)
  {
    var split := Split(s, ',');
    var parts := new string[|split|](i requires 0 <= i < |split| => split[i]);
    assert parts[..] == split;
    var n := Compact(parts);
    r := Join(parts[..n], ", ");
  }

  predicate AllKept(ps: seq<string>) {
    forall i :: 0 <= i < |ps| ==> ps[i] != "" && Trimmed(ps[i]) && ',' !in ps[i]
  }

  lemma {:induction false} CleanedAreKept(parts: seq<string>)
    requires forall p :: p in parts ==> ',' !in p
    ensures AllKept(Cleaned(parts))
  {
    if parts != [] {
      CleanedAreKept(parts[..|parts| - 1]);
      TrimSpaceFacts(parts[|parts| - 1]);
    }
  }

  lemma {:induction false} CleanedPointwise(parts: seq<string>, ps: seq<string>)
    requires |parts| == |ps| && forall i :: 0 <= i < |ps| ==> TrimSpace(parts[i]) == ps[i] != ""
    ensures Cleaned(parts) == ps
  {
    if parts != [] {
      var n := |parts| - 1;
      var front := ps[..n];
      CleanedPointwise(parts[..n], front);
      assert ps == front + [ps[n]];
    }
  }

  function Spaced(ps: seq<string>): seq<string> {
    seq(|ps|, i requires 0 <= i < |ps| => " " + ps[i])
  }

  lemma {:induction false} JoinSpaced(ps: seq<string>)
    requires ps != []
    ensures " " + Join(ps, ", ") == Join(Spaced(ps), ",")
  {
    if |ps| > 1 {
      JoinSpaced(ps[1..]);
      assert Spaced(ps)[1..] == Spaced(ps[1..]);
      var j := Join(ps[1..], ", ");
      assert " " + (ps[0] + ", " + j) == (" " + ps[0]) + "," + (" " + j);
    }
  }

  /** Cleaning what was printed from clean parts gives those parts back. */
  lemma CleanedOfJoin(ps: seq<string>)
    requires AllKept(ps)
    ensures Cleaned(Split(Join(ps, ", "), ',')) == ps
  {
    if ps == [] {
      assert Split("", ',') == [""];
      assert Cleaned([""][..0]) == [];
    } else {
      var text := Join(ps, ", ");
      JoinSpaced(ps);
      var spaced := Spaced(ps);
      assert forall i :: 0 <= i < |ps| ==> spaced[i] == " " + ps[i];
      SplitJoin(spaced, ',');
      assert (" " + text)[1..] == text;
      var parts := Split(text, ',');
      assert spaced == [[' '] + parts[0]] + parts[1..];
      assert [' '] + parts[0] == " " + ps[0];
      assert parts[0] == spaced[0][1..] == ps[0];
      forall i | 0 <= i < |ps|
        ensures TrimSpace(parts[i]) == ps[i] != ""
      {
        if i > 0 {
          assert parts[i] == spaced[i];
          TrimBlankPrefix(ps[i]);
        } else {
          TrimmedUnchanged(ps[0]);
        }
      }
      CleanedPointwise(parts, ps);
    }
  }

  /** The printed list reads back as the cleaned parts, so cleaning is idempotent. */
  lemma CleanCsvIdempotent(s: string)
    ensures Cleaned(Split(CleanCsv(s), ',')) == Cleaned(Split(s, ','))
    ensures CleanCsv(CleanCsv(s)) == CleanCsv(s)
  {
    CleanedAreKept(Split(s, ','));
    CleanedOfJoin(Cleaned(Split(s, ',')));
  }

  /** A list without blanks gets one behind every comma. */
  lemma CleanCsvSpaces(ps: seq<string>)
    requires AllKept(ps) && ps != []
    ensures CleanCsv(Join(ps, ",")) == Join(ps, ", ")
  {
    SplitJoin(ps, ',');
    forall i | 0 <= i < |ps|
      ensures TrimSpace(ps[i]) == ps[i]
    {
      TrimmedUnchanged(ps[i]);
    }
    CleanedPointwise(ps, ps);
  }

  /** The list is dropped from the configuration exactly when every part is blank. */
  lemma {:induction false} CleanedEmptyIff(parts: seq<string>)
    ensures Cleaned(parts) == [] <==> forall i :: 0 <= i < |parts| ==> TrimSpace(parts[i]) == ""
  {
    if parts != [] {
      var n := |parts| - 1;
      CleanedEmptyIff(parts[..n]);
      assert forall i :: 0 <= i < n ==> parts[..n][i] == parts[i];
    }
  }
}
