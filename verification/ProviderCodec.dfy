/**
 How the two adapters spell a record for their provider and read it back. A record survives when an ideal
 server, one that stores what it is sent, lists it back with the same key; that is what the reconciler needs
 in order not to add and delete the same record for ever.
 */
module ProviderCodec {
  import opened Basics
  import opened Text
  import opened Remote

  // ---------- Preference and exchange ----------

  /** `strings.SplitN(s, " ", 2)`, when it yields two parts. */
  function SplitPair(s: string): (r: Option<(string, string)>)
    ensures r.Some? ==> s == r.value.0 + " " + r.value.1 && ' ' !in r.value.0
    ensures r.None? <==> ' ' !in s
  {
    if s == "" then None
    else if s[0] == ' ' then
      assert s == "" + " " + s[1..];
      Some(("", s[1..]))
    else
      match SplitPair(s[1..])
      case None => None
      case Some((a, b)) =>
        assert s == [s[0]] + (a + " " + b) == ([s[0]] + a) + " " + b;
        Some(([s[0]] + a, b))
  }

  const MAX_INT: int := 0x7fff_ffff_ffff_ffff

  /** `strconv.Atoi` on a 64-bit platform. */
  function Atoi(s: string): (r: Option<int>)
    ensures r.Some? ==> -MAX_INT - 1 <= r.value <= MAX_INT
  {
    var digits := if s != "" && (s[0] == '+' || s[0] == '-') then s[1..] else s;
    if digits == "" || !AllDigits(digits) then None
    else
      var v: int := DigitsValue(digits);
      var n := if s[0] == '-' then -v else v;
      if -MAX_INT - 1 <= n <= MAX_INT then Some(n) else None
  }

  /** `%d`. */
  function PrintInt(n: int): string {
    if n < 0 then "-" + PrintNat(-n) else PrintNat(n)
  }

  lemma AtoiOfPrintInt(n: int)
    requires -MAX_INT - 1 <= n <= MAX_INT
    ensures Atoi(PrintInt(n)) == Some(n)
  {
    var digits := PrintNat(if n < 0 then -n else n);
    PrintNatCanonical(if n < 0 then -n else n);
    if n < 0 {
      assert PrintInt(n)[0] == '-' && PrintInt(n)[1..] == digits;
    } else {
      assert IsDigit(digits[0]);
    }
  }

  /** A sign or none, then digits: what `Atoi` reads as `n`. */
  predicate Spells(s: string, sign: string, digits: string, n: int) {
    s == sign + digits && digits != "" && AllDigits(digits) &&
    ((sign in {"", "+"} && n == DigitsValue(digits)) || (sign == "-" && -n == DigitsValue(digits)))
  }

  /** Accepted is one sign at most and then digits only, of a number that fits in 64 bits. */
  lemma AtoiIff(s: string, n: int)
    ensures Atoi(s) == Some(n) <==>
            -9223372036854775808 <= n <= 9223372036854775807 && exists sign, digits :: Spells(s, sign, digits, n)
  {
    if Atoi(s) == Some(n) {
      if s[0] == '+' || s[0] == '-' {
        var sign := if s[0] == '+' then "+" else "-";
        assert s == sign + s[1..];
        assert Spells(s, sign, s[1..], n);
      } else {
        assert Spells(s, "", s, n);
      }
    }
    if sign, digits :| Spells(s, sign, digits, n) && -9223372036854775808 <= n <= 9223372036854775807 {
      SpelledIsRead(s, sign, digits, n);
    }
  }

  lemma SpelledIsRead(s: string, sign: string, digits: string, n: int)
    requires Spells(s, sign, digits, n) && -9223372036854775808 <= n <= 9223372036854775807
    ensures Atoi(s) == Some(n)
  {
    assert IsDigit(digits[0]);
    if sign == "" {
      assert s == digits;
    } else {
      assert s[0] == sign[0] && s[1..] == digits;
    }
  }

  // ---------- Trailing dots ----------

  /** How a server shows a host name: as sent, or in absolute form. */
  function Shown(name: string, absolute: bool): string {
    if absolute && !HasSuffix(name, ".") then name + "." else name
  }

  predicate Undotted(name: string) {
    !HasSuffix(name, ".")
  }

  /** Trimming one dot undoes either display exactly for names without a final dot. */
  lemma TrimShown(name: string, absolute: bool)
    ensures TrimSuffix(Shown(name, absolute), ".") == name <==> Undotted(name)
  {
    if Undotted(name) && absolute {
      assert (name + ".")[..|name + "."| - 1] == name;
      assert HasSuffix(name + ".", ".");
    }
  }

  // ---------- Cloudflare ----------

  datatype CfBody = CfBody(rtype: string, name: string, content: string, ttl: int, priority: int)

  datatype CfRecord = CfRecord(id: string, name: string, rtype: string, content: string, ttl: int, priority: int)

  predicate CfManaged(rtype: string) {
    rtype == "A" || rtype == "AAAA" || rtype == "CNAME" || rtype == "PTR" || rtype == "MX" || rtype == "TXT"
  }

  function CfEncode(r: Record): Option<CfBody> {
    if r.rtype != "MX" then Some(CfBody(r.rtype, r.name, r.value, r.ttl, 0))
    else
      match SplitPair(r.value)
      case None => None
      case Some((pref, exchange)) =>
        match Atoi(pref)
        case None => None
        case Some(prio) => Some(CfBody(r.rtype, r.name, exchange, r.ttl, prio))
  }

  function CfDecode(c: CfRecord): Option<Record> {
    if !CfManaged(c.rtype) then None
    else
      var value := if c.rtype == "MX" then PrintInt(c.priority) + " " + TrimSuffix(c.content, ".") else c.content;
      Some(Record(TrimSuffix(c.name, "."), c.rtype, value, c.ttl, c.id))
  }

  /** A record is sent field by field, but for an MX, whose value is taken apart into preference and exchange. */
  lemma CfSentFields(r: Record, b: CfBody)
    ensures CfEncode(r) == Some(b) <==>
            && b.name == r.name && b.rtype == r.rtype && b.ttl == r.ttl
            && (r.rtype != "MX" ==> b.content == r.value && b.priority == 0)
            && (r.rtype == "MX" ==> exists pref :: ' ' !in pref && r.value == pref + " " + b.content && Atoi(pref) == Some(b.priority))
  {
    if r.rtype == "MX" {
      var pair := SplitPair(r.value);
      if pair.Some? {
        forall pref | ' ' !in pref && r.value == pref + " " + b.content
          ensures pref == pair.value.0 && b.content == pair.value.1
        {
          PairIsUnique(pref, b.content, pair.value.0, pair.value.1);
        }
      } else {
        forall pref
          ensures r.value != pref + " " + b.content
        {
          assert (pref + " " + b.content)[|pref|] == ' ';
        }
      }
    }
  }

  /** A listed record of a managed type is read field by field, without a final dot in its name; an MX from its two fields. */
  lemma CfReadFields(c: CfRecord)
    ensures CfDecode(c).Some? <==> c.rtype in {"A", "AAAA", "CNAME", "PTR", "MX", "TXT"}
    ensures CfDecode(c).Some? ==>
              var r := CfDecode(c).value;
              && r.id == c.id && r.rtype == c.rtype && r.ttl == c.ttl && r.name == TrimSuffix(c.name, ".")
              && (c.rtype != "MX" ==> r.value == c.content)
              && (c.rtype == "MX" && -MAX_INT - 1 <= c.priority <= MAX_INT && Undotted(c.content) ==>
                    exists pref :: r.value == pref + " " + c.content && Atoi(pref) == Some(c.priority))
  {
    if c.rtype == "MX" && -MAX_INT - 1 <= c.priority <= MAX_INT && Undotted(c.content) {
      AtoiOfPrintInt(c.priority);
      assert CfDecode(c).value.value == PrintInt(c.priority) + " " + c.content;
    }
  }

  predicate NamesHost(rtype: string) {
    rtype == "CNAME" || rtype == "PTR"
  }

  /** How an ideal server shows host names: names of records and exchanges of MX, and contents of CNAME and PTR. */
  datatype Display = Display(absolute: bool, content: bool)

  function CfShownContent(b: CfBody, d: Display): string {
    if b.rtype == "MX" then Shown(b.content, d.absolute)
    else if NamesHost(b.rtype) then Shown(b.content, d.content)
    else b.content
  }

  /** An ideal server stores what it is sent, and shows host names as sent or in absolute form. */
  function CfStored(b: CfBody, id: string, d: Display): CfRecord {
    CfRecord(id, Shown(b.name, d.absolute), b.rtype, CfShownContent(b, d), b.ttl, b.priority)
  }

  ghost predicate CfSurvives(r: Record, id: string, d: Display) {
    CfEncode(r).Some? && CfDecode(CfStored(CfEncode(r).value, id, d)) == Some(r.(id := id))
  }

  /** What a caller can check of an MX value: `%d` of a 64-bit integer, a blank, and a name without a final dot. */
  predicate CfCanonicalMx(value: string) {
    match SplitPair(value)
    case None => false
    case Some((pref, exchange)) => Atoi(pref).Some? && PrintInt(Atoi(pref).value) == pref && Undotted(exchange)
  }

  lemma PairIsUnique(a: string, b: string, c: string, d: string)
    requires ' ' !in a && ' ' !in c
    ensures a + " " + b == c + " " + d <==> a == c && b == d
  {
    if a + " " + b == c + " " + d {
      var s, t := a + " " + b, c + " " + d;
      assert s[|a|] == ' ' && t[|c|] == ' ';
      assert (a + " " + b)[..|a|] == a && (c + " " + d)[..|c|] == c;
      assert (a + " " + b)[|a| + 1..] == b && (c + " " + d)[|c| + 1..] == d;
    }
  }

  lemma {:induction false} PrintNatHasNoBlank(n: nat)
    ensures ' ' !in PrintNat(n)
  {
    PrintNatCanonical(n);
  }

  lemma CfMxRoundTrip(r: Record, id: string, d: Display, pref: string, exchange: string, prio: int)
    requires r.rtype == "MX" && SplitPair(r.value) == Some((pref, exchange)) && Atoi(pref) == Some(prio)
    ensures CfEncode(r).Some?
    ensures CfDecode(CfStored(CfEncode(r).value, id, d)) ==
            Some(Record(TrimSuffix(Shown(r.name, d.absolute), "."), "MX",
                        PrintInt(prio) + " " + TrimSuffix(Shown(exchange, d.absolute), "."), r.ttl, id))
  {
  }

  lemma MxValueKept(pref: string, exchange: string, prio: int, absolute: bool)
    requires ' ' !in pref
    ensures PrintInt(prio) + " " + TrimSuffix(Shown(exchange, absolute), ".") == pref + " " + exchange <==>
            PrintInt(prio) == pref && Undotted(exchange)
  {
    TrimShown(exchange, absolute);
    PrintNatHasNoBlank(if prio < 0 then -prio else prio);
    PairIsUnique(PrintInt(prio), TrimSuffix(Shown(exchange, absolute), "."), pref, exchange);
  }

  lemma CfMxSurvivesIff(r: Record, id: string, d: Display)
    requires r.rtype == "MX" && CfEncode(r).Some? && Undotted(r.name)
    ensures CfSurvives(r, id, d) <==> CfCanonicalMx(r.value)
  {
    TrimShown(r.name, d.absolute);
    var (pref, exchange) := SplitPair(r.value).value;
    var prio := Atoi(pref).value;
    CfMxRoundTrip(r, id, d, pref, exchange, prio);
    MxValueKept(pref, exchange, prio, d.absolute);
  }

  /** What a caller can check of a value: a canonical MX, and a CNAME or PTR that the server will show as it is. */
  predicate CfCanonicalValue(r: Record, d: Display) {
    (r.rtype == "MX" ==> CfCanonicalMx(r.value)) && (NamesHost(r.rtype) && d.content ==> HasSuffix(r.value, "."))
  }

  /** A record survives Cloudflare exactly when its type is managed, its name undotted, and its value canonical. */
  lemma CfSurvivesIff(r: Record, id: string, d: Display)
    ensures CfSurvives(r, id, d) <==> CfManaged(r.rtype) && Undotted(r.name) && CfCanonicalValue(r, d)
  {
    TrimShown(r.name, d.absolute);
    if r.rtype == "MX" {
      if CfEncode(r).Some? && Undotted(r.name) {
        CfMxSurvivesIff(r, id, d);
      }
    } else {
      assert CfEncode(r).value == CfBody(r.rtype, r.name, r.value, r.ttl, 0);
    }
  }

  /** The preference of a listed MX is always canonical: once wanted as it is listed, it is kept if its exchange is. */
  lemma ListedMxIsCanonicalIff(c: CfRecord)
    requires c.rtype == "MX" && -MAX_INT - 1 <= c.priority <= MAX_INT
    ensures CfDecode(c).Some?
    ensures CfCanonicalMx(CfDecode(c).value.value) <==> Undotted(TrimSuffix(c.content, "."))
  {
    var pref, exchange := PrintInt(c.priority), TrimSuffix(c.content, ".");
    AtoiOfPrintInt(c.priority);
    PrintNatHasNoBlank(if c.priority < 0 then -c.priority else c.priority);
    var (p, x) := SplitPair(pref + " " + exchange).value;
    PairIsUnique(p, x, pref, exchange);
  }

  // ---------- Technitium ----------

  /** The type-tagged rData object: its strings, and the number that an MX preference comes back as. */
  datatype RData = RData(texts: map<string, string>, preference: int)

  /** `setRdataParams`: the parameters added to a request. */
  function RdataParams(r: Record): Option<map<string, string>> {
    if r.rtype == "A" || r.rtype == "AAAA" then Some(map["ipAddress" := r.value])
    else if r.rtype == "CNAME" then Some(map["cname" := r.value])
    else if r.rtype == "PTR" then Some(map["ptrName" := r.value])
    else if r.rtype == "TXT" then Some(map["text" := r.value])
    else if r.rtype == "MX" then
      match SplitPair(r.value)
      case None => None
      case Some((pref, exchange)) => Some(map["preference" := pref, "exchange" := exchange])
    else None
  }

  function TextOf(d: RData, field: string): string {
    if field in d.texts then d.texts[field] else ""
  }

  function RdataToValue(rtype: string, d: RData): Option<string> {
    if rtype == "A" || rtype == "AAAA" then Some(TextOf(d, "ipAddress"))
    else if rtype == "CNAME" then Some(TrimSuffix(TextOf(d, "cname"), "."))
    else if rtype == "PTR" then Some(TrimSuffix(TextOf(d, "ptrName"), "."))
    else if rtype == "TXT" then Some(TextOf(d, "text"))
    else if rtype == "MX" then Some(PrintInt(d.preference) + " " + TrimSuffix(TextOf(d, "exchange"), "."))
    else None
  }

  /** The field in which the provider's API takes a value of the type, and in which it lists it. */
  function ApiField(rtype: string): Option<string> {
    if rtype in {"A", "AAAA"} then Some("ipAddress")
    else if rtype == "CNAME" then Some("cname")
    else if rtype == "PTR" then Some("ptrName")
    else if rtype == "TXT" then Some("text")
    else if rtype == "MX" then Some("exchange")
    else None
  }

  /**
   An ideal server: it refuses a request without the field for its type, or with an MX preference that is not a 16-bit
   number, and lists the field under its own name, host names as sent or in absolute form and other text as sent.
   */
  function Served(rtype: string, params: map<string, string>, absolute: bool): Option<RData> {
    match ApiField(rtype)
    case None => None
    case Some(field) =>
      if field !in params then None
      else
        var text := if rtype in {"CNAME", "PTR", "MX"} then Shown(params[field], absolute) else params[field];
        if rtype != "MX" then Some(RData(map[field := text], 0))
        else if "preference" in params && params["preference"] != "" && AllDigits(params["preference"]) &&
                DigitsValue(params["preference"]) < 65536 then
          Some(RData(map[field := text], DigitsValue(params["preference"])))
        else None
  }

  ghost predicate ValueSurvives(r: Record, absolute: bool) {
    RdataParams(r).Some? && Served(r.rtype, RdataParams(r).value, absolute).Some? &&
    RdataToValue(r.rtype, Served(r.rtype, RdataParams(r).value, absolute).value) == Some(r.value)
  }

  /** An entry of the zone listing, which names no handle: records are identified by name, type and value. */
  datatype TechRecord = TechRecord(name: string, rtype: string, ttl: int, rdata: RData)

  /** What the server keeps of an added record, if the adapter and the server take it. */
  function TechStored(r: Record, absolute: bool): Option<TechRecord> {
    match RdataParams(r)
    case None => None
    case Some(params) =>
      match Served(r.rtype, params, absolute)
      case None => None
      case Some(rdata) => Some(TechRecord(Shown(r.name, absolute), r.rtype, r.ttl, rdata))
  }

  function TechDecode(t: TechRecord): Option<Record> {
    match RdataToValue(t.rtype, t.rdata)
    case None => None
    case Some(value) => Some(Record(TrimSuffix(t.name, "."), t.rtype, value, t.ttl, ""))
  }

  ghost predicate TechnitiumSurvives(r: Record, absolute: bool) {
    TechStored(r, absolute).Some? && TechDecode(TechStored(r, absolute).value) == Some(r.(id := ""))
  }

  predicate TechnitiumCanonical(r: Record) {
    if r.rtype == "A" || r.rtype == "AAAA" || r.rtype == "TXT" then true
    else if r.rtype == "CNAME" || r.rtype == "PTR" then Undotted(r.value)
    else if r.rtype == "MX" then
      match SplitPair(r.value)
      case None => false
      case Some((pref, exchange)) => CanonicalDecimal(pref) && DigitsValue(pref) < 65536 && Undotted(exchange)
    else false
  }

  lemma DecimalCanonicalIff(s: string)
    requires s != "" && AllDigits(s)
    ensures PrintNat(DigitsValue(s)) == s <==> CanonicalDecimal(s)
  {
    PrintNatCanonical(DigitsValue(s));
    if CanonicalDecimal(s) {
      CanonicalDecimalPrints(s);
    }
  }

  lemma MxServed(pref: string, exchange: string, absolute: bool)
    ensures var s := Served("MX", map["preference" := pref, "exchange" := exchange], absolute);
            if pref != "" && AllDigits(pref) && DigitsValue(pref) < 65536 then
              s.Some? && s.value.preference == DigitsValue(pref) && TextOf(s.value, "exchange") == Shown(exchange, absolute)
            else s.None?
  {
    var params := map["preference" := pref, "exchange" := exchange];
    assert "preference" != "exchange" by {
      assert |"preference"| != |"exchange"|;
    }
    assert params["preference"] == pref && params["exchange"] == exchange;
  }

  lemma MxValueBack(pref: string, exchange: string, absolute: bool)
    requires ' ' !in pref && pref != "" && AllDigits(pref)
    ensures PrintInt(DigitsValue(pref)) + " " + TrimSuffix(Shown(exchange, absolute), ".") == pref + " " + exchange <==>
            CanonicalDecimal(pref) && Undotted(exchange)
  {
    var n := DigitsValue(pref);
    TrimShown(exchange, absolute);
    PrintNatHasNoBlank(n);
    PairIsUnique(PrintNat(n), TrimSuffix(Shown(exchange, absolute), "."), pref, exchange);
    DecimalCanonicalIff(pref);
  }

  lemma TechnitiumMxSurvivesIff(r: Record, absolute: bool)
    requires r.rtype == "MX"
    ensures ValueSurvives(r, absolute) <==> TechnitiumCanonical(r)
  {
    var pair := SplitPair(r.value);
    if pair.Some? {
      var (pref, exchange) := pair.value;
      MxServed(pref, exchange, absolute);
      if pref != "" && AllDigits(pref) {
        MxValueBack(pref, exchange, absolute);
      }
    }
  }

  lemma ValueSurvivesIff(r: Record, absolute: bool)
    ensures ValueSurvives(r, absolute) <==> TechnitiumCanonical(r)
  {
    if r.rtype == "MX" {
      TechnitiumMxSurvivesIff(r, absolute);
    } else {
      TrimShown(r.value, absolute);
    }
  }

  lemma TechRoundTrip(r: Record, absolute: bool, rdata: RData)
    requires RdataParams(r).Some? && Served(r.rtype, RdataParams(r).value, absolute) == Some(rdata)
    ensures TechStored(r, absolute) == Some(TechRecord(Shown(r.name, absolute), r.rtype, r.ttl, rdata))
    ensures TechDecode(TechStored(r, absolute).value) ==
            match RdataToValue(r.rtype, rdata)
            case None => None
            case Some(v) => Some(Record(TrimSuffix(Shown(r.name, absolute), "."), r.rtype, v, r.ttl, ""))
  {
  }

  lemma TechSurvivesByParts(r: Record, absolute: bool)
    ensures TechnitiumSurvives(r, absolute) <==>
            TrimSuffix(Shown(r.name, absolute), ".") == r.name && ValueSurvives(r, absolute)
  {
    if RdataParams(r).Some? && Served(r.rtype, RdataParams(r).value, absolute).Some? {
      TechRoundTrip(r, absolute, Served(r.rtype, RdataParams(r).value, absolute).value);
    }
  }

  /** A record survives Technitium exactly when its name is undotted and its value canonical for its type. */
  lemma TechnitiumSurvivesIff(r: Record, absolute: bool)
    ensures TechnitiumSurvives(r, absolute) <==> Undotted(r.name) && TechnitiumCanonical(r)
  {
    TrimShown(r.name, absolute);
    ValueSurvivesIff(r, absolute);
    TechSurvivesByParts(r, absolute);
  }

  // ---------- Cloudflare paging ----------

  function DecodeAll(cs: seq<CfRecord>): seq<Record> {
    if cs == [] then []
    else
      var rest := DecodeAll(cs[..|cs| - 1]);
      match CfDecode(cs[|cs| - 1])
      case None => rest
      case Some(r) => rest + [r]
  }

  /** One answer of the listing: its records, and the page count it reports, or 0 when it reports none. */
  datatype Page = Page(records: seq<CfRecord>, totalPages: nat)

  /** Page `n`, counted from 1; the server's answer past its last page holds nothing and no count. */
  function PageAt(pages: seq<Page>, n: nat): Page {
    if 1 <= n <= |pages| then pages[n - 1] else Page([], 0)
  }

  /** `f(1)` to `f(n)`, one after the other. */
  function UpTo<T>(f: nat -> seq<T>, n: nat): seq<T> {
    if n == 0 then [] else UpTo(f, n - 1) + f(n)
  }

  /** The managed records of each page. */
  function Managed(pages: seq<Page>): (f: nat -> seq<Record>)
    ensures forall n :: f(n) == DecodeAll(PageAt(pages, n).records)
  {
    (n: nat) => DecodeAll(PageAt(pages, n).records)
  }

  /** The loop goes on after page `n` only if the answer to it says that there are more. */
  predicate StopsAt(pages: seq<Page>, n: nat) {
    n >= PageAt(pages, n).totalPages || PageAt(pages, n).totalPages == 0
  }

  /** The page the loop stops at, going on from page `n`. */
  function LastFrom(pages: seq<Page>, n: nat): (last: nat)
    ensures last >= n && StopsAt(pages, last) && forall m :: n <= m < last ==> !StopsAt(pages, m)
    decreases |pages| - n
  {
    if StopsAt(pages, n) then n else LastFrom(pages, n + 1)
  }

  method DecodePage(recs: seq<CfRecord>, before: seq<Record>) returns (out: seq<Record>)
    ensures out == before + DecodeAll(recs)
  {
    out := before;
    for k := 0 to |recs|
      invariant out == before + DecodeAll(recs[..k])
    {
      assert recs[..k + 1][..k] == recs[..k];
      var r := CfDecode(recs[k]);
      if r.Some? {
        out := out + [r.value];
      }
    }
    assert recs[..|recs|] == recs;
  }

  /** The page loop reads up to the first answer that says, by its own count or by having none, that it is the last. */
  method CfListRecords(pages: seq<Page>) returns (out: seq<Record>)
    ensures out == UpTo(Managed(pages), LastFrom(pages, 1))
  {
    out := [];
    var page: nat := 1;
    while true
      invariant page >= 1 && LastFrom(pages, page) == LastFrom(pages, 1)
      invariant out == UpTo(Managed(pages), page - 1)
      decreases |pages| - page
    {
      var resp := PageAt(pages, page);
      out := DecodePage(resp.records, out);
      if page >= resp.totalPages || resp.totalPages == 0 {
        break;
      }
      page := page + 1;
    }
  }

  /** Blocks `m + 1` to `n` are empty. */
  ghost predicate EmptyFrom<T>(f: nat -> seq<T>, m: nat, n: nat) {
    forall k :: m < k <= n ==> f(k) == []
  }

  lemma {:induction false} LaterBlocks<T>(f: nat -> seq<T>, m: nat, n: nat)
    requires m <= n
    ensures |UpTo(f, m)| <= |UpTo(f, n)|
    ensures UpTo(f, m) == UpTo(f, n) <==> EmptyFrom(f, m, n)
  {
    if m < n {
      LaterBlocks(f, m, n - 1);
      var front, last := UpTo(f, n - 1), f(n);
      assert |front + last| == |front| + |last|;
      assert EmptyFrom(f, m, n) <==> EmptyFrom(f, m, n - 1) && last == [];
    }
  }

  /** The listing is complete exactly when the pages past the one that stops the loop hold nothing managed. */
  lemma ListingCompleteIff(pages: seq<Page>)
    ensures UpTo(Managed(pages), LastFrom(pages, 1)) == UpTo(Managed(pages), |pages|) <==>
            EmptyFrom(Managed(pages), LastFrom(pages, 1), |pages|)
  {
    var last := LastFrom(pages, 1);
    if |pages| <= last {
      LaterBlocks(Managed(pages), |pages|, last);
    } else {
      LaterBlocks(Managed(pages), last, |pages|);
    }
  }

  /** One answer without a count ends the listing there, whatever the answers before it said. */
  lemma MissingCountStops(pages: seq<Page>, n: nat)
    requires n >= 1 && PageAt(pages, n).totalPages == 0
    ensures LastFrom(pages, 1) <= n
  {
    assert StopsAt(pages, n);
  }

  /** If every answer reports as many pages as there are, or more, the listing is complete. */
  lemma FullCountsListAll(pages: seq<Page>)
    requires forall p :: p in pages ==> p.totalPages >= |pages|
    ensures UpTo(Managed(pages), LastFrom(pages, 1)) == UpTo(Managed(pages), |pages|)
  {
    forall n: nat | 1 <= n < |pages|
      ensures !StopsAt(pages, n)
    {
      assert pages[n - 1] in pages;
    }
    ListingCompleteIff(pages);
  }

  /** Two pages with one A record each, the first answer without a count: the second record is never listed. */
  lemma SecondPageUnlisted() returns (pages: seq<Page>)
    ensures |pages| == 2 && pages[0].totalPages == 0 && pages[1].totalPages == 2
    ensures |UpTo(Managed(pages), LastFrom(pages, 1))| == 1 && |UpTo(Managed(pages), |pages|)| == 2
  {
    var first, second := CfRecord("x", "a.lan", "A", "10.0.0.1", 60, 0), CfRecord("y", "b.lan", "A", "10.0.0.2", 60, 0);
    pages := [Page([first], 0), Page([second], 2)];
    OneEachPage(pages, first, second);
  }

  lemma OneEachPage(pages: seq<Page>, first: CfRecord, second: CfRecord)
    requires pages == [Page([first], 0), Page([second], 2)] && CfDecode(first).Some? && CfDecode(second).Some?
    ensures |UpTo(Managed(pages), LastFrom(pages, 1))| == 1 && |UpTo(Managed(pages), |pages|)| == 2
  {
    var f := Managed(pages);
    OneDecoded(first);
    OneDecoded(second);
    assert StopsAt(pages, 1);
    assert |f(1)| == 1 && |f(2)| == 1;
    assert UpTo(f, 1) == UpTo(f, 0) + f(1) && UpTo(f, 2) == UpTo(f, 1) + f(2);
  }

  lemma OneDecoded(r: CfRecord)
    requires CfDecode(r).Some?
    ensures DecodeAll([r]) == [CfDecode(r).value]
  {
    assert [r][..0] == [];
  }
}
