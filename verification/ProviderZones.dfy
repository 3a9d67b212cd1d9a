/**
 The two providers as zones of encoded records: which wanted records come back under their own key, and so when
 reconcile passes over a real zone converge.
 */
module ProviderZones {
  import opened Basics
  import opened Text
  import opened Remote
  import opened Reconcile
  import opened Convergence
  import opened ProviderCodec
  import opened Encoded

  function CfCodec(d: Display): Codec<CfRecord> {
    Codec(r => if CfEncode(r).Some? then Some(CfStored(CfEncode(r).value, "", d)) else None, CfDecode, false)
  }

  function TechCodec(absolute: bool): Codec<TechRecord> {
    Codec(r => TechStored(r, absolute), TechDecode, true)
  }

  // ---------- Nothing grows on the way ----------

  /** `t` is `s` or shorter. */
  predicate SameOrShorter(t: string, s: string) {
    t == s || |t| < |s|
  }

  lemma TrimShownShrinks(name: string, absolute: bool)
    ensures SameOrShorter(TrimSuffix(Shown(name, absolute), "."), name)
  {
    TrimShown(name, absolute);
  }

  lemma {:induction false} PrintNatShrinks(s: string)
    requires s != "" && AllDigits(s)
    ensures SameOrShorter(PrintNat(DigitsValue(s)), s)
  {
    var front, d := s[..|s| - 1], s[|s| - 1];
    assert s == front + [d] && DigitChar(DigitValue(d)) == d;
    if front == "" {
      assert DigitsValue(front) == 0;
    } else {
      PrintNatShrinks(front);
      assert DigitsValue(s) == 10 * DigitsValue(front) + DigitValue(d);
    }
  }

  lemma PrintAtoiShrinks(s: string)
    requires Atoi(s).Some?
    ensures SameOrShorter(PrintInt(Atoi(s).value), s)
  {
    var digits := if s[0] == '+' || s[0] == '-' then s[1..] else s;
    PrintNatShrinks(digits);
    if s[0] == '-' {
      assert s == "-" + digits;
    }
  }

  /** A record that comes back with no part grown. */
  predicate Shrinks(r: Record, back: Record) {
    SameOrShorter(back.name, r.name) && back.rtype == r.rtype && SameOrShorter(back.value, r.value)
  }

  lemma ShrunkKey(r: Record, back: Record)
    requires Shrinks(r, back)
    ensures RecordKey(back) == RecordKey(r) <==> back.name == r.name && back.value == r.value
    ensures RecordKey(back) != RecordKey(r) ==> |RecordKey(back)| < |RecordKey(r)|
  {
    assert |RecordKey(r)| == |r.name| + 1 + |r.rtype| + 1 + |r.value|;
    assert |RecordKey(back)| == |back.name| + 1 + |back.rtype| + 1 + |back.value|;
  }

  lemma PairShrinks(p: string, x: string, q: string, y: string)
    requires SameOrShorter(q, p) && SameOrShorter(y, x)
    ensures SameOrShorter(q + " " + y, p + " " + x)
  {
  }

  // ---------- Cloudflare ----------

  lemma CfMxShrinks(r: Record, d: Display)
    requires r.rtype == "MX" && CfEncode(r).Some?
    ensures CfDecode(CfStored(CfEncode(r).value, "", d)).Some?
    ensures Shrinks(r, CfDecode(CfStored(CfEncode(r).value, "", d)).value)
  {
    var (pref, exchange) := SplitPair(r.value).value;
    var prio := Atoi(pref).value;
    CfMxRoundTrip(r, "", d, pref, exchange, prio);
    TrimShownShrinks(r.name, d.absolute);
    PrintAtoiShrinks(pref);
    TrimShownShrinks(exchange, d.absolute);
    PairShrinks(pref, exchange, PrintInt(prio), TrimSuffix(Shown(exchange, d.absolute), "."));
  }

  predicate GrowsAtCloudflare(r: Record, d: Display) {
    NamesHost(r.rtype) && d.content && Undotted(r.value)
  }

  /** Nothing Cloudflare lists back is longer than what it was sent, but for contents shown in absolute form. */
  lemma CfShrinks(r: Record, d: Display)
    requires CfEncode(r).Some? && CfDecode(CfStored(CfEncode(r).value, "", d)).Some?
    ensures var back := CfDecode(CfStored(CfEncode(r).value, "", d)).value;
            if GrowsAtCloudflare(r, d) then back == Record(TrimSuffix(r.name, "."), r.rtype, r.value + ".", r.ttl, "")
            else Shrinks(r, back)
  {
    if r.rtype == "MX" {
      CfMxShrinks(r, d);
    } else {
      TrimShownShrinks(r.name, d.absolute);
      TrimOnce(r.name, d.absolute);
    }
  }

  lemma TrimOnce(name: string, absolute: bool)
    ensures TrimSuffix(Shown(name, absolute), ".") == TrimSuffix(name, ".")
  {
    TrimShown(name, absolute);
  }

  /** A name that loses its dot and a value that gains one never make the key they came from. */
  lemma GrownKeyDiffers(r: Record, back: Record)
    requires Undotted(r.value) && back.rtype == r.rtype && back.name == TrimSuffix(r.name, ".") && back.value == r.value + "."
    ensures RecordKey(back) != RecordKey(r)
    ensures HasSuffix(RecordKey(back), ".") && !HasSuffix(RecordKey(r), ".") && |RecordKey(back)| <= |RecordKey(r)| + 1
  {
    var s, t := RecordKey(r), RecordKey(back);
    assert |s| == |r.name| + 1 + |r.rtype| + 1 + |r.value| && |t| == |back.name| + 1 + |r.rtype| + 1 + |r.value| + 1;
    assert s[|s| - 1] == if r.value == "" then '|' else r.value[|r.value| - 1];
    assert t[|t| - 1] == '.';
  }

  function KeyLength(k: string): nat {
    |k|
  }

  /** The type in a key whose name and type hold no bar. */
  function TypeOfKey(k: string): string {
    var parts := Split(k, '|');
    if |parts| > 1 then parts[1] else ""
  }

  lemma TypeOfPlainKey(r: Record)
    requires '|' !in r.name && '|' !in r.rtype
    ensures TypeOfKey(RecordKey(r)) == r.rtype
  {
    SplitKey(r);
    SplitWhole(r.name, '|');
    SplitWhole(r.rtype, '|');
    assert KeyParts(r) == [r.name, r.rtype] + Split(r.value, '|');
  }

  /** Length decides, except that where contents are shown in absolute form a final dot outweighs one character. */
  function CfRank(d: Display, k: string): nat {
    if d.content && NamesHost(TypeOfKey(k)) && !HasSuffix(k, ".") then 2 * |k| + 3 else 2 * |k|
  }

  function CfRanking(d: Display): string -> nat {
    k => CfRank(d, k)
  }

  predicate PlainRecord(r: Record) {
    '|' !in r.name && '|' !in r.rtype
  }

  lemma ShrunkFalls(r: Record, back: Record, d: Display)
    requires Shrinks(r, back) && RecordKey(back) != RecordKey(r) && (d.content ==> PlainRecord(r) && PlainRecord(back))
    requires d.content && NamesHost(r.rtype) ==> back.value == r.value
    ensures CfRank(d, RecordKey(back)) < CfRank(d, RecordKey(r))
  {
    ShrunkKey(r, back);
    if d.content {
      TypeOfPlainKey(r);
      TypeOfPlainKey(back);
      LastOfKey(r);
      LastOfKey(back);
    }
  }

  lemma LastOfKey(r: Record)
    ensures HasSuffix(RecordKey(r), ".") <==> HasSuffix(r.value, ".")
  {
    var s := RecordKey(r);
    assert |s| == |r.name| + 1 + |r.rtype| + 1 + |r.value|;
    assert s[|s| - 1] == if r.value == "" then '|' else r.value[|r.value| - 1];
  }

  lemma CfFallsAt(r: Record, d: Display)
    requires BackKey(CfCodec(d), r).Some? && !Survives(CfCodec(d), r) && (d.content ==> PlainRecord(r))
    ensures CfRank(d, BackKey(CfCodec(d), r).value) < CfRank(d, RecordKey(r))
  {
    var back := CfDecode(CfStored(CfEncode(r).value, "", d)).value;
    CfShrinks(r, d);
    if GrowsAtCloudflare(r, d) {
      GrownKeyDiffers(r, back);
      TypeOfPlainKey(r);
    } else {
      TrimOnce(r.name, d.absolute);
      assert d.content ==> PlainRecord(back);
      ShrunkFalls(r, back, d);
    }
  }

  lemma CfFalls(d: Display, des: map<string, Record>)
    requires WellKeyed(des) && (d.content ==> forall k :: k in des ==> PlainRecord(des[k]))
    ensures Falls(CfCodec(d), des, CfRanking(d))
  {
    forall k | k in des && BackKey(CfCodec(d), des[k]).Some? && !Survives(CfCodec(d), des[k])
      ensures CfRank(d, BackKey(CfCodec(d), des[k]).value) < CfRank(d, k)
    {
      CfFallsAt(des[k], d);
    }
  }

  /** What a caller can check of a record to be kept at Cloudflare. */
  predicate CfKeeps(r: Record, d: Display) {
    CfManaged(r.rtype) && Undotted(r.name) && CfCanonicalValue(r, d)
  }

  /** Cloudflare lists a record back under its own key exactly when it survives, as a caller can check beforehand. */
  lemma CfKeySurvivesIff(r: Record, d: Display)
    ensures Survives(CfCodec(d), r) <==> CfKeeps(r, d)
  {
    CfSurvivesIff(r, "", d);
    if CfEncode(r).Some? && CfDecode(CfStored(CfEncode(r).value, "", d)).Some? {
      var back := CfDecode(CfStored(CfEncode(r).value, "", d)).value;
      CfShrinks(r, d);
      if GrowsAtCloudflare(r, d) {
        GrownKeyDiffers(r, back);
      } else {
        ShrunkKey(r, back);
      }
    }
  }

  /**
   Clean passes over a Cloudflare zone, from any start: after n of them the listed keys are the wanted ones exactly
   when every wanted record not listed at the start is one Cloudflare keeps, and no stray began with more than n copies.
   If the server shows contents in absolute form, names and types must hold no bar.
   */
  lemma CloudflareConvergesIff(d: Display, t: Series<CfRecord>, des: map<string, Record>, n: nat)
    requires WellKeyed(des) && EncodedPasses(CfCodec(d), t, des) && 1 <= n < |t.zones|
    requires d.content ==> forall k :: k in des ==> PlainRecord(des[k])
    ensures KeysOf(Listing(CfCodec(d), t.zones[n])) == des.Keys <==>
            (forall k :: k in Missing(CfCodec(d), t.zones[0], des) ==> CfKeeps(des[k], d)) &&
            (forall k :: k !in des.Keys ==> |Copies(Listing(CfCodec(d), t.zones[0]), k)| <= n)
  {
    CfFalls(d, des);
    ConvergesIff(CfCodec(d), CfRanking(d), t, des, n);
    forall k | k in Missing(CfCodec(d), t.zones[0], des)
      ensures Survives(CfCodec(d), des[k]) <==> CfKeeps(des[k], d)
    {
      CfKeySurvivesIff(des[k], d);
    }
  }

  /**
   With bars in names the condition would be too strong: here are two records, neither kept, each of which lists back
   under the key of the other, so that a zone holding what both are stored as lists exactly the two wanted keys.
   */
  lemma BarsCoverForEachOther(d: Display) returns (x: Record, y: Record)
    requires d.content
    ensures BackKey(CfCodec(d), x) == Some(RecordKey(y)) && BackKey(CfCodec(d), y) == Some(RecordKey(x))
    ensures RecordKey(x) != RecordKey(y)
  {
    x, y := Record("a|MX|1 b", "CNAME", "x", 60, ""), Record("a", "MX", "1 b|CNAME|x.", 60, "");
    assert "a" + "|MX|1 " + "b" == "a|MX|1 b" && "1" + " " + ("b" + "|CNAME|" + "x" + ".") == "1 b|CNAME|x.";
    CoverOf(x, y, "a", "b", "x", d);
  }

  lemma CoverOf(x: Record, y: Record, a: string, b: string, v: string, d: Display)
    requires d.content && Undotted(a) && Undotted(v) && b != "" && Undotted(b)
    requires x.name == a + "|MX|1 " + b && x.rtype == "CNAME" && x.value == v
    requires y.name == a && y.rtype == "MX" && y.value == "1" + " " + (b + "|CNAME|" + v + ".")
    ensures BackKey(CfCodec(d), x) == Some(RecordKey(y)) && BackKey(CfCodec(d), y) == Some(RecordKey(x))
    ensures RecordKey(x) != RecordKey(y)
  {
    var tail := b + "|CNAME|" + v;
    CnameBack(x, d);
    OneBack(y, tail + ".", d);
    assert TrimSuffix(tail + ".", ".") == tail;
    KeyTexts(x, y, a, b, v);
  }

  lemma KeyTexts(x: Record, y: Record, a: string, b: string, v: string)
    requires x.name == a + "|MX|1 " + b && x.rtype == "CNAME" && x.value == v
    requires y.name == a && y.rtype == "MX" && y.value == "1" + " " + (b + "|CNAME|" + v + ".")
    ensures RecordKey(x.(value := v + ".")) == RecordKey(y)
    ensures RecordKey(y.(value := "1" + " " + (b + "|CNAME|" + v))) == RecordKey(x)
    ensures RecordKey(x) != RecordKey(y)
  {
    var tail := b + "|CNAME|" + v;
    assert "|" + "MX" + "|" + "1" + " " == "|MX|1 " && "|" + "CNAME" + "|" == "|CNAME|";
    assert RecordKey(x) == a + "|MX|1 " + tail && RecordKey(x.(value := v + ".")) == a + "|MX|1 " + tail + ".";
    assert RecordKey(y) == a + "|MX|1 " + tail + ".";
    assert |RecordKey(x)| + 1 == |RecordKey(y)|;
  }

  lemma CnameBack(x: Record, d: Display)
    requires d.content && x.rtype == "CNAME" && Undotted(x.name) && Undotted(x.value)
    ensures BackKey(CfCodec(d), x) == Some(RecordKey(x.(value := x.value + ".")))
  {
    TrimShown(x.name, d.absolute);
  }

  lemma OneBack(y: Record, exchange: string, d: Display)
    requires y.rtype == "MX" && y.value == "1" + " " + exchange && Undotted(y.name)
    ensures BackKey(CfCodec(d), y) == Some(RecordKey(y.(value := "1" + " " + TrimSuffix(exchange, "."))))
  {
    One();
    var (pref, rest) := SplitPair(y.value).value;
    PairIsUnique(pref, rest, "1", exchange);
    CfMxRoundTrip(y, "", d, pref, rest, 1);
    TrimShown(y.name, d.absolute);
    TrimOnce(exchange, d.absolute);
  }

  lemma One()
    ensures Atoi("1") == Some(1) && PrintInt(1) == "1" && ' ' !in "1"
  {
    var s := "1";
    assert s[..0] == "" && DigitsValue("") == 0;
  }

  // ---------- Technitium ----------

  lemma TechMxShrinks(r: Record, absolute: bool)
    requires r.rtype == "MX" && TechStored(r, absolute).Some?
    ensures TechDecode(TechStored(r, absolute).value).Some?
    ensures Shrinks(r, TechDecode(TechStored(r, absolute).value).value)
  {
    var (pref, exchange) := SplitPair(r.value).value;
    MxServed(pref, exchange, absolute);
    TrimShownShrinks(r.name, absolute);
    PrintNatShrinks(pref);
    TrimShownShrinks(exchange, absolute);
    PairShrinks(pref, exchange, PrintInt(DigitsValue(pref)), TrimSuffix(Shown(exchange, absolute), "."));
  }

  lemma TechTextShrinks(r: Record, absolute: bool, rdata: RData)
    requires r.rtype != "MX" && RdataParams(r).Some? && Served(r.rtype, RdataParams(r).value, absolute) == Some(rdata)
    ensures RdataToValue(r.rtype, rdata).Some? ==> SameOrShorter(RdataToValue(r.rtype, rdata).value, r.value)
  {
    TrimShownShrinks(r.value, absolute);
  }

  lemma TechOtherShrinks(r: Record, absolute: bool, rdata: RData)
    requires r.rtype != "MX" && RdataParams(r).Some? && Served(r.rtype, RdataParams(r).value, absolute) == Some(rdata)
    requires TechDecode(TechStored(r, absolute).value).Some?
    ensures Shrinks(r, TechDecode(TechStored(r, absolute).value).value)
  {
    TechRoundTrip(r, absolute, rdata);
    TrimShownShrinks(r.name, absolute);
    TechTextShrinks(r, absolute, rdata);
  }

  lemma TechShrinks(r: Record, absolute: bool)
    requires TechStored(r, absolute).Some? && TechDecode(TechStored(r, absolute).value).Some?
    ensures Shrinks(r, TechDecode(TechStored(r, absolute).value).value)
  {
    if r.rtype == "MX" {
      TechMxShrinks(r, absolute);
    } else {
      TechOtherShrinks(r, absolute, Served(r.rtype, RdataParams(r).value, absolute).value);
    }
  }

  lemma TechFalls(absolute: bool, des: map<string, Record>)
    requires WellKeyed(des)
    ensures Falls(TechCodec(absolute), des, KeyLength)
  {
    forall k | k in des && BackKey(TechCodec(absolute), des[k]).Some? && !Survives(TechCodec(absolute), des[k])
      ensures KeyLength(BackKey(TechCodec(absolute), des[k]).value) < KeyLength(k)
    {
      TechShrinks(des[k], absolute);
      ShrunkKey(des[k], TechDecode(TechStored(des[k], absolute).value).value);
    }
  }

  /** What a caller can check of a record to be kept at Technitium. */
  predicate TechKeeps(r: Record) {
    Undotted(r.name) && TechnitiumCanonical(r)
  }

  /** Technitium lists a record back under its own key exactly when its name is undotted and its value canonical. */
  lemma TechKeySurvivesIff(r: Record, absolute: bool)
    ensures Survives(TechCodec(absolute), r) <==> TechKeeps(r)
  {
    TechnitiumSurvivesIff(r, absolute);
    if TechStored(r, absolute).Some? && TechDecode(TechStored(r, absolute).value).Some? {
      TechShrinks(r, absolute);
      ShrunkKey(r, TechDecode(TechStored(r, absolute).value).value);
    }
  }

  /**
   Clean passes over a Technitium zone, where an add that meets an equal entry succeeds without effect and deletes go by
   name, type and value, converge under the same condition, with what Technitium keeps.
   */
  lemma TechnitiumConvergesIff(absolute: bool, t: Series<TechRecord>, des: map<string, Record>, n: nat)
    requires WellKeyed(des) && EncodedPasses(TechCodec(absolute), t, des) && 1 <= n < |t.zones|
    ensures KeysOf(Listing(TechCodec(absolute), t.zones[n])) == des.Keys <==>
            (forall k :: k in Missing(TechCodec(absolute), t.zones[0], des) ==> TechKeeps(des[k])) &&
            (forall k :: k !in des.Keys ==> |Copies(Listing(TechCodec(absolute), t.zones[0]), k)| <= n)
  {
    TechFalls(absolute, des);
    ConvergesIff(TechCodec(absolute), KeyLength, t, des, n);
    forall k | k in Missing(TechCodec(absolute), t.zones[0], des)
      ensures Survives(TechCodec(absolute), des[k]) <==> TechKeeps(des[k])
    {
      TechKeySurvivesIff(des[k], absolute);
    }
  }

  // ---------- A record that never settles ----------

  lemma LeadingZero()
    ensures Atoi("010") == Some(10) && PrintInt(10) == "10" && PrintInt(10) != "010"
  {
    var s := "010";
    assert s[..2] == "01" && "01"[..1] == "0" && "0"[..0] == "" && DigitsValue("") == 0;
    assert DigitsValue("0") == 0 && DigitsValue("01") == 1 && DigitsValue(s) == 10;
    assert PrintNat(10) == PrintNat(1) + [DigitChar(0)];
    assert |PrintInt(10)| == 2;
  }

  /** A manual MX written with a leading zero lists back from Cloudflare without it. */
  lemma LeadingZeroIsLost(r: Record, exchange: string, d: Display)
    requires r.rtype == "MX" && r.value == "010" + " " + exchange && Undotted(r.name) && Undotted(exchange)
    ensures BackKey(CfCodec(d), r) == Some(RecordKey(r.(value := "10" + " " + exchange)))
    ensures BackKey(CfCodec(d), r) != Some(RecordKey(r))
  {
    LeadingZero();
    var (pref, x) := SplitPair(r.value).value;
    assert ' ' !in "010";
    PairIsUnique(pref, x, "010", exchange);
    CfMxRoundTrip(r, "", d, pref, x, 10);
    TrimShown(r.name, d.absolute);
    TrimShown(exchange, d.absolute);
    var back := r.(value := "10" + " " + exchange);
    assert |RecordKey(back)| < |RecordKey(r)|;
  }

  /** So the reconciler adds it in every pass, and from the second pass on deletes what it added before. */
  lemma LeadingZeroNeverSettles(r: Record, exchange: string, d: Display, t: Series<CfRecord>, n: nat)
    requires r.rtype == "MX" && r.value == "010" + " " + exchange && Undotted(r.name) && Undotted(exchange)
    requires EncodedPasses(CfCodec(d), t, map[RecordKey(r) := r]) && n < |t.works|
    requires RecordKey(r) !in KeysOf(Listing(CfCodec(d), t.zones[0]))
    ensures RecordKey(r) in t.works[n].added
    ensures n > 0 ==> RecordKey(r.(value := "10" + " " + exchange)) in t.works[n].deleted
  {
    LeadingZeroIsLost(r, exchange, d);
    AddedAndDeletedForEver(CfCodec(d), t, map[RecordKey(r) := r], RecordKey(r), RecordKey(r.(value := "10" + " " + exchange)), n);
  }

  lemma TechMxBack(r: Record, absolute: bool, pref: string, exchange: string)
    requires r.rtype == "MX" && SplitPair(r.value) == Some((pref, exchange)) && Undotted(r.name) && Undotted(exchange)
    requires pref != "" && AllDigits(pref) && DigitsValue(pref) < 65536
    ensures TechStored(r, absolute).Some?
    ensures TechDecode(TechStored(r, absolute).value) ==
            Some(r.(value := PrintInt(DigitsValue(pref)) + " " + exchange, id := ""))
  {
    MxServed(pref, exchange, absolute);
    TrimShown(r.name, absolute);
    TrimShown(exchange, absolute);
  }

  /** Technitium lists it back in the same way. */
  lemma LeadingZeroIsLostAtTechnitium(r: Record, exchange: string, absolute: bool)
    requires r.rtype == "MX" && r.value == "010" + " " + exchange && Undotted(r.name) && Undotted(exchange)
    ensures BackKey(TechCodec(absolute), r) == Some(RecordKey(r.(value := "10" + " " + exchange)))
    ensures BackKey(TechCodec(absolute), r) != Some(RecordKey(r))
  {
    LeadingZero();
    var (pref, x) := SplitPair(r.value).value;
    assert ' ' !in "010";
    PairIsUnique(pref, x, "010", exchange);
    TechMxBack(r, absolute, pref, x);
    var back := r.(value := "10" + " " + exchange);
    assert |RecordKey(back)| < |RecordKey(r)|;
  }

  /**
   There it is reported as added in every pass; from an empty zone the record listed as "10 ..." is put in by the first
   pass, taken out by the second, which finds the add answered with "already exists", and so on for ever.
   */
  lemma LeadingZeroComesAndGoes(r: Record, exchange: string, absolute: bool, t: Series<TechRecord>, n: nat)
    requires r.rtype == "MX" && r.value == "010" + " " + exchange && Undotted(r.name) && Undotted(exchange) && '|' !in r.name
    requires EncodedPasses(TechCodec(absolute), t, map[RecordKey(r) := r]) && n < |t.works| && t.zones[0] == map[]
    requires forall i :: 0 <= i < |t.loaded| ==> t.loaded[i] == map[RecordKey(r) := r]
    ensures RecordKey(r) in t.works[n].added
    ensures RecordKey(r.(value := "10" + " " + exchange)) in t.works[n].deleted <==> n % 2 == 1
    ensures RecordKey(r.(value := "10" + " " + exchange)) in KeysOf(Listing(TechCodec(absolute), t.zones[n])) <==> n % 2 == 1
  {
    var c, des, back := TechCodec(absolute), map[RecordKey(r) := r], RecordKey(r.(value := "10" + " " + exchange));
    LeadingZeroIsLostAtTechnitium(r, exchange, absolute);
    PlainAtTechnitium(r, absolute);
    assert PlainWanted(c, des) && AllPlain(c, t);
    ComesAndGoes(c, t, des, RecordKey(r), back, n);
  }

  lemma PlainAtTechnitium(r: Record, absolute: bool)
    requires TechStored(r, absolute).Some? && '|' !in r.name && '|' !in r.rtype
    ensures PlainEntry(TechCodec(absolute), TechStored(r, absolute).value)
  {
  }
}
