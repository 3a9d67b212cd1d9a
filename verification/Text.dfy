/**
 The part of Go's `strings`, `strconv` and `fmt` packages that netdb relies on, over ASCII text.
 Dotted names, comma lists and `|` keys are all built by `Join` and taken apart by `Split`,
 so the laws of these two carry most of the string reasoning in this project.
 */
module Text {

  // ---------- Split and Join ----------

  function Split(s: string, c: char): (parts: seq<string>)
    ensures |parts| >= 1
    ensures forall p :: p in parts ==> c !in p
  {
    if s == "" then [""]
    else
      var rest := Split(s[1..], c);
      if s[0] == c then [""] + rest else [[s[0]] + rest[0]] + rest[1..]
  }

  function Join(parts: seq<string>, sep: string): string {
    if |parts| == 0 then ""
    else if |parts| == 1 then parts[0]
    else parts[0] + sep + Join(parts[1..], sep)
  }

  lemma {:induction false} JoinSplit(s: string, c: char)
    ensures Join(Split(s, c), [c]) == s
  {
    if s != "" {
      JoinSplit(s[1..], c);
      var rest := Split(s[1..], c);
      if s[0] == c {
        assert ([""] + rest)[1..] == rest;
      } else {
        var whole := [[s[0]] + rest[0]] + rest[1..];
        assert whole[1..] == rest[1..];
        if |rest| > 1 {
          assert Join(whole, [c]) == [s[0]] + Join(rest, [c]);
        }
      }
    }
  }

  function OnFirst(c: char, parts: seq<string>): seq<string>
    requires |parts| >= 1
  {
    [[c] + parts[0]] + parts[1..]
  }

  /** The parts of a text that has one more character in front. */
  function Consed(x: char, c: char, parts: seq<string>): seq<string>
    requires |parts| >= 1
  {
    if x == c then [""] + parts else OnFirst(x, parts)
  }

  lemma ConsedConcat(x: char, c: char, xs: seq<string>, ys: seq<string>)
    requires |xs| >= 1
    ensures Consed(x, c, xs + ys) == Consed(x, c, xs) + ys
  {
    assert [""] + (xs + ys) == ([""] + xs) + ys;
  }

  lemma SplitCons(x: char, s: string, c: char)
    ensures Split([x] + s, c) == Consed(x, c, Split(s, c))
  {
    assert ([x] + s)[1..] == s;
  }

  lemma FirstApart(a: string, c: char, b: string)
    requires a != ""
    ensures a == [a[0]] + a[1..] && a + [c] + b == [a[0]] + (a[1..] + [c] + b)
  {
  }

  lemma {:induction false} SplitConcat(a: string, b: string, c: char)
    ensures Split(a + [c] + b, c) == Split(a, c) + Split(b, c)
  {
    if a == "" {
      assert a + [c] + b == [c] + b;
      SplitCons(c, b, c);
    } else {
      FirstApart(a, c, b);
      SplitConcat(a[1..], b, c);
      SplitCons(a[0], a[1..] + [c] + b, c);
      SplitCons(a[0], a[1..], c);
      ConsedConcat(a[0], c, Split(a[1..], c), Split(b, c));
    }
  }

  lemma {:induction false} SplitWhole(s: string, c: char)
    requires c !in s
    ensures Split(s, c) == [s]
  {
    if s != "" {
      SplitWhole(s[1..], c);
      assert [s[0]] + s[1..] == s;
    }
  }

  lemma {:induction false} SplitJoin(parts: seq<string>, c: char)
    requires |parts| >= 1
    requires forall p :: p in parts ==> c !in p
    ensures Split(Join(parts, [c]), c) == parts
  {
    SplitWhole(parts[0], c);
    if |parts| > 1 {
      SplitJoin(parts[1..], c);
      SplitConcat(parts[0], Join(parts[1..], [c]), c);
      assert parts == [parts[0]] + parts[1..];
    }
  }

  lemma {:induction false} JoinConcat(xs: seq<string>, ys: seq<string>, sep: string)
    requires |xs| >= 1 && |ys| >= 1
    ensures Join(xs + ys, sep) == Join(xs, sep) + sep + Join(ys, sep)
  {
    if |xs| == 1 {
      assert (xs + ys)[1..] == ys;
    } else {
      JoinConcat(xs[1..], ys, sep);
      assert (xs + ys)[1..] == xs[1..] + ys;
      assert (xs[0] + sep + Join(xs[1..], sep)) + sep + Join(ys, sep)
          == xs[0] + sep + (Join(xs[1..], sep) + sep + Join(ys, sep));
    }
  }

  // ---------- Suffixes ----------

  predicate HasSuffix(s: string, t: string) {
    |t| <= |s| && s[|s| - |t|..] == t
  }

  predicate IsTail<T(==)>(ys: seq<T>, xs: seq<T>) {
    |ys| < |xs| && xs[|xs| - |ys|..] == ys
  }

  lemma EndsWithItsEnd(a: string, u: string)
    ensures HasSuffix(a + u, u)
  {
  }

  lemma SuffixHasTailParts(s: string, t: string, c: char)
    requires HasSuffix(s, [c] + t)
    ensures IsTail(Split(t, c), Split(s, c))
  {
    var a := s[..|s| - |t| - 1];
    assert s == a + s[|a|..] == a + ([c] + t) == a + [c] + t;
    SplitConcat(a, t, c);
    var front, tt := Split(a, c), Split(t, c);
    assert (front + tt)[|front|..] == tt;
  }

  lemma TailPartsJoin(s: string, t: string, c: char) returns (a: string)
    requires IsTail(Split(t, c), Split(s, c))
    ensures s == a + [c] + t
  {
    var ss, tt := Split(s, c), Split(t, c);
    var front := ss[..|ss| - |tt|];
    assert ss == front + tt;
    JoinConcat(front, tt, [c]);
    JoinSplit(s, c);
    JoinSplit(t, c);
    a := Join(front, [c]);
  }

  lemma TailPartsHaveSuffix(s: string, t: string, c: char)
    requires IsTail(Split(t, c), Split(s, c))
    ensures HasSuffix(s, [c] + t)
  {
    var a := TailPartsJoin(s, t, c);
    EndsWithItsEnd(a, [c] + t);
    assert a + ([c] + t) == a + [c] + t;
  }

  /** Ending in the separator and then `t` is the same as having `t`'s parts as the last ones. */
  lemma SuffixOfParts(s: string, t: string, c: char)
    ensures HasSuffix(s, [c] + t) <==> IsTail(Split(t, c), Split(s, c))
  {
    if HasSuffix(s, [c] + t) {
      SuffixHasTailParts(s, t, c);
    }
    if IsTail(Split(t, c), Split(s, c)) {
      TailPartsHaveSuffix(s, t, c);
    }
  }

  /** Parts of two texts written next to each other: the last part runs into the first. */
  function Glue(uu: seq<string>, tt: seq<string>): seq<string>
    requires |uu| >= 1 && |tt| >= 1
  {
    uu[..|uu| - 1] + [uu[|uu| - 1] + tt[0]] + tt[1..]
  }

  lemma GlueCons(x: string, uu: seq<string>, tt: seq<string>)
    requires |uu| >= 1 && |tt| >= 1
    ensures Glue([x] + uu, tt) == [x] + Glue(uu, tt)
  {
  }

  lemma GlueOnFirst(c: char, uu: seq<string>, tt: seq<string>)
    requires |uu| >= 1 && |tt| >= 1
    ensures Glue(OnFirst(c, uu), tt) == OnFirst(c, Glue(uu, tt))
  {
    assert [c] + (uu[0] + tt[0]) == [c] + uu[0] + tt[0];
  }

  lemma {:induction false} SplitAppend(u: string, t: string, c: char)
    ensures Split(u + t, c) == Glue(Split(u, c), Split(t, c))
  {
    if u == "" {
      assert u + t == t;
      assert "" + Split(t, c)[0] == Split(t, c)[0];
    } else {
      assert (u + t)[1..] == u[1..] + t && (u + t)[0] == u[0];
      SplitAppend(u[1..], t, c);
      var rest := Split(u[1..], c);
      if u[0] == c {
        GlueCons("", rest, Split(t, c));
      } else {
        GlueOnFirst(u[0], rest, Split(t, c));
      }
    }
  }

  /** What a suffix test without a boundary compares: whole parts, except that the first may match partially. */
  ghost predicate RawTail(tt: seq<string>, ss: seq<string>)
    requires |tt| >= 1
  {
    |tt| <= |ss| && ss[|ss| - |tt| + 1..] == tt[1..] && HasSuffix(ss[|ss| - |tt|], tt[0])
  }

  lemma GlueHasRawTail(uu: seq<string>, tt: seq<string>)
    requires |uu| >= 1 && |tt| >= 1
    ensures RawTail(tt, Glue(uu, tt))
  {
    var ss := Glue(uu, tt);
    var x := uu[|uu| - 1];
    assert ss[|ss| - |tt|] == x + tt[0];
    assert (x + tt[0])[|x|..] == tt[0];
  }

  lemma UnglueTail(ss: seq<string>, tt: seq<string>) returns (uu: seq<string>)
    requires |tt| >= 1 && RawTail(tt, ss)
    ensures |uu| >= 1 && ss == Glue(uu, tt)
    ensures forall i :: 0 <= i < |uu| ==> i < |ss| && uu[i] <= ss[i]
  {
    var k := |ss| - |tt|;
    var x := ss[k][..|ss[k]| - |tt[0]|];
    assert ss[k] == x + tt[0];
    uu := ss[..k] + [x];
    assert uu[..k] == ss[..k];
    assert ss == ss[..k] + [ss[k]] + ss[k + 1..];
  }

  lemma RawTailIsGlued(s: string, tt: seq<string>, c: char) returns (u: string)
    requires |tt| >= 1 && RawTail(tt, Split(s, c))
    ensures Split(s, c) == Glue(Split(u, c), tt)
  {
    var ss := Split(s, c);
    var uu := UnglueTail(ss, tt);
    forall p | p in uu
      ensures c !in p
    {
      var i :| 0 <= i < |uu| && uu[i] == p;
      assert c !in ss[i];
    }
    SplitJoin(uu, c);
    u := Join(uu, [c]);
  }

  lemma RawSuffixOfParts(s: string, t: string, c: char)
    ensures HasSuffix(s, t) <==> RawTail(Split(t, c), Split(s, c))
  {
    if HasSuffix(s, t) {
      var u := s[..|s| - |t|];
      assert s == u + t;
      SplitAppend(u, t, c);
      GlueHasRawTail(Split(u, c), Split(t, c));
    }
    if RawTail(Split(t, c), Split(s, c)) {
      var u := RawTailIsGlued(s, Split(t, c), c);
      SplitAppend(u, t, c);
      JoinSplit(s, c);
      JoinSplit(u + t, c);
      assert s[|u|..] == t;
    }
  }

  function TrimSuffix(s: string, t: string): (r: string)
    ensures HasSuffix(s, t) ==> s == r + t
    ensures !HasSuffix(s, t) ==> r == s
  {
    if HasSuffix(s, t) then s[..|s| - |t|] else s
  }

  // ---------- White space and case ----------

  predicate IsSpace(c: char) {
    c == ' ' || '\t' <= c <= '\r'
  }

  function TrimLeft(s: string): string {
    if s != "" && IsSpace(s[0]) then TrimLeft(s[1..]) else s
  }

  function TrimRight(s: string): string {
    if s != "" && IsSpace(s[|s| - 1]) then TrimRight(s[..|s| - 1]) else s
  }

  function TrimSpace(s: string): string {
    TrimRight(TrimLeft(s))
  }

  predicate Trimmed(s: string) {
    s != "" ==> !IsSpace(s[0]) && !IsSpace(s[|s| - 1])
  }

  lemma {:induction false} TrimRightFacts(s: string)
    ensures TrimRight(s) <= s
    ensures TrimRight(s) != "" ==> !IsSpace(TrimRight(s)[|TrimRight(s)| - 1])
  {
    if s != "" && IsSpace(s[|s| - 1]) {
      TrimRightFacts(s[..|s| - 1]);
    }
  }

  lemma {:induction false} TrimLeftFacts(s: string)
    ensures HasSuffix(s, TrimLeft(s))
    ensures TrimLeft(s) != "" ==> !IsSpace(TrimLeft(s)[0])
  {
    if s != "" && IsSpace(s[0]) {
      TrimLeftFacts(s[1..]);
      var t := TrimLeft(s[1..]);
      assert s[1..][|s| - 1 - |t|..] == s[|s| - |t|..];
    }
  }

  lemma TrimSpaceFacts(s: string)
    ensures Trimmed(TrimSpace(s))
    ensures forall c :: c in TrimSpace(s) ==> c in s
  {
    TrimLeftFacts(s);
    TrimRightFacts(TrimLeft(s));
    var l, r := TrimLeft(s), TrimSpace(s);
    if r != "" {
      assert r[0] == l[0];
    }
    forall c | c in r
      ensures c in s
    {
      assert c in l;
      assert c in s[|s| - |l|..];
    }
  }

  /** Space, tab, line feed, vertical tab, form feed and carriage return. */
  predicate Blank(c: char) {
    c as int == 32 || 9 <= c as int <= 13
  }

  /** Trimming keeps the slice between the first and the last character that is no blank, and nothing of all blanks. */
  lemma TrimmedSlice(s: string) returns (i: nat, j: nat)
    ensures i <= j <= |s| && TrimSpace(s) == s[i..j]
    ensures forall k :: 0 <= k < |s| && !(i <= k < j) ==> Blank(s[k])
    ensures i < j ==> !Blank(s[i]) && !Blank(s[j - 1])
  {
    i := SliceLeft(s);
    var t := TrimLeft(s);
    var n := SliceRight(t);
    j := i + n;
    assert t == s[i..] && TrimSpace(s) == t[..n];
    assert forall k :: 0 <= k < |t| ==> t[k] == s[i + k];
    forall k | j <= k < |s|
      ensures Blank(s[k])
    {
      assert s[k] == t[k - i];
    }
  }

  lemma {:induction false} SliceLeft(s: string) returns (i: nat)
    ensures i <= |s| && TrimLeft(s) == s[i..] && forall k :: 0 <= k < i ==> Blank(s[k])
    ensures i < |s| ==> !Blank(s[i])
  {
    i := 0;
    if s != "" && IsSpace(s[0]) {
      var m := SliceLeft(s[1..]);
      i := m + 1;
      assert s[1..][m..] == s[i..];
      assert forall k :: 0 < k < i ==> s[k] == s[1..][k - 1];
    }
  }

  lemma {:induction false} SliceRight(s: string) returns (n: nat)
    ensures n <= |s| && TrimRight(s) == s[..n] && forall k :: n <= k < |s| ==> Blank(s[k])
    ensures 0 < n ==> !Blank(s[n - 1])
  {
    n := |s|;
    if s != "" && IsSpace(s[|s| - 1]) {
      var front := s[..|s| - 1];
      n := SliceRight(front);
      assert front[..n] == s[..n];
      assert forall k :: n <= k < |s| - 1 ==> s[k] == front[k];
    }
  }

  lemma TrimmedUnchanged(s: string)
    requires Trimmed(s)
    ensures TrimSpace(s) == s
  {
  }

  /** A leading blank in front of trimmed text is all that trimming removes. */
  lemma TrimBlankPrefix(s: string)
    requires Trimmed(s)
    ensures TrimSpace(" " + s) == s
  {
    assert (" " + s)[1..] == s;
    assert TrimLeft(" " + s) == TrimLeft(s) == s;
  }

  function LowerChar(c: char): char {
    if 'A' <= c <= 'Z' then c - 'A' + 'a' else c
  }

  function ToLower(s: string): (r: string)
    ensures |r| == |s|
    ensures forall i :: 0 <= i < |s| ==> r[i] == LowerChar(s[i])
  {
    if s == "" then "" else [LowerChar(s[0])] + ToLower(s[1..])
  }

  /** Lower-casing moves A to Z, codes 65 to 90, up by 32 and leaves every other character. */
  lemma LowerByCode(c: char)
    ensures LowerChar(c) as int == c as int + if 65 <= c as int <= 90 then 32 else 0
  {
  }

  lemma LowerSlice(s: string, i: nat, j: nat)
    requires i <= j <= |s|
    ensures ToLower(s)[i..j] == ToLower(s[i..j])
  {
    var t := s[i..j];
    forall k | 0 <= k < |t|
      ensures ToLower(s)[i..j][k] == ToLower(t)[k]
    {
      assert t[k] == s[i + k];
    }
  }

  /** Trimming and lower-casing commute. */
  lemma {:induction false} LowerTrim(s: string)
    ensures TrimSpace(ToLower(s)) == ToLower(TrimSpace(s))
  {
    LowerTrimLeft(s);
    LowerTrimRight(TrimLeft(s));
  }

  lemma {:induction false} LowerTrimLeft(s: string)
    ensures TrimLeft(ToLower(s)) == ToLower(TrimLeft(s))
  {
    if s != "" && IsSpace(s[0]) {
      LowerTrimLeft(s[1..]);
    }
  }

  lemma {:induction false} LowerTrimRight(s: string)
    ensures TrimRight(ToLower(s)) == ToLower(TrimRight(s))
  {
    if s != "" && IsSpace(s[|s| - 1]) {
      LowerTrimRight(s[..|s| - 1]);
      LowerSlice(s, 0, |s| - 1);
    }
  }

  lemma LowerTwice(s: string)
    ensures ToLower(ToLower(s)) == ToLower(s)
  {
  }

  // ---------- Decimal numbers ----------

  predicate IsDigit(c: char) {
    '0' <= c <= '9'
  }

  predicate AllDigits(s: string) {
    forall i :: 0 <= i < |s| ==> IsDigit(s[i])
  }

  function DigitChar(d: int): (c: char)
    requires 0 <= d < 10
    ensures IsDigit(c) && DigitValue(c) == d
  {
    (('0' as int) + d) as char
  }

  function DigitValue(c: char): (d: int)
    requires IsDigit(c)
    ensures 0 <= d < 10
  {
    (c as int) - ('0' as int)
  }

  /** `%d` of a natural number. */
  function PrintNat(n: nat): string {
    if n < 10 then [DigitChar(n)] else PrintNat(n / 10) + [DigitChar(n % 10)]
  }

  function DigitsValue(s: string): nat
    requires AllDigits(s)
  {
    if s == "" then 0 else 10 * DigitsValue(s[..|s| - 1]) + DigitValue(s[|s| - 1])
  }

  /** Digits only, at least one, and no superfluous leading zero. */
  predicate CanonicalDecimal(s: string) {
    s != "" && AllDigits(s) && (s[0] == '0' ==> |s| == 1)
  }

  lemma {:induction false} PrintNatCanonical(n: nat)
    ensures CanonicalDecimal(PrintNat(n))
    ensures DigitsValue(PrintNat(n)) == n
    ensures n > 0 ==> PrintNat(n)[0] != '0'
  {
    if n >= 10 {
      PrintNatCanonical(n / 10);
      var s := PrintNat(n);
      assert s[..|s| - 1] == PrintNat(n / 10);
    } else {
      var s := PrintNat(n);
      assert s[..|s| - 1] == "";
      assert DigitsValue("") == 0;
    }
  }

  lemma {:induction false} CanonicalDecimalPrints(s: string)
    requires CanonicalDecimal(s)
    ensures PrintNat(DigitsValue(s)) == s
    ensures |s| > 1 ==> DigitsValue(s) >= 10
  {
    var front := s[..|s| - 1];
    if front == "" {
      assert DigitsValue(front) == 0;
      assert s == [s[0]];
      assert DigitChar(DigitValue(s[0])) == s[0];
    } else {
      assert front[0] == s[0];
      if |front| == 1 {
        assert front[..0] == "";
        assert DigitsValue(front) == DigitValue(front[0]) > 0;
      }
      CanonicalDecimalPrints(front);
      assert DigitChar(DigitValue(s[|s| - 1])) == s[|s| - 1];
      assert s == front + [s[|s| - 1]];
    }
  }

  lemma PrintNatInjective(m: nat, n: nat)
    requires PrintNat(m) == PrintNat(n)
    ensures m == n
  {
    PrintNatCanonical(m);
    PrintNatCanonical(n);
  }
}
