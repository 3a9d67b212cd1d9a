/** `NormalizeMAC` and `sanitizeHostname`: canonical forms of what clients and users type, over ASCII text. */
module Mac {
  import opened Basics
  import opened Text

  /** `strings.ReplaceAll(s, c, "")`. */
  function Without(s: string, c: char): string {
    if s == "" then "" else (if s[0] == c then "" else [s[0]]) + Without(s[1..], c)
  }

  function Digits(input: string): string {
    Without(Without(Without(ToLower(TrimSpace(input)), '-'), ':'), '.')
  }

  predicate IsLowerHex(c: char) {
    '0' <= c <= '9' || 'a' <= c <= 'f'
  }

  predicate AllLowerHex(s: string) {
    forall i :: 0 <= i < |s| ==> IsLowerHex(s[i])
  }

  /** Pairs of digits with colons between them. */
  function Colonize(s: string): string {
    if |s| <= 2 then s else s[..2] + ":" + Colonize(s[2..])
  }

  function NormalizeMac(input: string): Option<string> {
    var s := Digits(input);
    if |s| == 12 && AllLowerHex(s) then Some(Colonize(s)) else None
  }

  lemma {:induction false} ColonizeMore(s: string, i: nat)
    requires i % 2 == 0 && 0 < i && i + 2 <= |s|
    ensures Colonize(s[..i + 2]) == Colonize(s[..i]) + ":" + s[i..i + 2]
  {
    if i == 2 {
      assert s[..4][2..] == s[2..4];
      assert s[..4][..2] == s[..2];
    } else {
      var t := s[2..];
      ColonizeMore(t, i - 2);
      assert s[..i + 2][2..] == t[..i] && s[..i + 2][..2] == s[..2];
      assert s[..i][2..] == t[..i - 2] && s[..i][..2] == s[..2];
      assert t[i - 2..i] == s[i..i + 2];
      var c := Colonize(t[..i - 2]);
      assert s[..2] + ":" + (c + ":" + s[i..i + 2]) == s[..2] + ":" + c + ":" + s[i..i + 2];
    }
  }

  method NormalizeMacLoop(input: string) returns (r: Option<string>)
    ensures r == NormalizeMac(input)
  {
    var s := ToLower(TrimSpace(input));
    s := Without(s, '-');
    s := Without(s, ':');
    s := Without(s, '.');
    if |s| != 12 {
      return None;
    }
    for k := 0 to |s|
      invariant forall j :: 0 <= j < k ==> IsLowerHex(s[j])
    {
      if !IsLowerHex(s[k]) {
        return None;
      }
    }
    var b := "";
    var i := 0;
    while i < 12
      invariant 0 <= i <= 12 && i % 2 == 0
      invariant b == Colonize(s[..i])
    {
      if i > 0 {
        ColonizeMore(s, i);
        b := b + ":";
      }
      b := b + s[i..i + 2];
      i := i + 2;
    }
    assert s[..12] == s;
    r := Some(b);
  }

  lemma {:induction false} WithoutAppend(s: string, t: string, c: char)
    ensures Without(s + t, c) == Without(s, c) + Without(t, c)
  {
    if s == "" {
      assert s + t == t;
    } else {
      var u, x := s + t, if s[0] == c then "" else [s[0]];
      assert u[0] == s[0] && u[1..] == s[1..] + t;
      WithoutAppend(s[1..], t, c);
      var a, b := Without(s[1..], c), Without(t, c);
      assert x + (a + b) == (x + a) + b;
    }
  }

  lemma {:induction false} WithoutAbsent(s: string, c: char)
    requires c !in s
    ensures Without(s, c) == s
  {
    if s != "" {
      WithoutAbsent(s[1..], c);
    }
  }

  lemma {:induction false} LowerUnchanged(s: string)
    requires forall i :: 0 <= i < |s| ==> LowerChar(s[i]) == s[i]
    ensures ToLower(s) == s
  {
    if s != "" {
      LowerUnchanged(s[1..]);
    }
  }

  predicate MacChar(c: char) {
    IsLowerHex(c) || c == ':'
  }

  lemma {:induction false} ColonizeFacts(s: string)
    requires AllLowerHex(s)
    ensures Without(Colonize(s), ':') == s
    ensures forall i :: 0 <= i < |Colonize(s)| ==> MacChar(Colonize(s)[i])
    ensures s != "" ==> Colonize(s) != "" && Colonize(s)[0] == s[0] && Colonize(s)[|Colonize(s)| - 1] == s[|s| - 1]
  {
    if |s| <= 2 {
      WithoutAbsent(s, ':');
    } else {
      var rest := Colonize(s[2..]);
      ColonizeFacts(s[2..]);
      WithoutAppend(s[..2] + ":", rest, ':');
      WithoutAppend(s[..2], ":", ':');
      WithoutAbsent(s[..2], ':');
      assert Without(":", ':') == "";
      assert s[..2] + s[2..] == s;
    }
  }

  lemma DigitsOfCanonical(s: string)
    requires AllLowerHex(s) && s != ""
    ensures Digits(Colonize(s)) == s
  {
    var m := Colonize(s);
    ColonizeFacts(s);
    assert Trimmed(m);
    TrimmedUnchanged(m);
    LowerUnchanged(m);
    WithoutAbsent(m, '-');
    WithoutAbsent(s, '.');
  }

  /** A canonical MAC is its own canonical form, and holds neither bar nor blank. */
  lemma NormalizeMacIdempotent(input: string)
    requires NormalizeMac(input).Some?
    ensures NormalizeMac(NormalizeMac(input).value) == NormalizeMac(input)
    ensures '|' !in NormalizeMac(input).value && |NormalizeMac(input).value| > 0
  {
    DigitsOfCanonical(Digits(input));
    ColonizeFacts(Digits(input));
  }

  /** Two accepted inputs have one canonical form exactly when their lower-case digits agree. */
  lemma NormalizeMacAgreesIff(x: string, y: string)
    requires NormalizeMac(x).Some? && NormalizeMac(y).Some?
    ensures NormalizeMac(x) == NormalizeMac(y) <==> Digits(x) == Digits(y)
  {
    ColonizeFacts(Digits(x));
    ColonizeFacts(Digits(y));
  }

  // ---------- Which inputs are accepted ----------

  /** A hexadecimal digit in either case: codes of 0 to 9, a to f and A to F. */
  predicate HexDigitCode(c: char) {
    48 <= c as int <= 57 || 97 <= c as int <= 102 || 65 <= c as int <= 70
  }

  predicate AllHexCodes(s: string) {
    forall i :: 0 <= i < |s| ==> HexDigitCode(s[i])
  }

  lemma {:induction false} LowerWithout(s: string, c: char)
    requires LowerChar(c) == c && forall d :: LowerChar(d) == c ==> d == c
    ensures Without(ToLower(s), c) == ToLower(Without(s, c))
  {
    if s != "" {
      LowerWithout(s[1..], c);
    }
  }

  /** What is left of the input, in its own case, once blanks around it and separators are gone. */
  function Bare(input: string): string {
    Without(Without(Without(TrimSpace(input), '-'), ':'), '.')
  }

  lemma DigitsAreBare(input: string)
    ensures Digits(input) == ToLower(Bare(input))
  {
    var s := TrimSpace(input);
    LowerWithout(s, '-');
    LowerWithout(Without(s, '-'), ':');
    LowerWithout(Without(Without(s, '-'), ':'), '.');
  }

  /** `m` is the digits two by two, lower-cased, with colons between the pairs. */
  predicate PairsOf(m: string, digits: string)
    requires |digits| == 12
  {
    |m| == 17 && forall j :: 0 <= j < 6 ==>
      && m[3 * j] == LowerChar(digits[2 * j]) && m[3 * j + 1] == LowerChar(digits[2 * j + 1])
      && (j < 5 ==> m[3 * j + 2] == ':')
  }

  lemma {:induction false} ColonizedPair(s: string, j: nat)
    requires |s| % 2 == 0 && 2 * j + 1 < |s|
    ensures |Colonize(s)| == |s| + |s| / 2 - 1
    ensures Colonize(s)[3 * j] == s[2 * j] && Colonize(s)[3 * j + 1] == s[2 * j + 1]
    ensures 2 * j + 2 < |s| ==> Colonize(s)[3 * j + 2] == ':'
    decreases |s|
  {
    if |s| > 2 {
      var t := s[2..];
      var rest := Colonize(t);
      assert Colonize(s) == [s[0], s[1], ':'] + rest;
      if j == 0 {
        ColonizedPair(t, 0);
      } else {
        ColonizedPair(t, j - 1);
        assert t[2 * j - 2] == s[2 * j] && t[2 * j - 1] == s[2 * j + 1];
      }
    }
  }

  lemma ColonizedPairs(digits: string)
    requires |digits| == 12
    ensures PairsOf(Colonize(ToLower(digits)), digits)
  {
    var m := Colonize(ToLower(digits));
    forall j | 0 <= j < 6
      ensures |m| == 17 && m[3 * j] == LowerChar(digits[2 * j]) && m[3 * j + 1] == LowerChar(digits[2 * j + 1])
      ensures j < 5 ==> m[3 * j + 2] == ':'
    {
      ColonizedPair(ToLower(digits), j);
    }
    assert |m| == 17 by {
      ColonizedPair(ToLower(digits), 0);
    }
  }

  /**
   An input is accepted exactly when twelve hexadecimal digits of either case are left of it, and then its canonical
   form is these digits, lower-cased, in pairs.
   */
  lemma NormalizeMacIff(input: string)
    ensures NormalizeMac(input).Some? <==> |Bare(input)| == 12 && AllHexCodes(Bare(input))
    ensures NormalizeMac(input).Some? ==> PairsOf(NormalizeMac(input).value, Bare(input))
  {
    var raw := Bare(input);
    DigitsAreBare(input);
    forall i | 0 <= i < |raw|
      ensures IsLowerHex(ToLower(raw)[i]) <==> HexDigitCode(raw[i])
    {
    }
    assert AllLowerHex(ToLower(raw)) <==> AllHexCodes(raw);
    if |raw| == 12 {
      ColonizedPairs(raw);
    }
  }

  /** Digits in groups of `n`, with a separator between the groups. */
  function Spaced(digits: string, n: nat, sep: char): string
    requires n >= 1
  {
    if |digits| <= n then digits else digits[..n] + [sep] + Spaced(digits[n..], n, sep)
  }

  lemma WithoutPiece(a: string, sep: char, rest: string)
    requires sep !in a
    ensures Without(a + [sep] + rest, sep) == a + Without(rest, sep)
  {
    WithoutAppend(a + [sep], rest, sep);
    WithoutAppend(a, [sep], sep);
    WithoutAbsent(a, sep);
    assert Without([sep], sep) == "";
    assert a + "" == a;
  }

  lemma {:induction false} WithoutSpaced(digits: string, n: nat, sep: char)
    requires n >= 1 && sep !in digits
    ensures Without(Spaced(digits, n, sep), sep) == digits
    decreases |digits|
  {
    if |digits| <= n {
      WithoutAbsent(digits, sep);
    } else {
      WithoutSpaced(digits[n..], n, sep);
      WithoutPiece(digits[..n], sep, Spaced(digits[n..], n, sep));
      assert digits[..n] + digits[n..] == digits;
    }
  }

  lemma {:induction false} SpacedEnds(digits: string, n: nat, sep: char)
    requires n >= 1 && digits != ""
    ensures var s := Spaced(digits, n, sep); s != "" && s[0] == digits[0] && s[|s| - 1] == digits[|digits| - 1]
    ensures forall c :: c in Spaced(digits, n, sep) ==> c == sep || c in digits
    decreases |digits|
  {
    if |digits| > n {
      SpacedEnds(digits[n..], n, sep);
    }
  }

  lemma NoSeparators(digits: string, n: nat, sep: char)
    requires n >= 1 && AllHexCodes(digits)
    ensures '-' !in digits && ':' !in digits && '.' !in digits
    ensures digits != "" ==> forall c :: c in Spaced(digits, n, sep) ==> c == sep || HexDigitCode(c)
  {
    if digits != "" {
      SpacedEnds(digits, n, sep);
    }
  }

  lemma BareOfSpaced(digits: string, n: nat, sep: char)
    requires n >= 1 && digits != "" && AllHexCodes(digits) && (sep == ':' || sep == '-' || sep == '.')
    ensures Bare(Spaced(digits, n, sep)) == digits
  {
    var s := Spaced(digits, n, sep);
    NoSeparators(digits, n, sep);
    SpacedEnds(digits, n, sep);
    WithoutSpaced(digits, n, sep);
    assert Trimmed(s);
    TrimmedUnchanged(s);
    WithoutAbsent(digits, '-');
    WithoutAbsent(digits, ':');
    WithoutAbsent(digits, '.');
    if sep != '-' {
      WithoutAbsent(s, '-');
    }
    if sep == '.' {
      WithoutAbsent(s, ':');
    }
  }

  /** Twelve digits of either case, in groups of any size set off by colons, hyphens or dots, are accepted, to one form. */
  lemma EveryNotationAccepted(digits: string, n: nat, sep: char)
    requires |digits| == 12 && AllHexCodes(digits) && n >= 1 && (sep == ':' || sep == '-' || sep == '.')
    ensures NormalizeMac(Spaced(digits, n, sep)).Some?
    ensures PairsOf(NormalizeMac(Spaced(digits, n, sep)).value, digits)
  {
    BareOfSpaced(digits, n, sep);
    NormalizeMacIff(Spaced(digits, n, sep));
  }

  // ---------- Host names ----------

  predicate HostChar(c: char) {
    'a' <= c <= 'z' || '0' <= c <= '9' || c == '-' || c == '.'
  }

  function Keep(s: string): string {
    if s == "" then "" else Keep(s[..|s| - 1]) + if HostChar(s[|s| - 1]) then [s[|s| - 1]] else ""
  }

  function SanitizeHostname(input: string): string {
    Keep(ToLower(TrimSpace(input)))
  }

  method SanitizeHostnameLoop(input: string) returns (r: string)
    ensures r == SanitizeHostname(input)
  {
    var s := ToLower(TrimSpace(input));
    r := "";
    for k := 0 to |s|
      invariant r == Keep(s[..k])
    {
      assert s[..k + 1][..k] == s[..k];
      if HostChar(s[k]) {
        r := r + [s[k]];
      }
    }
    assert s[..|s|] == s;
  }

  predicate AllHostChars(s: string) {
    forall i :: 0 <= i < |s| ==> HostChar(s[i])
  }

  lemma {:induction false} KeepFacts(s: string)
    ensures AllHostChars(Keep(s))
    ensures AllHostChars(s) ==> Keep(s) == s
  {
    if s != "" {
      KeepFacts(s[..|s| - 1]);
      assert s == s[..|s| - 1] + [s[|s| - 1]];
    }
  }

  lemma HostTextUnchanged(h: string)
    requires AllHostChars(h)
    ensures SanitizeHostname(h) == h
  {
    assert Trimmed(h);
    TrimmedUnchanged(h);
    LowerUnchanged(h);
    KeepFacts(h);
  }

  /** Sanitizing is a projection: its results contain only host characters and are left alone. */
  lemma SanitizeIdempotent(input: string)
    ensures AllHostChars(SanitizeHostname(input))
    ensures SanitizeHostname(SanitizeHostname(input)) == SanitizeHostname(input)
  {
    KeepFacts(ToLower(TrimSpace(input)));
    HostTextUnchanged(SanitizeHostname(input));
  }

  /** The allowed characters: a to z, 0 to 9, hyphen and dot. */
  predicate AllowedCode(c: char) {
    97 <= c as int <= 122 || 48 <= c as int <= 57 || c as int == 45 || c as int == 46
  }

  lemma AllowedIsHostChar(c: char)
    ensures HostChar(c) <==> AllowedCode(c)
  {
  }

  lemma KeepNext(s: string, n: nat)
    requires n < |s|
    ensures Keep(s[..n + 1]) == if AllowedCode(s[n]) then Keep(s[..n]) + [s[n]] else Keep(s[..n])
  {
    AllowedIsHostChar(s[n]);
    assert s[..n + 1][..n] == s[..n];
  }

  lemma AllowedNext(s: string, n: nat, front: seq<nat>, at: seq<nat>)
    requires n < |s| && forall i: nat :: i in front <==> i < n && AllowedCode(s[i])
    requires at == if AllowedCode(s[n]) then front + [n] else front
    ensures forall i: nat :: i in at <==> i < n + 1 && AllowedCode(s[i])
  {
    assert forall i: nat :: i in at <==> i in front || (i == n && AllowedCode(s[n]));
  }

  /** `text` is made of the characters of `s` at these places, from left to right. */
  predicate PickedAt(text: string, s: string, at: seq<nat>) {
    && |at| == |text| && (forall k :: 0 <= k < |at| ==> at[k] < |s| && s[at[k]] == text[k])
    && (forall j, k :: 0 <= j < k < |at| ==> at[j] < at[k])
  }

  lemma PickedNext(text: string, s: string, front: seq<nat>, m: nat)
    requires PickedAt(text, s, front) && m < |s| && forall k :: 0 <= k < |front| ==> front[k] < m
    ensures PickedAt(text + [s[m]], s, front + [m])
  {
  }

  /** Where the kept characters stand: exactly at the allowed ones, in order. */
  lemma {:induction false} KeptPositions(s: string, n: nat) returns (at: seq<nat>)
    requires n <= |s|
    ensures PickedAt(Keep(s[..n]), s, at)
    ensures forall i: nat :: i in at <==> i < n && AllowedCode(s[i])
  {
    at := [];
    if n > 0 {
      var m: nat := n - 1;
      var front := KeptPositions(s, m);
      KeepNext(s, m);
      if AllowedCode(s[m]) {
        at := front + [m];
        assert forall k :: 0 <= k < |front| ==> front[k] in front;
        PickedNext(Keep(s[..m]), s, front, m);
      } else {
        at := front;
      }
      AllowedNext(s, m, front, at);
    }
  }

  /** Case makes no difference to a sanitised host name, and a name that is fine but for its case comes out lower-cased. */
  lemma SanitizeLowers(input: string)
    ensures SanitizeHostname(ToLower(input)) == SanitizeHostname(input)
    ensures AllHostChars(ToLower(input)) ==> SanitizeHostname(input) == ToLower(input)
  {
    LowerTrim(input);
    LowerTwice(TrimSpace(input));
    if AllHostChars(ToLower(input)) {
      HostTextUnchanged(ToLower(input));
    }
  }

  /** Of the trimmed, lower-cased name exactly the allowed characters are kept, in order. */
  lemma SanitizeKeeps(input: string) returns (at: seq<nat>)
    ensures PickedAt(SanitizeHostname(input), ToLower(TrimSpace(input)), at)
    ensures forall i: nat :: i in at <==> i < |TrimSpace(input)| && AllowedCode(ToLower(TrimSpace(input))[i])
  {
    var s := ToLower(TrimSpace(input));
    assert s[..|s|] == s;
    at := KeptPositions(s, |s|);
  }
}
