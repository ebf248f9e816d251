/** Bech32 strings (src/age_plugin.c): encoding bytes under a human-readable prefix, and decoding. */
module Bech32Text {
  import opened Bech32
  import opened BitGroups
  import opened Charset
  import opened Common

  // ---------------------------------------------------------------------------
  // Characters and symbols
  // ---------------------------------------------------------------------------

  const CHARSET: string := "qpzry9x8gf2tvdw0s3jn54khce6mua7l"

  /** The value of a character of the alphabet. */
  function Rank(c: char): nat
  {
    if c == 'q' then 0
    else if c == 'p' then 1
    else if c == 'z' then 2
    else if c == 'r' then 3
    else if c == 'y' then 4
    else if c == '9' then 5
    else if c == 'x' then 6
    else if c == '8' then 7
    else if c == 'g' then 8
    else if c == 'f' then 9
    else if c == '2' then 10
    else if c == 't' then 11
    else if c == 'v' then 12
    else if c == 'd' then 13
    else if c == 'w' then 14
    else if c == '0' then 15
    else if c == 's' then 16
    else if c == '3' then 17
    else if c == 'j' then 18
    else if c == 'n' then 19
    else if c == '5' then 20
    else if c == '4' then 21
    else if c == 'k' then 22
    else if c == 'h' then 23
    else if c == 'c' then 24
    else if c == 'e' then 25
    else if c == '6' then 26
    else if c == 'm' then 27
    else if c == 'u' then 28
    else if c == 'a' then 29
    else if c == '7' then 30
    else if c == 'l' then 31
    else 32
  }

  lemma RankLow(i: nat)
    requires i < 16
    ensures Rank(CHARSET[i]) == i
  {
    assert i == 0 || i == 1 || i == 2 || i == 3 || i == 4 || i == 5 || i == 6 || i == 7
        || i == 8 || i == 9 || i == 10 || i == 11 || i == 12 || i == 13 || i == 14 || i == 15;
  }

  lemma RankHigh(i: nat)
    requires 16 <= i < 32
    ensures Rank(CHARSET[i]) == i
  {
    assert i == 16 || i == 17 || i == 18 || i == 19 || i == 20 || i == 21 || i == 22 || i == 23
        || i == 24 || i == 25 || i == 26 || i == 27 || i == 28 || i == 29 || i == 30 || i == 31;
  }

  /** The 32 characters are distinct, printable, not upper case, and none is the separator. */
  lemma Alphabet(i: nat)
    requires i < 32
    ensures |CHARSET| == 32 && IndexIn(CHARSET, CHARSET[i]) == Some(i)
    ensures CHARSET[i] != '1' && 33 <= CHARSET[i] as nat <= 126 && !('A' <= CHARSET[i] <= 'Z')
  {
    hide IndexIn;
    if i < 16 {
      RankLow(i);
    } else {
      RankHigh(i);
    }
    var k := IndexIn(CHARSET, CHARSET[i]).value;
    if k < 16 {
      RankLow(k);
    } else {
      RankHigh(k);
    }
    hide Rank;
  }

  lemma AlphabetDistinct()
    ensures |CHARSET| == Pow2(5) && Distinct(CHARSET)
  {
    hide IndexIn, Rank, Pow2;
    Pow32();
    forall i | 0 <= i < |CHARSET|
      ensures IndexIn(CHARSET, CHARSET[i]) == Some(i)
    {
      Alphabet(i);
    }
  }

  /** A 5-bit number as a checksum symbol, and back. */
  function Sym(n: nat): bv32
    requires n < 256
  {
    ToByte(n) as bv32
  }

  function Digit(x: bv32): nat
    requires x < 32
  {
    (x as bv8) as nat
  }

  lemma SymDigit(x: bv32)
    requires x < 32
    ensures Digit(x) < 32 && Sym(Digit(x)) == x
  {
    SameByte(x as bv8, x as bv8);
    hide ToByte;
  }

  lemma SymSmall(n: nat)
    requires n < 32
    ensures Sym(n) < 32 && Digit(Sym(n)) == n
  {
    hide ToByte;
  }

  // ---------------------------------------------------------------------------
  // Encoding
  // ---------------------------------------------------------------------------

  predicate Printable(s: string)
  {
    forall i :: 0 <= i < |s| ==> 33 <= s[i] as nat <= 126
  }

  /** Seven-bit characters: what a prefix may hold whatever the sign of char. */
  predicate Ascii(s: string)
  {
    forall i :: 0 <= i < |s| ==> 1 <= s[i] as nat <= 127
  }

  predicate HasLower(s: string)
  {
    exists i :: 0 <= i < |s| && 'a' <= s[i] <= 'z'
  }

  predicate HasUpper(s: string)
  {
    exists i :: 0 <= i < |s| && 'A' <= s[i] <= 'Z'
  }

  function Syms(d: seq<nat>): (v: seq<bv32>)
    requires Below(d, 5)
    ensures |v| == |d|
  {
    Pow32();
    seq(|d|, i requires 0 <= i < |d| => Sym(d[i]))
  }

  /** The prefix's high bits, a zero, its low bits: what the checksum covers before the data. */
  function Expand(hrp: string): (v: seq<bv32>)
    requires Ascii(hrp)
  {
    seq(|hrp|, i requires 0 <= i < |hrp| => Sym(hrp[i] as nat / 32))
    + [0]
    + seq(|hrp|, i requires 0 <= i < |hrp| => Sym(hrp[i] as nat % 32))
  }

  function Chars(d: seq<nat>): (s: string)
    requires Below(d, 5)
    ensures |s| == |d|
  {
    Pow32();
    CharsIn(CHARSET, 5, d)
  }

  function Digits(c: seq<bv32>): (d: seq<nat>)
    requires Symbols(c)
    ensures |d| == |c| && Below(d, 5)
  {
    seq(|c|, i requires 0 <= i < |c| => Digit(c[i]))
  }

  lemma SymsAreSymbols(d: seq<nat>)
    requires Below(d, 5)
    ensures Symbols(Syms(d)) && Digits(Syms(d)) == d
  {
    hide Sym, Digit, Pow2;
    Pow32();
    forall i | 0 <= i < |d|
      ensures Sym(d[i]) < 32 && Digit(Sym(d[i])) == d[i]
    {
      SymSmall(d[i]);
    }
  }

  lemma ExpandAt(hrp: string, i: nat)
    requires Printable(hrp) && Ascii(hrp) && i < |hrp|
    ensures |Expand(hrp)| == 2 * |hrp| + 1
    ensures Digit(Expand(hrp)[i]) != 0
    ensures 32 * Digit(Expand(hrp)[i]) + Digit(Expand(hrp)[|hrp| + 1 + i]) == hrp[i] as nat
  {
    hide Sym, Digit;
    SymSmall(hrp[i] as nat / 32);
    SymSmall(hrp[i] as nat % 32);
  }

  lemma ExpandEnds(hrp: string)
    requires Ascii(hrp)
    ensures |Expand(hrp)| == 2 * |hrp| + 1 && Digit(Expand(hrp)[|hrp|]) == 0
  {
    hide Sym;
  }

  lemma LongerDiffers(hrp: string, v: seq<bv32>, hrp': string, v': seq<bv32>)
    requires Printable(hrp) && Printable(hrp') && Ascii(hrp) && Ascii(hrp') && |hrp| < |hrp'|
    ensures Expand(hrp) + v != Expand(hrp') + v'
  {
    hide Expand, Digit, Printable;
    ExpandEnds(hrp);
    ExpandEnds(hrp');
    ExpandAt(hrp', |hrp|);
    assert (Expand(hrp) + v)[|hrp|] != (Expand(hrp') + v')[|hrp|];
  }

  /** The checksum covers prefix and data apart: the zero between the prefix's halves ends its first half. */
  lemma PrefixSeparated(hrp: string, d: seq<nat>, hrp': string, d': seq<nat>)
    requires Printable(hrp) && Printable(hrp') && Ascii(hrp) && Ascii(hrp') && Below(d, 5) && Below(d', 5)
    requires Expand(hrp) + Syms(d) == Expand(hrp') + Syms(d')
    ensures hrp == hrp' && d == d'
  {
    hide Expand, Syms, Digit, Digits, Below, Printable;
    if |hrp| < |hrp'| {
      LongerDiffers(hrp, Syms(d), hrp', Syms(d'));
    } else if |hrp'| < |hrp| {
      LongerDiffers(hrp', Syms(d'), hrp, Syms(d));
    } else {
      SameParts(hrp, Syms(d), hrp', Syms(d'));
      SymsAreSymbols(d);
      SymsAreSymbols(d');
    }
  }

  lemma SameParts(hrp: string, v: seq<bv32>, hrp': string, v': seq<bv32>)
    requires Printable(hrp) && Printable(hrp') && Ascii(hrp) && Ascii(hrp') && |hrp| == |hrp'|
    requires Expand(hrp) + v == Expand(hrp') + v'
    ensures hrp == hrp' && v == v'
  {
    hide Expand, Digit, Printable;
    ExpandEnds(hrp);
    ExpandEnds(hrp');
    var both := Expand(hrp) + v;
    var n := 2 * |hrp| + 1;
    assert Expand(hrp) == both[..n] == Expand(hrp') && v == both[n..] == v';
    forall i | 0 <= i < |hrp|
      ensures hrp[i] == hrp'[i]
    {
      ExpandAt(hrp, i);
      ExpandAt(hrp', i);
    }
  }

  lemma DigitsBack(c: seq<bv32>)
    requires Symbols(c)
    ensures Syms(Digits(c)) == c
  {
    hide Sym, Digit, Pow2;
    forall i | 0 <= i < |c|
      ensures Digit(c[i]) < 32 && Sym(Digit(c[i])) == c[i]
    {
      SymDigit(c[i]);
    }
  }

  lemma ExpandSymbols(hrp: string)
    requires Ascii(hrp)
    ensures Symbols(Expand(hrp))
  {
    hide Sym;
    forall i | 0 <= i < |hrp|
      ensures Sym(hrp[i] as nat / 32) < 32 && Sym(hrp[i] as nat % 32) < 32
    {
      SymSmall(hrp[i] as nat / 32);
      SymSmall(hrp[i] as nat % 32);
    }
  }

  /** The digits of the checksum for a prefix and data. */
  function ChecksumDigits(hrp: string, d: seq<nat>): (c: seq<nat>)
    requires Ascii(hrp) && Below(d, 5)
    ensures |c| == 6 && Below(c, 5)
  {
    ExpandSymbols(hrp);
    SymsAreSymbols(d);
    ChecksumIff(Expand(hrp) + Syms(d), ZEROS);
    Digits(Checksum(Expand(hrp) + Syms(d)))
  }

  /** The text for 5-bit data. */
  function TextOf(hrp: string, d: seq<nat>): string
    requires Ascii(hrp) && Below(d, 5)
  {
    hrp + "1" + Chars(d) + Chars(ChecksumDigits(hrp, d))
  }

  /** bech32_encode. */
  function Encode(hrp: string, data: seq<nat>, cap: nat): Option<string>
    requires Ascii(hrp) && Below(data, 8)
  {
    PaddedGroups(data, 5);
    var d := Regroup(data, 8, 5, true).value;
    if |hrp| + 1 + |d| + 6 + 1 <= cap then Some(TextOf(hrp, d)) else None
  }

  // ---------------------------------------------------------------------------
  // Decoding
  // ---------------------------------------------------------------------------

  function LowerChar(c: char): char
  {
    if 'A' <= c <= 'Z' then (c as int - 'A' as int + 'a' as int) as char else c
  }

  function Lower(s: string): (r: string)
    ensures |r| == |s|
  {
    seq(|s|, i requires 0 <= i < |s| => LowerChar(s[i]))
  }

  /** strrchr: the last place of a character. */
  function LastIn(s: string, c: char): (i: Option<nat>)
    ensures i.Some? ==> i.value < |s| && s[i.value] == c && forall k :: i.value < k < |s| ==> s[k] != c
    ensures i.None? ==> forall k :: 0 <= k < |s| ==> s[k] != c
  {
    if |s| == 0 then None
    else if s[|s| - 1] == c then Some(|s| - 1)
    else LastIn(s[..|s| - 1], c)
  }

  function Values(s: string): (d: Option<seq<nat>>)
    ensures d.Some? ==> |d.value| == |s| && Below(d.value, 5)
  {
    Pow32();
    ValuesIn(CHARSET, 5, s)
  }

  /** bech32_decode: the prefix in lower case and the bytes. */
  function Decode(s: string, hrpCap: nat, dataCap: nat): Option<(string, seq<nat>)>
  {
    if |s| < 8 || !Printable(s) || (HasLower(s) && HasUpper(s)) then None
    else
      var low := Lower(s);
      LowerPrintable(s);
      match LastIn(low, '1')
      case None => None
      case Some(sep) =>
        if sep == 0 || sep + 7 > |s| || sep >= hrpCap then None
        else DecodeParts(low[..sep], low[sep + 1..], dataCap)
  }

  lemma LowerPrintable(s: string)
    requires Printable(s)
    ensures Printable(Lower(s))
  {
  }

  function DecodeParts(hrp: string, tail: string, dataCap: nat): Option<(string, seq<nat>)>
    requires |tail| >= 6 && Ascii(hrp)
  {
    match Values(tail)
    case None => None
    case Some(d) =>
      if Polymod(Expand(hrp) + Syms(d)) != 1 then None
      else match Regroup(d[..|d| - 6], 5, 8, false)
        case None => None
        case Some(data) => if |data| <= dataCap then Some((hrp, data)) else None
  }

  // ---------------------------------------------------------------------------
  // Round trips
  // ---------------------------------------------------------------------------

  lemma CharsNoSeparator(d: seq<nat>)
    requires Below(d, 5)
    ensures forall i :: 0 <= i < |d| ==>
      Chars(d)[i] != '1' && 33 <= Chars(d)[i] as nat <= 126 && !('A' <= Chars(d)[i] <= 'Z')
  {
    hide IndexIn, Pow2;
    Pow32();
    forall i | 0 <= i < |d|
      ensures CHARSET[d[i]] != '1' && 33 <= CHARSET[d[i]] as nat <= 126 && !('A' <= CHARSET[d[i]] <= 'Z')
    {
      Alphabet(d[i]);
    }
  }

  lemma LastIs(s: string, c: char, i: nat)
    requires i < |s| && s[i] == c && forall k :: i < k < |s| ==> s[k] != c
    ensures LastIn(s, c) == Some(i)
  {
    hide LastIn;
  }

  lemma BelowJoined(a: seq<nat>, b: seq<nat>)
    requires Below(a, 5) && Below(b, 5)
    ensures Below(a + b, 5) && Chars(a + b) == Chars(a) + Chars(b) && Syms(a + b) == Syms(a) + Syms(b)
  {
    hide Sym, Pow2;
  }

  /** The checksum of the encoded symbols is 1, and only the encoder's six symbols make it so. */
  lemma ChecksumDigitsIff(hrp: string, d: seq<nat>, c: seq<nat>)
    requires Ascii(hrp) && Below(d, 5) && |c| == 6 && Below(c, 5)
    ensures Below(d + c, 5)
    ensures Polymod(Expand(hrp) + Syms(d + c)) == 1 <==> c == ChecksumDigits(hrp, d)
  {
    hide Polymod, Expand, Syms, Digits, Checksum, Symbols, Pow2, Below;
    BelowJoined(d, c);
    ExpandSymbols(hrp);
    SymsAreSymbols(d);
    SymsAreSymbols(c);
    var vs := Expand(hrp) + Syms(d);
    SymbolsJoined(Expand(hrp), Syms(d));
    ChecksumIff(vs, Syms(c));
    assert Expand(hrp) + Syms(d + c) == vs + Syms(c);
    DigitsBack(Checksum(vs));
    ChecksumDigitsAre(hrp, d);
  }

  lemma SymbolsJoined(a: seq<bv32>, b: seq<bv32>)
    requires Symbols(a) && Symbols(b)
    ensures Symbols(a + b)
  {
  }

  lemma ChecksumDigitsAre(hrp: string, d: seq<nat>)
    requires Ascii(hrp) && Below(d, 5)
    ensures Symbols(Checksum(Expand(hrp) + Syms(d)))
    ensures ChecksumDigits(hrp, d) == Digits(Checksum(Expand(hrp) + Syms(d)))
  {
    hide Expand, Syms, Digits, Checksum, Symbols, Pow2, Below, Polymod;
    ExpandSymbols(hrp);
    SymsAreSymbols(d);
    SymbolsJoined(Expand(hrp), Syms(d));
    ZerosAreSymbols();
    ChecksumIff(Expand(hrp) + Syms(d), ZEROS);
  }

  /** A prefix bech32_encode may be given: printable, not empty, not upper case. */
  predicate PrefixOk(hrp: string)
  {
    |hrp| > 0 && Printable(hrp) && !HasUpper(hrp)
  }

  /** Where the parts of an encoded text are, whatever characters the prefix has. */
  lemma TextParts(hrp: string, d: seq<nat>)
    requires PrefixOk(hrp) && Below(d, 5)
    ensures var t := TextOf(hrp, d);
      && |t| == |hrp| + 1 + |d| + 6 && Printable(t) && !HasUpper(t)
      && LastIn(t, '1') == Some(|hrp|)
      && t[..|hrp|] == hrp && t[|hrp| + 1..] == Chars(d) + Chars(ChecksumDigits(hrp, d))
  {
    hide Chars, ChecksumDigits, LastIn, Below;
    var c := ChecksumDigits(hrp, d);
    CharsNoSeparator(d);
    CharsNoSeparator(c);
    var t := TextOf(hrp, d);
    assert t == hrp + "1" + (Chars(d) + Chars(c));
    assert forall k :: |hrp| < k < |hrp| + 1 + |d| ==> t[k] == Chars(d)[k - |hrp| - 1];
    assert forall k :: |hrp| + 1 + |d| <= k < |t| ==> t[k] == Chars(c)[k - |hrp| - 1 - |d|];
    assert forall k :: 0 <= k < |hrp| ==> t[k] == hrp[k];
    LastIs(t, '1', |hrp|);
  }

  lemma PartsDecode(hrp: string, data: seq<nat>, cap: nat)
    requires Ascii(hrp) && Below(data, 8) && |data| <= cap
    ensures Regroup(data, 8, 5, true).Some? && Below(Regroup(data, 8, 5, true).value, 5)
    ensures var d := Regroup(data, 8, 5, true).value;
      DecodeParts(hrp, Chars(d) + Chars(ChecksumDigits(hrp, d)), cap) == Some((hrp, data))
  {
    hide CharsIn, ChecksumDigits, Regroup, Polymod, Expand, Syms, ValuesIn, Below;
    RegroupRoundTrip(data, 5);
    var d := Regroup(data, 8, 5, true).value;
    var c := ChecksumDigits(hrp, d);
    BelowJoined(d, c);
    AlphabetDistinct();
    ValuesOfChars(CHARSET, 5, d + c);
    ChecksumDigitsIff(hrp, d, c);
    assert (d + c)[..|d + c| - 6] == d;
  }

  /** Decoding an encoded text gives the prefix and the bytes, even when the prefix contains the
      separator, and so does decoding it in upper case. */
  lemma DecodeEncode(hrp: string, data: seq<nat>, cap: nat, s: string, hrpCap: nat, dataCap: nat)
    requires PrefixOk(hrp) && Below(data, 8) && Encode(hrp, data, cap).Some?
    requires Lower(s) == Encode(hrp, data, cap).value && !(HasLower(s) && HasUpper(s))
    requires |hrp| < hrpCap && |data| <= dataCap
    ensures Decode(s, hrpCap, dataCap) == Some((hrp, data))
  {
    hide TextOf, Regroup, DecodeParts, LastIn, HasLower, HasUpper, Below, Lower;
    RegroupRoundTrip(data, 5);
    var d := Regroup(data, 8, 5, true).value;
    TextParts(hrp, d);
    PartsDecode(hrp, data, dataCap);
    UpperPrintable(s);
  }

  lemma UpperPrintable(s: string)
    requires Printable(Lower(s))
    ensures Printable(s)
  {
    forall i | 0 <= i < |s|
      ensures 33 <= s[i] as nat <= 126
    {
      assert 33 <= Lower(s)[i] as nat <= 126;
    }
  }

  lemma AlreadyLower(s: string)
    requires !HasUpper(s)
    ensures Lower(s) == s
  {
    forall i | 0 <= i < |s|
      ensures LowerChar(s[i]) == s[i]
    {
    }
  }

  lemma PartsCanonical(hrp: string, tail: string, cap: nat)
    requires Ascii(hrp) && |tail| >= 6 && DecodeParts(hrp, tail, cap).Some?
    ensures var data := DecodeParts(hrp, tail, cap).value.1;
      && Below(data, 8) && Regroup(data, 8, 5, true).Some? && Below(Regroup(data, 8, 5, true).value, 5)
      && TextOf(hrp, Regroup(data, 8, 5, true).value) == hrp + "1" + tail
  {
    hide CharsIn, ChecksumDigits, Regroup, Polymod, Expand, Syms, ValuesIn, Below;
    var v := Values(tail).value;
    Pow32();
    CharsOfValues(CHARSET, 5, tail);
    var d, c := v[..|v| - 6], v[|v| - 6..];
    assert v == d + c;
    BelowParts(v, |v| - 6);
    ChecksumDigitsIff(hrp, d, c);
    RegroupCanonical(d, 5);
    BelowJoined(d, c);
  }

  lemma BelowParts(v: seq<nat>, n: nat)
    requires Below(v, 5) && n <= |v|
    ensures Below(v[..n], 5) && Below(v[n..], 5)
  {
    hide Pow2;
  }

  /** The encoding is canonical: whatever is accepted re-encodes to its own lower-case form. */
  lemma Canonical(s: string, hrpCap: nat, dataCap: nat, cap: nat)
    requires Decode(s, hrpCap, dataCap).Some? && |s| < cap
    ensures var (hrp, data) := Decode(s, hrpCap, dataCap).value;
      PrefixOk(hrp) && Below(data, 8) && Encode(hrp, data, cap) == Some(Lower(s))
  {
    hide TextOf, Regroup, DecodeParts, LastIn, Below;
    var low := Lower(s);
    LowerPrintable(s);
    var sep := LastIn(low, '1').value;
    assert low == low[..sep] + "1" + low[sep + 1..];
    PartsCanonical(low[..sep], low[sep + 1..], dataCap);
    var (hrp, data) := Decode(s, hrpCap, dataCap).value;
    DecodedPrefix(low[..sep], low[sep + 1..], dataCap);
    TextParts(hrp, Regroup(data, 8, 5, true).value);
  }

  lemma DecodedPrefix(hrp: string, tail: string, cap: nat)
    requires Ascii(hrp) && |tail| >= 6 && DecodeParts(hrp, tail, cap).Some?
    ensures DecodeParts(hrp, tail, cap).value.0 == hrp
  {
    hide Regroup, Polymod, Expand, Syms, Values, Below;
  }

  /** The encoder's own text decodes to what was encoded exactly if the prefix is printable, not empty
      and not upper case, and prefix and payload fit the decoder's buffers. */
  lemma RoundTripIff(hrp: string, data: seq<nat>, cap: nat, hrpCap: nat, dataCap: nat)
    requires Ascii(hrp) && Below(data, 8) && Encode(hrp, data, cap).Some?
    ensures Decode(Encode(hrp, data, cap).value, hrpCap, dataCap) == Some((hrp, data))
       <==> PrefixOk(hrp) && |hrp| < hrpCap && |data| <= dataCap
  {
    hide TextOf, Regroup, Decode, Below, Lower, Ascii, Printable;
    var t := Encode(hrp, data, cap).value;
    if PrefixOk(hrp) && |hrp| < hrpCap && |data| <= dataCap {
      RegroupRoundTrip(data, 5);
      TextParts(hrp, Regroup(data, 8, 5, true).value);
      AlreadyLower(t);
      DecodeEncode(hrp, data, cap, t, hrpCap, dataCap);
    }
    if Decode(t, hrpCap, dataCap) == Some((hrp, data)) {
      Canonical(t, hrpCap, dataCap, |t| + 1);
      DecodedSizes(t, hrpCap, dataCap);
    }
  }

  lemma DecodedSizes(s: string, hrpCap: nat, dataCap: nat)
    requires Decode(s, hrpCap, dataCap).Some?
    ensures var (hrp, data) := Decode(s, hrpCap, dataCap).value; |hrp| < hrpCap && |data| <= dataCap
  {
    hide Regroup, Polymod, Expand, Syms, Values, Below;
  }

  /** The encoder refuses exactly when the text and its terminator do not fit. */
  lemma CapacityIff(hrp: string, data: seq<nat>, cap: nat)
    requires Ascii(hrp) && Below(data, 8)
    ensures Encode(hrp, data, cap).Some? <==> |hrp| + 1 + (8 * |data| + 4) / 5 + 6 + 1 <= cap
  {
    hide TextOf, Regroup, Below, Spells, AllBits;
    PaddedGroups(data, 5);
  }

  /** No two letters of the text are of different case. */
  ghost predicate OneCase(s: string)
  {
    forall i, j :: 0 <= i < |s| && 0 <= j < |s| ==> !('a' <= s[i] <= 'z' && 'A' <= s[j] <= 'Z')
  }

  /** The whole decoder: a text gives a prefix and bytes exactly if it is of one case, its lower-case form is
      their encoding, the prefix is one the encoder may be given, and both fit. */
  lemma DecodeIff(s: string, hrpCap: nat, dataCap: nat, hrp: string, data: seq<nat>)
    ensures Decode(s, hrpCap, dataCap) == Some((hrp, data)) <==>
      && OneCase(s) && PrefixOk(hrp) && Below(data, 8)
      && Encode(hrp, data, |s| + 1) == Some(Lower(s))
      && |hrp| < hrpCap && |data| <= dataCap
  {
    hide Encode, Lower, Below;
    if Decode(s, hrpCap, dataCap) == Some((hrp, data)) {
      Canonical(s, hrpCap, dataCap, |s| + 1);
      DecodedSizes(s, hrpCap, dataCap);
      DecodedCase(s, hrpCap, dataCap);
    }
    if OneCase(s) && PrefixOk(hrp) && Below(data, 8) && Encode(hrp, data, |s| + 1) == Some(Lower(s)) && |hrp| < hrpCap && |data| <= dataCap {
      DecodeEncode(hrp, data, |s| + 1, s, hrpCap, dataCap);
    }
  }

  lemma DecodedCase(s: string, hrpCap: nat, dataCap: nat)
    requires Decode(s, hrpCap, dataCap).Some?
    ensures OneCase(s)
  {
    hide Regroup, Polymod, Expand, Syms, Values, Below, DecodeParts;
  }
}
