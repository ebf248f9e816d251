/** The loops of src/age_plugin.c that compute the Bech32 functions. */
module Bech32Codec {
  import opened Bech32
  import opened Bech32Text
  import opened BitGroups
  import opened Charset
  import opened Common

  const GENS: seq<bv32> := [0x3b6a57b2, 0x26508e6d, 0x1ea119fa, 0x3d4233dd, 0x2a1462b3]

  /** The first j generator words that the shifted-out bits select. */
  function GenUpTo(top: bv32, j: nat): bv32
    requires j <= 5
  {
    if j == 0 then 0 else Xor(GenUpTo(top, j - 1), if (top >> (j - 1)) & 1 != 0 then GENS[j - 1] else 0)
  }

  lemma GenIs(top: bv32)
    ensures GenUpTo(top, 5) == Gen(top)
  {
    var g1 := GenUpTo(top, 1);
    assert GenUpTo(top, 0) == 0;
    assert g1 == if top & 1 != 0 then 0x3b6a57b2 else 0;
    assert GenUpTo(top, 2) == g1 ^ if top & 2 != 0 then 0x26508e6d else 0;
    assert GenUpTo(top, 3) == GenUpTo(top, 2) ^ if top & 4 != 0 then 0x1ea119fa else 0;
    assert GenUpTo(top, 4) == GenUpTo(top, 3) ^ if top & 8 != 0 then 0x3d4233dd else 0;
    assert GenUpTo(top, 5) == GenUpTo(top, 4) ^ if top & 16 != 0 then 0x2a1462b3 else 0;
  }

  lemma Regroup3(a: bv32, g: bv32, w: bv32)
    ensures Xor(Xor(a, g), w) == Xor(a, Xor(g, w)) && Xor(a, 0) == a
  {
    XorAssoc(a, g, w);
    XorZero(a);
  }

  lemma SelectNone(a: bv32)
    ensures Xor(a, 0) == a
  {
    XorZero(a);
  }

  /** b32_polymod. */
  method ComputePolymod(values: seq<bv32>) returns (chk: bv32)
    ensures chk == Polymod(values)
  {
    hide Xor, Low, Gen, GenUpTo;
    chk := 1;
    var i: nat := 0;
    while i < |values|
      invariant i <= |values| && chk == Feed(1, values[..i])
    {
      assert values[..i + 1][..i] == values[..i];
      var top := chk >> 25;
      ghost var base := Xor(Low(chk), values[i]);
      chk := Folded(chk, values[i]);
      GenNone(top, base);
      var j: nat := 0;
      while j < 5
        invariant j <= 5 && chk == Xor(base, GenUpTo(top, j))
      {
        GenNext(top, j);
        Regroup3(base, GenUpTo(top, j), if (top >> j) & 1 != 0 then GENS[j] else 0);
        if (top >> j) & 1 != 0 {
          chk := Xor(chk, GENS[j]);
        } else {
          SelectNone(chk);
        }
        j := j + 1;
      }
      GenIs(top);
      i := i + 1;
    }
    assert values[..i] == values;
  }

  /** ((chk & 0x1ffffff) << 5) ^ values[i] */
  function Folded(chk: bv32, v: bv32): bv32
  {
    Xor(Low(chk), v)
  }

  lemma GenNone(top: bv32, base: bv32)
    ensures Xor(base, GenUpTo(top, 0)) == base
  {
    XorZero(base);
  }

  lemma GenNext(top: bv32, j: nat)
    requires j < 5
    ensures GenUpTo(top, j + 1) == Xor(GenUpTo(top, j), if (top >> j) & 1 != 0 then GENS[j] else 0)
  {
    hide Xor;
  }

  /** bech32_encode: regroup, checksum, alphabet. */
  method EncodeText(hrp: string, data: seq<nat>, cap: nat) returns (r: Option<string>)
    requires Ascii(hrp) && Below(data, 8)
    ensures r == Encode(hrp, data, cap)
  {
    hide Regroup, Feed, Expand, Syms, Below, Pow2;
    PaddedGroups(data, 5);
    Pow32();
    var groups := Convert(data, 8, 5, true);
    var d := groups.value;
    ChecksumDigitsAre(hrp, d);
    var mod := ComputePolymod(Expand(hrp) + Syms(d) + ZEROS);
    if |hrp| + 1 + |d| + 6 + 1 > cap {
      return None;
    }
    var body := WriteChars(d);
    var sum := WriteChars(Digits(Unpack(Xor(mod, 1))));
    r := Some(hrp + "1" + body + sum);
  }

  method WriteChars(d: seq<nat>) returns (s: string)
    requires Below(d, 5)
    ensures s == Chars(d)
  {
    Pow32();
    s := "";
    var i: nat := 0;
    while i < |d|
      invariant i <= |d| && s == Chars(d)[..i]
    {
      s := s + [CHARSET[d[i]]];
      i := i + 1;
    }
  }

  /** The first pass over a text: printable, and not of mixed case. */
  method CheckCase(s: string) returns (ok: bool)
    ensures ok <==> Printable(s) && !(HasLower(s) && HasUpper(s))
  {
    var lower, upper := false, false;
    var i: nat := 0;
    while i < |s|
      invariant i <= |s|
      invariant forall k :: 0 <= k < i ==> 33 <= s[k] as nat <= 126
      invariant lower <==> exists k :: 0 <= k < i && 'a' <= s[k] <= 'z'
      invariant upper <==> exists k :: 0 <= k < i && 'A' <= s[k] <= 'Z'
    {
      if (s[i] as nat) < 33 || s[i] as nat > 126 {
        return false;
      }
      if 'a' <= s[i] <= 'z' {
        lower := true;
      }
      if 'A' <= s[i] <= 'Z' {
        upper := true;
      }
      i := i + 1;
    }
    ok := !(lower && upper);
  }

  method ToLower(s: string) returns (low: string)
    ensures low == Lower(s)
  {
    low := "";
    var i: nat := 0;
    while i < |s|
      invariant i <= |s| && low == Lower(s)[..i]
    {
      low := low + [LowerChar(s[i])];
      i := i + 1;
    }
  }

  method ReadChars(s: string) returns (d: Option<seq<nat>>)
    ensures d == Values(s)
  {
    hide IndexIn;
    var out: seq<nat> := [];
    var i: nat := 0;
    while i < |s|
      invariant i <= |s| && Values(s[..i]) == Some(out)
    {
      assert s[..i + 1][..i] == s[..i];
      var v := IndexIn(CHARSET, s[i]);
      if v.None? {
        ValuesFail(CHARSET, 5, s, i + 1);
        return None;
      }
      out := out + [v.value];
      i := i + 1;
    }
    assert s[..i] == s;
    d := Some(out);
  }

  /** bech32_decode. */
  method DecodeText(s: string, hrpCap: nat, dataCap: nat) returns (r: Option<(string, seq<nat>)>)
    ensures r == Decode(s, hrpCap, dataCap)
  {
    hide Printable, HasLower, HasUpper, LastIn, Values, Expand, Syms, Regroup, Feed, Below, Pow2;
    if |s| < 8 {
      return None;
    }
    var fine := CheckCase(s);
    if !fine {
      return None;
    }
    var low := ToLower(s);
    LowerPrintable(s);
    var sep := LastIn(low, '1');
    if sep.None? || sep.value == 0 || sep.value + 7 > |s| || sep.value >= hrpCap {
      return None;
    }
    var hrp, tail := low[..sep.value], low[sep.value + 1..];
    PrefixPrintable(low, sep.value);
    var d := ReadChars(tail);
    if d.None? {
      return None;
    }
    var chk := ComputePolymod(Expand(hrp) + Syms(d.value));
    if chk != 1 {
      return None;
    }
    BelowParts(d.value, |d.value| - 6);
    var data := Convert(d.value[..|d.value| - 6], 5, 8, false);
    if data.None? || |data.value| > dataCap {
      return None;
    }
    r := Some((hrp, data.value));
  }

  lemma PrefixPrintable(s: string, n: nat)
    requires Printable(s) && n <= |s|
    ensures Ascii(s[..n])
  {
  }
}
