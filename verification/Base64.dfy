/** The unpadded base64 of src/age_plugin.c: three bytes become four characters, and back. */
module Base64 {
  import opened BitGroups
  import opened Charset
  import opened Common

  const CHARSET: string := "ABCDEFGHIJKLMNOPQRSTUVWXYZ" + "abcdefghijklmnopqrstuvwxyz" + "0123456789+/"

  function Rank(c: char): nat
  {
    if 'A' <= c <= 'Z' then c as nat - 'A' as nat
    else if 'a' <= c <= 'z' then c as nat - 'a' as nat + 26
    else if '0' <= c <= '9' then c as nat - '0' as nat + 52
    else if c == '+' then 62
    else if c == '/' then 63
    else 64
  }

  lemma Rank39(i: nat)
    requires 39 <= i < 52
    ensures Rank(CHARSET[i]) == i
  {
    assert i == 39 || i == 40 || i == 41 || i == 42 || i == 43 || i == 44 || i == 45 || i == 46
        || i == 47 || i == 48 || i == 49 || i == 50 || i == 51;
  }

  lemma Rank52(i: nat)
    requires 52 <= i < 64
    ensures Rank(CHARSET[i]) == i
  {
    assert i == 52 || i == 53 || i == 54 || i == 55 || i == 56 || i == 57 || i == 58 || i == 59
        || i == 60 || i == 61 || i == 62 || i == 63;
  }

  lemma RankOf(i: nat)
    requires i < 64
    ensures |CHARSET| == 64 && Rank(CHARSET[i]) == i
  {
    if i < 13 {
    } else if i < 26 {
    } else if i < 39 {
    } else if i < 52 {
      Rank39(i);
    } else {
      Rank52(i);
    }
  }

  lemma Alphabet(i: nat)
    requires i < 64
    ensures |CHARSET| == 64 && IndexIn(CHARSET, CHARSET[i]) == Some(i)
  {
    hide IndexIn, Rank;
    RankOf(i);
    RankOf(IndexIn(CHARSET, CHARSET[i]).value);
  }

  lemma AlphabetDistinct()
    ensures |CHARSET| == Pow2(6) && Distinct(CHARSET)
  {
    hide IndexIn, Rank, Pow2;
    Pow32();
    forall i | 0 <= i < |CHARSET|
      ensures IndexIn(CHARSET, CHARSET[i]) == Some(i)
    {
      Alphabet(i);
    }
  }

  function Chars(d: seq<nat>): (s: string)
    requires Below(d, 6)
    ensures |s| == |d|
  {
    Pow32();
    CharsIn(CHARSET, 6, d)
  }

  function Values(s: string): (d: Option<seq<nat>>)
    ensures d.Some? ==> |d.value| == |s| && Below(d.value, 6)
  {
    Pow32();
    ValuesIn(CHARSET, 6, s)
  }

  /** b64_encode. */
  function Encode(data: seq<nat>): (s: string)
    requires Below(data, 8)
  {
    PaddedGroups(data, 6);
    Chars(Regroup(data, 8, 6, true).value)
  }

  /** b64_decode: no padding characters, and no set bits beyond the last byte. */
  function Decode(s: string, cap: nat): Option<seq<nat>>
  {
    if |s| % 4 == 1 then None
    else match Values(s)
      case None => None
      case Some(v) =>
        match Regroup(v, 6, 8, false)
        case None => None
        case Some(data) => if |data| <= cap then Some(data) else None
  }

  /** An encoded length is never 1 modulo 4. */
  lemma EncodedLength(data: seq<nat>)
    requires Below(data, 8)
    ensures |Encode(data)| % 4 != 1 && 3 * |Encode(data)| <= 4 * |data| + 2
  {
    hide AllBits, Groups, Pow2, Regroup, Chars;
    PaddedGroups(data, 6);
    var d := Regroup(data, 8, 6, true).value;
    assert |data| * 8 <= |d| * 6 < |data| * 8 + 6;
  }

  /** Decoding what was encoded gives the bytes. */
  lemma RoundTrip(data: seq<nat>, cap: nat)
    requires Below(data, 8) && |data| <= cap
    ensures Decode(Encode(data), cap) == Some(data)
  {
    hide Regroup, CharsIn, ValuesIn;
    RegroupRoundTrip(data, 6);
    EncodedLength(data);
    AlphabetDistinct();
    ValuesOfChars(CHARSET, 6, Regroup(data, 8, 6, true).value);
  }

  /** Only canonical text is accepted: what decodes is the encoding of its bytes. */
  lemma Canonical(s: string, cap: nat)
    requires Decode(s, cap).Some?
    ensures Below(Decode(s, cap).value, 8) && Encode(Decode(s, cap).value) == s
  {
    hide Regroup, CharsIn, ValuesIn;
    Pow32();
    CharsOfValues(CHARSET, 6, s);
    RegroupCanonical(Values(s).value, 6);
  }

  // ---------------------------------------------------------------------------
  // The loops
  // ---------------------------------------------------------------------------

  /** ((a << 16) | (b << 8) | c) */
  function Join(a: nat, b: nat, c: nat): nat
  {
    ShiftLeft(ShiftLeft(a, 8) + b, 8) + c
  }

  lemma JoinBits(a: nat, b: nat, c: nat)
    requires b < Pow2(8) && c < Pow2(8)
    ensures Bits(Join(a, b, c), 24) == Bits(a, 8) + Bits(b, 8) + Bits(c, 8)
  {
    hide Bits, Pow2, ShiftLeft;
    BitsOr(a, 8, b, 8);
    BitsOr(ShiftLeft(a, 8) + b, 16, c, 8);
  }

  /** The k-th group of six bits of a 24-bit word, as a shift and a mask. */
  function Sextet(v: nat, k: nat): nat
    requires k < 4
  {
    Mask(Shift(v, 18 - 6 * k), 6)
  }

  /** Emits the first n sextets of the word. */
  lemma EmitSextets(all: seq<bool>, out: seq<nat>, v: nat, n: nat) returns (more: seq<nat>)
    requires n <= 4 && Below(out, 6) && all == AllBits(out, 6) + Bits(v, 24)
    ensures |more| == n && (forall k :: 0 <= k < n ==> more[k] == Sextet(v, k))
    ensures Below(out + more, 6) && all == AllBits(out + more, 6) + Bits(v, 24 - 6 * n)
  {
    hide Bits, Pow2, AllBits, Mask, Shift;
    more := [];
    assert out + [] == out;
    var k: nat := 0;
    while k < n
      invariant k <= n && |more| == k && forall j :: 0 <= j < k ==> more[j] == Sextet(v, j)
      invariant Below(out + more, 6) && all == AllBits(out + more, 6) + Bits(v, 24 - 6 * k)
    {
      EmitGroup(all, out + more, v, 24 - 6 * k, 6);
      assert out + more + [Sextet(v, k)] == out + (more + [Sextet(v, k)]);
      more := more + [Sextet(v, k)];
      k := k + 1;
    }
  }

  lemma SextetBelow(v: nat, k: nat)
    requires k < 4
    ensures Sextet(v, k) < 64
  {
    hide Mask;
    Pow32();
  }

  /** The first n characters for a 24-bit word. */
  method EmitChars(v: nat, n: nat) returns (s: string)
    requires n <= 4
    ensures |s| == n && forall k :: 0 <= k < n ==> Sextet(v, k) < 64 && s[k] == CHARSET[Sextet(v, k)]
  {
    hide Sextet;
    s := "";
    var k: nat := 0;
    while k < n
      invariant k <= n && |s| == k
      invariant forall j :: 0 <= j < k ==> Sextet(v, j) < 64 && s[j] == CHARSET[Sextet(v, j)]
    {
      SextetBelow(v, k);
      s := s + [CHARSET[Sextet(v, k)]];
      k := k + 1;
    }
  }

  lemma CharsJoined(d: seq<nat>, more: seq<nat>, s: string)
    requires Below(d + more, 6) && Below(d, 6) && |s| == |more|
    requires forall k :: 0 <= k < |s| ==> more[k] < 64 && s[k] == CHARSET[more[k]]
    ensures Chars(d + more) == Chars(d) + s
  {
  }

  lemma ThreeMore(data: seq<nat>, i: nat)
    requires i + 3 <= |data|
    ensures AllBits(data[..i + 3], 8) == AllBits(data[..i], 8) + (Bits(data[i], 8) + Bits(data[i + 1], 8) + Bits(data[i + 2], 8))
  {
    hide Bits;
    AllBitsAppend(data[..i], data[i], 8);
    AllBitsAppend(data[..i + 1], data[i + 1], 8);
    AllBitsAppend(data[..i + 2], data[i + 2], 8);
    assert data[..i + 1] == data[..i] + [data[i]] && data[..i + 2] == data[..i + 1] + [data[i + 1]];
    assert data[..i + 3] == data[..i + 2] + [data[i + 2]];
  }

  /** One or two last bytes, with zeros for the missing ones: the sextets that carry bits complete the
      data, and only zeros are dropped. */
  lemma TailBits(data: seq<nat>, i: nat, d: seq<nat>, more: seq<nat>)
    requires Below(data, 8) && i <= |data| && |data| - i in {1, 2} && AllBits(data[..i], 8) == AllBits(d, 6)
    requires |more| == |data| - i + 1 && Below(d + more, 6)
    requires var b := if i + 1 < |data| then data[i + 1] else 0;
      AllBits(data[..i], 8) + Bits(Join(data[i], b, 0), 24)
      == AllBits(d + more, 6) + Bits(Join(data[i], b, 0), 24 - 6 * |more|)
    ensures Regroup(data, 8, 6, true) == Some(d + more)
  {
    hide Bits, Pow2, AllBits, ShiftLeft, Below, Join;
    var b := if i + 1 < |data| then data[i + 1] else 0;
    Pow2AtLeastOne(8);
    ByteOf(data, i);
    JoinBits(data[i], b, 0);
    ZeroBits(8);
    AllBitsAppend(data[..i], data[i], 8);
    assert data[..i + 1] == data[..i] + [data[i]];
    if i + 1 < |data| {
      AllBitsAppend(data[..i + 1], data[i + 1], 8);
      assert data == data[..i + 1] + [data[i + 1]];
    } else {
      assert data == data[..i + 1];
    }
    var all := AllBits(data, 8);
    var zeros := |d + more| * 6 - |all|;
    var whole := AllBits(data[..i], 8) + Bits(Join(data[i], b, 0), 24);
    assert whole == all + Falses(|whole| - |all|);
    assert AllBits(d + more, 6) == whole[..|d + more| * 6];
    assert whole[..|d + more| * 6] == all + Falses(zeros);
    RegroupedIs(data, 8, 6, true, Some(d + more));
  }

  lemma ByteOf(data: seq<nat>, i: nat)
    requires Below(data, 8)
    ensures forall k :: 0 <= k < |data| ==> data[k] < Pow2(8)
  {
  }

  lemma WholeEncoded(data: seq<nat>, d: seq<nat>)
    requires Below(data, 8) && Below(d, 6) && AllBits(data, 8) == AllBits(d, 6)
    ensures Regroup(data, 8, 6, true) == Some(d)
  {
    hide Bits, Pow2, AllBits, Below;
    assert AllBits(data, 8) + Falses(0) == AllBits(data, 8);
    RegroupedIs(data, 8, 6, true, Some(d));
  }

  /** b64_encode: groups of three, then the rest. */
  method EncodeText(data: seq<nat>) returns (s: string)
    requires Below(data, 8)
    ensures s == Encode(data)
  {
    hide Bits, Pow2, AllBits, Below, Chars, Regroup, Join, Sextet;
    PaddedGroups(data, 6);
    ByteOf(data, 0);
    s := "";
    var i: nat := 0;
    ghost var d: seq<nat> := [];
    Nothing(data);
    while i + 3 <= |data|
      invariant i <= |data| && Below(d, 6) && s == Chars(d) && AllBits(data[..i], 8) == AllBits(d, 6)
    {
      var v := Join(data[i], data[i + 1], data[i + 2]);
      JoinBits(data[i], data[i + 1], data[i + 2]);
      ThreeMore(data, i);
      ghost var more := EmitSextets(AllBits(data[..i + 3], 8), d, v, 4);
      var four := EmitChars(v, 4);
      CharsJoined(d, more, four);
      s := s + four;
      d := d + more;
      i := i + 3;
    }
    if |data| - i == 0 {
      assert data[..i] == data;
      WholeEncoded(data, d);
    } else {
      var n := |data| - i + 1;
      var v := Join(data[i], if i + 1 < |data| then data[i + 1] else 0, 0);
      ghost var more := EmitSextets(AllBits(data[..i], 8) + Bits(v, 24), d, v, n);
      var last := EmitChars(v, n);
      CharsJoined(d, more, last);
      TailBits(data, i, d, more);
      s := s + last;
    }
  }

  lemma Nothing(data: seq<nat>)
    ensures AllBits(data[..0], 8) == AllBits([], 6) && Below([], 6) && Chars([]) == ""
  {
  }

  /** The leftover bits of the accumulator are all zero exactly when the masked value is. */
  lemma StrayBits(acc: nat, bits: nat)
    ensures Mask(acc, bits) == 0 <==> NoneSet(Bits(acc, bits))
  {
    hide Bits, Pow2;
    BitsMask(acc, bits, bits);
    BitsZero(Mask(acc, bits), bits);
  }

  /** The loop's groups are the function's: at most eight bits leave at a time. */
  lemma DecodedIs(v: seq<nat>, out: seq<nat>, acc: nat, bits: nat)
    requires Below(v, 6) && Below(out, 8) && bits < 8 && AllBits(v, 6) == AllBits(out, 8) + Bits(acc, bits)
    requires |v| % 4 != 1
    ensures Regroup(v, 6, 8, false) == if NoneSet(Bits(acc, bits)) then Some(out) else None
  {
    hide Bits, Pow2, AllBits, Below, Regroup, NoneSet, Whole;
    var all := AllBits(v, 6);
    assert |v| * 6 == |out| * 8 + bits && bits < 6;
    WholeIs(|all|, 8, |out|);
    RegroupedIs(v, 6, 8, false, if NoneSet(Bits(acc, bits)) then Some(out) else None);
  }

  /** More than cap whole bytes so far: the text is refused whatever follows. */
  lemma TooLong(s: string, i: nat, cap: nat)
    requires i <= |s| && i * 6 >= cap * 8 + 8
    ensures Decode(s, cap) == None
  {
    hide AllBits, Groups, Values, NoneSet;
    if Values(s).Some? && Regroup(Values(s).value, 6, 8, false).Some? {
      var v := Values(s).value;
      GroupsSpell(AllBits(v, 6), 8);
    }
  }

  /** b64_decode. */
  method DecodeText(s: string, cap: nat) returns (r: Option<seq<nat>>)
    ensures r == Decode(s, cap)
  {
    hide Bits, Pow2, AllBits, Below, Regroup, Mask, Shift, ShiftLeft, IndexIn;
    AlphabetDistinct();
    if |s| % 4 == 1 {
      return None;
    }
    var acc: nat, bits: nat := 0, 0;
    var out: seq<nat> := [];
    ghost var v: seq<nat> := [];
    NoBits([], 6, 8);
    var i: nat := 0;
    while i < |s|
      invariant i <= |s| && bits < 8 && Values(s[..i]) == Some(v) && Below(v, 6) && Below(out, 8)
      invariant |v| == i && |out| <= cap && AllBits(v, 6) == AllBits(out, 8) + Bits(acc, bits)
    {
      assert s[..i + 1][..i] == s[..i];
      var x := IndexIn(CHARSET, s[i]);
      if x.None? {
        ValuesFail(CHARSET, 6, s, i + 1);
        return None;
      }
      ValueBelow(x.value);
      TakeGroup(AllBits(v, 6), out, acc, bits, 8, 6, x.value);
      AllBitsAppend(v, x.value, 6);
      v := v + [x.value];
      acc := Mask(ShiftLeft(acc, 6) + x.value, 32);
      bits := bits + 6;
      if bits >= 8 {
        EmitGroup(AllBits(v, 6), out, acc, bits, 8);
        bits := bits - 8;
        if |out| >= cap {
          TooLong(s, i + 1, cap);
          return None;
        }
        out := out + [Mask(Shift(acc, bits), 8)];
      }
      i := i + 1;
    }
    assert s[..i] == s;
    DecodedIs(v, out, acc, bits);
    StrayBits(acc, bits);
    if Mask(acc, bits) != 0 {
      return None;
    }
    r := Some(out);
  }

  lemma ValueBelow(x: nat)
    requires x < |CHARSET|
    ensures x < Pow2(6)
  {
    Pow32();
  }
}
