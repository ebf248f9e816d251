/** Texts over an alphabet of 2^w characters: the character of each w-bit value, and back. */
module Charset {
  import opened BitGroups
  import opened Common

  /** Every character is found at its own place. */
  predicate Distinct(cs: string)
  {
    forall i :: 0 <= i < |cs| ==> IndexIn(cs, cs[i]) == Some(i)
  }

  function CharsIn(cs: string, w: nat, d: seq<nat>): (s: string)
    requires |cs| == Pow2(w) && Below(d, w)
    ensures |s| == |d|
  {
    seq(|d|, i requires 0 <= i < |d| => cs[d[i]])
  }

  /** The values of the characters, none when one is outside the alphabet. */
  function ValuesIn(cs: string, w: nat, s: string): (d: Option<seq<nat>>)
    requires |cs| == Pow2(w)
    ensures d.Some? ==> |d.value| == |s| && Below(d.value, w)
  {
    if |s| == 0 then Some([])
    else match ValuesIn(cs, w, s[..|s| - 1])
      case None => None
      case Some(d) =>
        match IndexIn(cs, s[|s| - 1])
        case None => None
        case Some(v) => Some(d + [v])
  }

  lemma {:induction false} ValuesOfChars(cs: string, w: nat, d: seq<nat>)
    requires |cs| == Pow2(w) && Distinct(cs) && Below(d, w)
    ensures ValuesIn(cs, w, CharsIn(cs, w, d)) == Some(d)
  {
    hide IndexIn, Pow2;
    if |d| > 0 {
      var n := |d| - 1;
      ValuesOfChars(cs, w, d[..n]);
      assert CharsIn(cs, w, d)[..n] == CharsIn(cs, w, d[..n]);
      assert d == d[..n] + [d[n]];
    }
  }

  lemma {:induction false} CharsOfValues(cs: string, w: nat, s: string)
    requires |cs| == Pow2(w) && ValuesIn(cs, w, s).Some?
    ensures CharsIn(cs, w, ValuesIn(cs, w, s).value) == s
  {
    hide IndexIn, Pow2;
    if |s| > 0 {
      CharsOfValues(cs, w, s[..|s| - 1]);
      assert s == s[..|s| - 1] + [s[|s| - 1]];
    }
  }

  lemma {:induction false} ValuesFail(cs: string, w: nat, s: string, i: nat)
    requires |cs| == Pow2(w) && i <= |s| && ValuesIn(cs, w, s[..i]).None?
    ensures ValuesIn(cs, w, s).None?
    decreases |s|
  {
    hide IndexIn;
    if i < |s| {
      assert s[..|s| - 1][..i] == s[..i];
      ValuesFail(cs, w, s[..|s| - 1], i);
    } else {
      assert s[..i] == s;
    }
  }
}
