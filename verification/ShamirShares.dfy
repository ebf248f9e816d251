/** Splitting a secret into share files and joining them again (src/sss.c). */
module ShamirShares {
  import opened Common
  import opened Gf256
  import opened GfTables
  import opened Shamir

  const MIN_THRESHOLD: nat := 2
  const MAX_THRESHOLD: nat := 16
  const MAX_SHARES: nat := 255
  const MAX_JOIN: nat := 0x100_0000
  const HEADER_SIZE: nat := 62

  datatype Status = ErrInput | ErrMismatch
  datatype Result<T> = Ok(value: T) | Err(status: Status)

  /** What a share file says; the secret's length is the length of `data`. */
  datatype Share = Share(setId: seq<Gf>, index: Gf, threshold: Gf, digest: seq<Gf>, data: seq<Gf>)

  type Hash = seq<Gf> -> seq<Gf>

  ghost predicate WellSized(hash: Hash)
  {
    forall m :: |hash(m)| == 32
  }

  // ---------------------------------------------------------------------------
  // The file format
  // ---------------------------------------------------------------------------

  /** "QSAFES01" */
  const MAGIC: seq<Gf> := [0x51, 0x53, 0x41, 0x46, 0x45, 0x53, 0x30, 0x31]

  /** store_u32le: the low 32 bits, low byte first. */
  function StoreU32(v: nat): (b: seq<Gf>)
    ensures |b| == 4
  {
    [ToByte(v % 256), ToByte(v / 0x100 % 256), ToByte(v / 0x1_0000 % 256), ToByte(v / 0x100_0000 % 256)]
  }

  function Number(a: nat, b: nat, c: nat, d: nat): nat
  {
    a + 0x100 * b + 0x1_0000 * c + 0x100_0000 * d
  }

  function LoadU32(b: seq<Gf>): nat
    requires |b| == 4
  {
    Number(b[0] as nat, b[1] as nat, b[2] as nat, b[3] as nat)
  }

  lemma Digits(v: nat)
    ensures Number(v % 256, v / 0x100 % 256, v / 0x1_0000 % 256, v / 0x100_0000 % 256) == v % U32
  {
    var a, b := v / 0x100, v / 0x1_0000;
    var c := v / 0x100_0000;
    assert v == 256 * a + v % 256;
    assert a == 256 * b + a % 256;
    assert b == 256 * c + b % 256;
    assert c == 256 * (c / 256) + c % 256;
  }

  lemma FromDigits(a: nat, b: nat, c: nat, d: nat)
    requires a < 256 && b < 256 && c < 256 && d < 256
    ensures var v := Number(a, b, c, d);
      v % 256 == a && v / 0x100 % 256 == b && v / 0x1_0000 % 256 == c && v / 0x100_0000 % 256 == d && v < U32
  {
    var v := Number(a, b, c, d);
    assert v / 0x100 == b + 0x100 * c + 0x1_0000 * d;
    assert v / 0x1_0000 == c + 0x100 * d;
    assert v / 0x100_0000 == d;
  }

  lemma U32RoundTrip(v: nat)
    ensures LoadU32(StoreU32(v)) == v % U32
  {
    hide ToByte;
    Digits(v);
  }

  function FileOf(s: Share): seq<Gf>
  {
    MAGIC + s.setId + [s.index] + [s.threshold] + StoreU32(|s.data|) + s.digest + s.data
  }

  /** read_share. */
  function ReadShare(file: seq<Gf>): Option<Share>
  {
    if |file| < HEADER_SIZE || file[..8] != MAGIC then None
    else
      var index, threshold, len := file[24], file[25], LoadU32(file[26..30]);
      if index == 0 || threshold as nat < MIN_THRESHOLD || threshold as nat > MAX_THRESHOLD
         || len == 0 || len > MAX_JOIN then None
      else if |file| != HEADER_SIZE + len then None
      else Some(Share(file[8..24], index, threshold, file[30..62], file[62..]))
  }

  ghost predicate FitsFormat(s: Share)
  {
    |s.setId| == 16 && |s.digest| == 32
  }

  /** The parameters read_share accepts. */
  predicate Readable(s: Share)
  {
    s.index != 0 && MIN_THRESHOLD <= s.threshold as nat <= MAX_THRESHOLD && 0 < |s.data| <= MAX_JOIN
  }

  lemma FileLayout(s: Share)
    requires FitsFormat(s)
    ensures var f := FileOf(s);
      && |f| == HEADER_SIZE + |s.data|
      && f[..8] == MAGIC && f[8..24] == s.setId && f[24] == s.index && f[25] == s.threshold
      && f[26..30] == StoreU32(|s.data|) && f[30..62] == s.digest && f[62..] == s.data
  {
    hide StoreU32;
  }

  /** A written share reads back as itself exactly when its parameters are in the reader's range;
      otherwise the file is refused. */
  lemma ShareRoundTrip(s: Share)
    requires FitsFormat(s) && |s.data| < U32
    ensures ReadShare(FileOf(s)) == if Readable(s) then Some(s) else None
  {
    hide FileOf, StoreU32, LoadU32;
    FileLayout(s);
    U32RoundTrip(|s.data|);
  }

  /** The reader accepts no other bytes: an accepted file is the file of what was read. */
  lemma ReadOnlyWritten(file: seq<Gf>)
    requires ReadShare(file).Some?
    ensures Readable(ReadShare(file).value) && FitsFormat(ReadShare(file).value)
    ensures FileOf(ReadShare(file).value) == file
  {
    hide StoreU32, LoadU32;
    U32Bytes(file[26..30]);
    var f := file;
    assert f == f[..8] + f[8..24] + [f[24]] + [f[25]] + f[26..30] + f[30..62] + f[62..];
  }

  lemma StoredAs(v: nat, a: Gf, b: Gf, c: Gf, d: Gf)
    requires v % 256 == a as nat && v / 0x100 % 256 == b as nat
    requires v / 0x1_0000 % 256 == c as nat && v / 0x100_0000 % 256 == d as nat
    ensures StoreU32(v) == [a, b, c, d]
  {
    hide ToByte;
    SameByte(a, a);
    SameByte(b, b);
    SameByte(c, c);
    SameByte(d, d);
  }

  lemma U32Bytes(b: seq<Gf>)
    requires |b| == 4
    ensures StoreU32(LoadU32(b)) == b && LoadU32(b) < U32
  {
    hide *;
    SameByte(b[0], b[0]);
    SameByte(b[1], b[1]);
    SameByte(b[2], b[2]);
    SameByte(b[3], b[3]);
    LoadedFrom(b);
    FromDigits(b[0] as nat, b[1] as nat, b[2] as nat, b[3] as nat);
    StoredAs(LoadU32(b), b[0], b[1], b[2], b[3]);
  }

  lemma LoadedFrom(b: seq<Gf>)
    requires |b| == 4
    ensures LoadU32(b) == Number(b[0] as nat, b[1] as nat, b[2] as nat, b[3] as nat)
  {
  }

  // ---------------------------------------------------------------------------
  // Splitting
  // ---------------------------------------------------------------------------

  /** The data of the share with index x: each byte of the secret is the constant term of its own
      polynomial. */
  ghost function ShareData(secret: seq<Gf>, coeffs: seq<seq<Gf>>, x: Gf): (d: seq<Gf>)
    requires |coeffs| == |secret|
    ensures |d| == |secret|
  {
    seq(|secret|, j requires 0 <= j < |secret| => Eval([secret[j]] + coeffs[j], x))
  }

  predicate SplitAccepts(len: nat, t: nat, n: nat)
  {
    0 < len < U32 && MIN_THRESHOLD <= t <= MAX_THRESHOLD && t <= n <= MAX_SHARES
  }

  /** One draw of t - 1 coefficients for every byte of the secret. */
  predicate Drawn(coeffs: seq<seq<Gf>>, len: nat, t: nat)
  {
    |coeffs| == len && t >= 2 && forall j :: 0 <= j < len ==> |coeffs[j]| == t - 1
  }

  ghost function ShareAt(hash: Hash, setId: seq<Gf>, secret: seq<Gf>, t: nat, coeffs: seq<seq<Gf>>, i: nat): Share
    requires i < MAX_SHARES && t < 256 && |coeffs| == |secret|
  {
    Share(setId, ToByte(i + 1), ToByte(t), hash(secret), ShareData(secret, coeffs, ToByte(i + 1)))
  }

  /** The innermost loop of the split: Horner's rule from the top coefficient down. */
  method Horner(tables: Tables, secret: Gf, coeffs: seq<Gf>, x: Gf) returns (y: Gf)
    requires tables.Valid() && tables.ready && |coeffs| > 0
    ensures y == Eval([secret] + coeffs, x)
  {
    hide *;
    var t := |coeffs| + 1;
    y := coeffs[t - 2];
    LastEval(coeffs[t - 2..], x);
    var d: int := t - 3;
    while d >= 0
      invariant -1 <= d <= t - 3
      invariant y == Eval(coeffs[d + 1..], x)
    {
      var m := tables.GfMul(y, x);
      HornerStep(coeffs[d..], x);
      assert coeffs[d..][1..] == coeffs[d + 1..];
      AddIsXor(m, coeffs[d]);
      y := m ^ coeffs[d];
      d := d - 1;
    }
    assert coeffs[0..] == coeffs == ([secret] + coeffs)[1..];
    var m := tables.GfMul(y, x);
    HornerStep([secret] + coeffs, x);
    AddIsXor(m, secret);
    y := m ^ secret;
  }

  lemma AddIsXor(a: Gf, b: Gf)
    ensures Add(a, b) == a ^ b
  {
  }

  lemma HornerStep(p: seq<Gf>, x: Gf)
    requires |p| > 0
    ensures Eval(p, x) == Add(Mul(Eval(p[1..], x), x), p[0])
  {
    hide Mul, Add;
  }

  lemma LastEval(p: seq<Gf>, x: Gf)
    requires |p| == 1
    ensures Eval(p, x) == p[0]
  {
    hide Mul, Add, Eval;
    EvalFirst(p, x);
    EvalFirst(p[1..], x);
    MulZero(0, x);
    AddZero(p[0]);
  }

  method FillShares(tables: Tables, secret: seq<Gf>, n: nat, coeffs: seq<seq<Gf>>) returns (shares: array2<Gf>)
    requires tables.Valid() && tables.ready && n <= MAX_SHARES && |coeffs| == |secret|
    requires forall j :: 0 <= j < |coeffs| ==> |coeffs[j]| > 0
    ensures fresh(shares) && shares.Length0 == n && shares.Length1 == |secret|
    ensures forall i, j :: 0 <= i < n && 0 <= j < |secret| ==>
      shares[i, j] == Eval([secret[j]] + coeffs[j], ToByte(i + 1))
  {
    hide Eval, ToByte, Tables.Filled;
    shares := new Gf[n, |secret|];
    var j: nat := 0;
    while j < |secret|
      invariant j <= |secret|
      invariant forall i, c :: 0 <= i < n && 0 <= c < j ==>
        shares[i, c] == Eval([secret[c]] + coeffs[c], ToByte(i + 1))
    {
      var i: nat := 0;
      while i < n
        invariant i <= n
        invariant forall a, c :: 0 <= a < n && 0 <= c < j ==>
          shares[a, c] == Eval([secret[c]] + coeffs[c], ToByte(a + 1))
        invariant forall a :: 0 <= a < i ==> shares[a, j] == Eval([secret[j]] + coeffs[j], ToByte(a + 1))
      {
        shares[i, j] := Horner(tables, secret[j], coeffs[j], ToByte(i + 1));
        i := i + 1;
      }
      j := j + 1;
    }
  }

  /** The bytes of one share. */
  method Row(shares: array2<Gf>, secret: seq<Gf>, coeffs: seq<seq<Gf>>, i: nat) returns (data: seq<Gf>)
    requires i < shares.Length0 && i < MAX_SHARES && shares.Length1 == |secret| == |coeffs|
    requires forall j :: 0 <= j < |secret| ==> shares[i, j] == Eval([secret[j]] + coeffs[j], ToByte(i + 1))
    ensures data == ShareData(secret, coeffs, ToByte(i + 1))
  {
    hide ToByte, Eval;
    data := [];
    while |data| < |secret|
      invariant |data| <= |secret|
      invariant forall j :: 0 <= j < |data| ==> data[j] == Eval([secret[j]] + coeffs[j], ToByte(i + 1))
    {
      data := data + [shares[i, |data|]];
    }
  }

  lemma ShareAtIs(hash: Hash, setId: seq<Gf>, secret: seq<Gf>, t: nat, coeffs: seq<seq<Gf>>, i: nat)
    requires i < MAX_SHARES && t < 256 && |coeffs| == |secret|
    ensures ShareAt(hash, setId, secret, t, coeffs, i)
         == Share(setId, ToByte(i + 1), ToByte(t), hash(secret), ShareData(secret, coeffs, ToByte(i + 1)))
  {
  }

  /** One share for every row. */
  method MakeShares(shares: array2<Gf>, hash: Hash, setId: seq<Gf>, secret: seq<Gf>, t: nat, coeffs: seq<seq<Gf>>)
    returns (out: seq<Share>)
    requires shares.Length0 <= MAX_SHARES && t < 256 && shares.Length1 == |secret| == |coeffs|
    requires forall i, j :: 0 <= i < shares.Length0 && 0 <= j < |secret| ==>
      shares[i, j] == Eval([secret[j]] + coeffs[j], ToByte(i + 1))
    ensures |out| == shares.Length0
    ensures forall i: nat :: i < |out| ==> out[i] == ShareAt(hash, setId, secret, t, coeffs, i)
  {
    hide *;
    out := [];
    while |out| < shares.Length0
      invariant |out| <= shares.Length0
      invariant forall k: nat :: k < |out| ==> out[k] == ShareAt(hash, setId, secret, t, coeffs, k)
    {
      var data := Row(shares, secret, coeffs, |out|);
      ShareAtIs(hash, setId, secret, t, coeffs, |out|);
      out := out + [Share(setId, ToByte(|out| + 1), ToByte(t), hash(secret), data)];
    }
  }

  /** sss_split_to_files without the file writes: refused parameters, or n shares. */
  method Split(tables: Tables, hash: Hash, setId: seq<Gf>, secret: seq<Gf>, t: nat, n: nat, coeffs: seq<seq<Gf>>)
    returns (r: Result<seq<Share>>)
    requires tables.Valid() && (SplitAccepts(|secret|, t, n) ==> Drawn(coeffs, |secret|, t))
    modifies tables, tables.exp, tables.log
    ensures tables.Valid()
    ensures r.Ok? <==> 0 < |secret| < U32 && 2 <= t <= 16 && t <= n <= 255
    ensures !SplitAccepts(|secret|, t, n) ==> r == Err(ErrInput)
    ensures SplitAccepts(|secret|, t, n) ==>
        && r.Ok?
        && |r.value| == n
        && forall i: nat :: i < n ==> r.value[i] == ShareAt(hash, setId, secret, t, coeffs, i)
  {
    if |secret| == 0 || |secret| > 0xFFFF_FFFF || t < MIN_THRESHOLD || t > MAX_THRESHOLD
       || n < t || n > MAX_SHARES {
      return Err(ErrInput);
    }
    tables.Init();
    var rows := FillShares(tables, secret, n, coeffs);
    var shares := MakeShares(rows, hash, setId, secret, t, coeffs);
    return Ok(shares);
  }

  // ---------------------------------------------------------------------------
  // Joining
  // ---------------------------------------------------------------------------

  predicate SameSet(s: Share, s0: Share)
  {
    s.setId == s0.setId && s.threshold == s0.threshold && |s.data| == |s0.data| && s.digest == s0.digest
  }

  predicate IndexUsed(ss: seq<Share>, x: Gf)
  {
    exists k :: 0 <= k < |ss| && ss[k].index == x
  }

  /** The shares of the first n files, or why one of them is refused. */
  function Collect(files: seq<seq<Gf>>, n: nat): Result<seq<Share>>
    requires n <= |files|
  {
    if n == 0 then Ok([])
    else match Collect(files, n - 1)
      case Err(e) => Err(e)
      case Ok(ss) =>
        match ReadShare(files[n - 1])
        case None => Err(ErrInput)
        case Some(s) =>
          if (|ss| > 0 && !SameSet(s, ss[0])) || IndexUsed(ss, s.index) then Err(ErrMismatch)
          else Ok(ss + [s])
  }

  ghost predicate Compatible(ss: seq<Share>)
  {
    && (forall k :: 0 <= k < |ss| ==> Readable(ss[k]) && SameSet(ss[k], ss[0]))
    && (forall i, k :: 0 <= i < k < |ss| ==> ss[i].index != ss[k].index)
  }

  function Indices(ss: seq<Share>): (xs: seq<Gf>)
    ensures |xs| == |ss|
  {
    seq(|ss|, i requires 0 <= i < |ss| => ss[i].index)
  }

  function Column(ss: seq<Share>, j: nat): (ys: seq<Gf>)
    requires forall k :: 0 <= k < |ss| ==> j < |ss[k].data|
    ensures |ys| == |ss|
  {
    seq(|ss|, i requires 0 <= i < |ss| => ss[i].data[j])
  }

  lemma CompatibleColumns(ss: seq<Share>)
    requires |ss| > 0 && Compatible(ss)
    ensures Distinct(Indices(ss)) && forall k :: 0 <= k < |ss| ==> |ss[k].data| == |ss[0].data|
  {
  }

  /** The Lagrange sum at 0, byte by byte. */
  ghost function Combine(ss: seq<Share>): (secret: seq<Gf>)
    requires |ss| > 0 && Compatible(ss)
    ensures |secret| == |ss[0].data|
  {
    CompatibleColumns(ss);
    seq(|ss[0].data|, j requires 0 <= j < |ss[0].data| => Sum(Indices(ss), Column(ss, j), |ss|, 0))
  }

  lemma {:induction false} CollectCompatible(files: seq<seq<Gf>>, n: nat)
    requires n <= |files| && Collect(files, n).Ok?
    ensures var ss := Collect(files, n).value;
      && |ss| == n && Compatible(ss)
      && forall k :: 0 <= k < n ==> ReadShare(files[k]) == Some(ss[k])
  {
    hide ReadShare, Readable;
    if n > 0 {
      CollectCompatible(files, n - 1);
      ReadOnlyWritten(files[n - 1]);
    }
  }

  lemma FirstShares(ss: seq<Share>, t: nat)
    requires Compatible(ss) && t <= |ss|
    ensures Compatible(ss[..t])
  {
    hide Readable, SameSet;
    assert t > 0 ==> ss[..t][0] == ss[0];
  }

  /** sss_join_files on the files' contents. */
  ghost function JoinResult(hash: Hash, files: seq<seq<Gf>>): Result<seq<Gf>>
  {
    if |files| < MIN_THRESHOLD || |files| > MAX_THRESHOLD then Err(ErrInput)
    else match Collect(files, |files|)
      case Err(e) => Err(e)
      case Ok(ss) =>
        CollectCompatible(files, |files|);
        var t := ss[0].threshold as nat;
        if |files| < t then Err(ErrInput)
        else
          FirstShares(ss, t);
          var secret := Combine(ss[..t]);
          if hash(secret) != ss[0].digest then Err(ErrMismatch) else Ok(secret)
  }

  /** The basis coefficient of one share. */
  method BasisValue(tables: Tables, idx: seq<Gf>, i: nat) returns (b: Gf)
    requires tables.Valid() && tables.ready && i < |idx| && Distinct(idx)
    ensures b == Basis(idx, i, 0)
  {
    hide *;
    var num: Gf, den: Gf := 1, 1;
    var k: nat := 0;
    ProdStep(idx, i, 0, 0);
    ProdStep(idx, i, 0, idx[i]);
    while k < |idx|
      invariant k <= |idx|
      invariant num == Prod(idx, i, k, 0) && den == Prod(idx, i, k, idx[i])
    {
      ProdStep(idx, i, k + 1, 0);
      ProdStep(idx, i, k + 1, idx[i]);
      if k != i {
        AddZero(idx[k]);
        AddIsXor(idx[k], idx[i]);
        num := tables.GfMul(num, idx[k]);
        den := tables.GfMul(den, idx[k] ^ idx[i]);
      }
      k := k + 1;
    }
    BasisIs(idx, i, 0);
    b := tables.GfDiv(num, den);
  }

  lemma ProdStep(xs: seq<Gf>, i: nat, k: nat, x: Gf)
    requires k <= |xs|
    ensures k == 0 ==> Prod(xs, i, k, x) == 1
    ensures k > 0 ==>
        Prod(xs, i, k, x) == if k - 1 == i then Prod(xs, i, k - 1, x) else Mul(Prod(xs, i, k - 1, x), Add(xs[k - 1], x))
  {
    hide Mul, Add;
  }

  lemma BasisIs(xs: seq<Gf>, i: nat, x: Gf)
    requires i < |xs| && Distinct(xs)
    ensures Prod(xs, i, |xs|, xs[i]) != 0
    ensures Basis(xs, i, x) == Div(Prod(xs, i, |xs|, x), Prod(xs, i, |xs|, xs[i]))
  {
    hide Prod, Div;
    DenominatorNonzero(xs, i);
  }

  lemma SumStep(xs: seq<Gf>, ys: seq<Gf>, n: nat, x: Gf)
    requires n <= |xs| == |ys| && Distinct(xs)
    ensures n == 0 ==> Sum(xs, ys, n, x) == 0
    ensures n > 0 ==> Sum(xs, ys, n, x) == Add(Sum(xs, ys, n - 1, x), Mul(ys[n - 1], Basis(xs, n - 1, x)))
  {
    hide Mul, Add, Basis;
  }

  /** The Lagrange loop for one byte position. */
  method WeightedSum(tables: Tables, idx: seq<Gf>, ys: seq<Gf>, basis: seq<Gf>) returns (v: Gf)
    requires tables.Valid() && tables.ready && |idx| == |ys| == |basis| && Distinct(idx)
    requires forall i :: 0 <= i < |idx| ==> basis[i] == Basis(idx, i, 0)
    ensures v == Sum(idx, ys, |idx|, 0)
  {
    hide *;
    v := 0;
    SumStep(idx, ys, 0, 0);
    var i: nat := 0;
    while i < |idx|
      invariant i <= |idx| && v == Sum(idx, ys, i, 0)
    {
      var m := tables.GfMul(ys[i], basis[i]);
      SumStep(idx, ys, i + 1, 0);
      AddIsXor(v, m);
      v := v ^ m;
      i := i + 1;
    }
  }

  /** Reconstruction from compatible shares: basis first, then every byte. */
  method Interpolated(tables: Tables, ss: seq<Share>) returns (secret: seq<Gf>)
    requires tables.Valid() && tables.ready && |ss| > 0 && Compatible(ss)
    ensures secret == Combine(ss)
  {
    hide Distinct, Sum, Basis, Readable, Tables.Filled;
    CompatibleColumns(ss);
    var idx := Indices(ss);
    var basis: seq<Gf> := [];
    while |basis| < |ss|
      invariant |basis| <= |ss|
      invariant forall i :: 0 <= i < |basis| ==> basis[i] == Basis(idx, i, 0)
    {
      var b := BasisValue(tables, idx, |basis|);
      basis := basis + [b];
    }
    secret := [];
    while |secret| < |ss[0].data|
      invariant |secret| <= |ss[0].data|
      invariant forall j :: 0 <= j < |secret| ==> secret[j] == Sum(idx, Column(ss, j), |ss|, 0)
    {
      var v := WeightedSum(tables, idx, Column(ss, |secret|), basis);
      secret := secret + [v];
    }
  }

  /** sss_join_files. */
  method Join(tables: Tables, hash: Hash, files: seq<seq<Gf>>) returns (r: Result<seq<Gf>>)
    requires tables.Valid()
    modifies tables, tables.exp, tables.log
    ensures tables.Valid() && r == JoinResult(hash, files)
  {
    hide ReadShare, Combine, Compatible, SameSet, Tables.Filled;
    if |files| < MIN_THRESHOLD || |files| > MAX_THRESHOLD {
      return Err(ErrInput);
    }
    tables.Init();
    var ss: seq<Share> := [];
    var i: nat := 0;
    while i < |files|
      invariant i <= |files| && |ss| == i && Collect(files, i) == Ok(ss)
      invariant tables.Valid() && tables.ready
    {
      var s := ReadShare(files[i]);
      if s.None? {
        CollectFails(files, i + 1, |files|);
        return Err(ErrInput);
      }
      if (i > 0 && !SameSet(s.value, ss[0])) || IndexUsed(ss, s.value.index) {
        CollectFails(files, i + 1, |files|);
        return Err(ErrMismatch);
      }
      ss := ss + [s.value];
      i := i + 1;
    }
    CollectCompatible(files, |files|);
    var t := ss[0].threshold as nat;
    if |files| < t {
      return Err(ErrInput);
    }
    FirstShares(ss, t);
    ThresholdPositive(ss, t);
    var secret := Interpolated(tables, ss[..t]);
    if hash(secret) != ss[0].digest {
      return Err(ErrMismatch);
    }
    return Ok(secret);
  }

  lemma ThresholdPositive(ss: seq<Share>, t: nat)
    requires |ss| > 0 && Compatible(ss) && t == ss[0].threshold as nat
    ensures 2 <= t <= 16
  {
  }

  lemma {:induction false} CollectFails(files: seq<seq<Gf>>, n: nat, m: nat)
    requires n <= m <= |files| && Collect(files, n).Err?
    ensures Collect(files, m) == Collect(files, n)
    decreases m
  {
    hide ReadShare, SameSet, IndexUsed;
    if n < m {
      CollectFails(files, n, m - 1);
    }
  }

  // ---------------------------------------------------------------------------
  // What splitting and joining promise
  // ---------------------------------------------------------------------------

  ghost predicate Numbered(chosen: seq<nat>, n: nat)
  {
    forall k :: 0 <= k < |chosen| ==> chosen[k] < n
  }

  ghost predicate NoRepeats(chosen: seq<nat>)
  {
    forall i, k :: 0 <= i < k < |chosen| ==> chosen[i] != chosen[k]
  }

  ghost predicate ChosenFrom(chosen: seq<nat>, n: nat)
  {
    Numbered(chosen, n) && NoRepeats(chosen)
  }

  /** The shares with the given numbers, as split produced them. */
  ghost function Chosen(hash: Hash, setId: seq<Gf>, secret: seq<Gf>, t: nat, coeffs: seq<seq<Gf>>, chosen: seq<nat>)
    : (ss: seq<Share>)
    requires t < 256 && |coeffs| == |secret| && Numbered(chosen, MAX_SHARES)
    ensures |ss| == |chosen|
  {
    seq(|chosen|, k requires 0 <= k < |chosen| => ShareAt(hash, setId, secret, t, coeffs, chosen[k]))
  }

  ghost function Files(ss: seq<Share>): (files: seq<seq<Gf>>)
    ensures |files| == |ss|
  {
    seq(|ss|, k requires 0 <= k < |ss| => FileOf(ss[k]))
  }

  lemma ChosenFits(hash: Hash, setId: seq<Gf>, secret: seq<Gf>, t: nat, coeffs: seq<seq<Gf>>, chosen: seq<nat>)
    requires WellSized(hash) && |setId| == 16 && 0 < |secret| && 2 <= t <= 16
    requires |coeffs| == |secret| && Numbered(chosen, MAX_SHARES)
    ensures var ss := Chosen(hash, setId, secret, t, coeffs, chosen);
      && (forall k :: 0 <= k < |ss| ==> FitsFormat(ss[k]) && |ss[k].data| == |secret|)
      && (forall k :: 0 <= k < |ss| ==> ss[k].threshold as nat == t && ss[k].digest == hash(secret))
      && (forall k :: 0 <= k < |ss| ==> SameSet(ss[k], ss[0]))
      && (forall k :: 0 <= k < |ss| ==> Readable(ss[k]) == (|secret| <= MAX_JOIN))
      && (DistinctShares(ss) <==> NoRepeats(chosen))
  {
    hide ToByte, ShareData;
    forall k | 0 <= k < |chosen|
      ensures ToByte(chosen[k] + 1) != 0
    {
      SameByte(ToByte(chosen[k] + 1), 0);
    }
    forall i, k | 0 <= i < k < |chosen|
      ensures ToByte(chosen[i] + 1) == ToByte(chosen[k] + 1) <==> chosen[i] == chosen[k]
    {
      ByteOfNumber(chosen[i]);
      ByteOfNumber(chosen[k]);
    }
    var ss := Chosen(hash, setId, secret, t, coeffs, chosen);
    assert forall i, k :: 0 <= i < k < |ss| ==> (ss[i].index == ss[k].index <==> chosen[i] == chosen[k]);
  }

  lemma ByteOfNumber(i: nat)
    requires i < MAX_SHARES
    ensures ToByte(i + 1) as nat == i + 1
  {
  }

  ghost predicate DistinctShares(ss: seq<Share>)
  {
    forall i, k :: 0 <= i < k < |ss| ==> ss[i].index != ss[k].index
  }

  /** One more share keeps the indices distinct exactly when its own was not used. */
  lemma OneMoreShare(ss: seq<Share>, n: nat)
    requires 0 < n <= |ss|
    ensures DistinctShares(ss[..n]) <==> DistinctShares(ss[..n - 1]) && !IndexUsed(ss[..n - 1], ss[n - 1].index)
  {
    var front, now := ss[..n - 1], ss[..n];
    assert forall k :: 0 <= k < n - 1 ==> now[k] == front[k];
    if DistinctShares(now) {
      assert forall k :: 0 <= k < n - 1 ==> now[k].index != now[n - 1].index;
    }
  }

  /** The readable share files of one split are collected, unless one is given twice. */
  lemma {:induction false} CollectFiles(ss: seq<Share>, n: nat)
    requires n <= |ss|
    requires forall k :: 0 <= k < |ss| ==> FitsFormat(ss[k]) && Readable(ss[k]) && SameSet(ss[k], ss[0])
    ensures Collect(Files(ss), n) == if DistinctShares(ss[..n]) then Ok(ss[..n]) else Err(ErrMismatch)
  {
    hide ReadShare, FileOf, FitsFormat, SameSet, IndexUsed, DistinctShares;
    if n == 0 {
      NoShares(ss[..0]);
    } else {
      CollectFiles(ss, n - 1);
      ReadableReads(ss[n - 1]);
      OneMoreShare(ss, n);
      assert ss[..n] == ss[..n - 1] + [ss[n - 1]];
    }
  }

  lemma NoShares(ss: seq<Share>)
    requires |ss| == 0
    ensures DistinctShares(ss)
  {
  }

  lemma ReadableReads(s: Share)
    requires FitsFormat(s) && Readable(s)
    ensures ReadShare(FileOf(s)) == Some(s)
  {
    hide ReadShare, FileOf, FitsFormat;
    ShareRoundTrip(s);
  }

  lemma CombineChosen(hash: Hash, setId: seq<Gf>, secret: seq<Gf>, t: nat, coeffs: seq<seq<Gf>>, ss: seq<Share>)
    requires 2 <= t == |ss| && t < 256 && Drawn(coeffs, |secret|, t) && Compatible(ss)
    requires forall k :: 0 <= k < |ss| ==>
      exists i: nat :: i < MAX_SHARES && ss[k] == ShareAt(hash, setId, secret, t, coeffs, i)
    ensures Combine(ss) == secret
  {
    hide Compatible, Sum, Eval, ShareAt, Distinct;
    CompatibleColumns(ss);
    assert |ss[0].data| == |secret| by {
      GenuineByte(hash, setId, secret, t, coeffs, ss[0]);
    }
    forall j | 0 <= j < |secret|
      ensures Combine(ss)[j] == secret[j]
    {
      forall k | 0 <= k < |ss|
        ensures Column(ss, j)[k] == Eval([secret[j]] + coeffs[j], Indices(ss)[k])
      {
        GenuineByte(hash, setId, secret, t, coeffs, ss[k]);
      }
      Reconstruct(secret[j], coeffs[j], Indices(ss), Column(ss, j));
    }
  }

  lemma GenuineByte(hash: Hash, setId: seq<Gf>, secret: seq<Gf>, t: nat, coeffs: seq<seq<Gf>>, s: Share)
    requires t < 256 && |coeffs| == |secret|
    requires exists i: nat :: i < MAX_SHARES && s == ShareAt(hash, setId, secret, t, coeffs, i)
    ensures |s.data| == |secret|
    ensures forall j :: 0 <= j < |secret| ==> s.data[j] == Eval([secret[j]] + coeffs[j], s.index)
  {
    hide Eval;
  }

  /** Joining any selection of a split's share files gives exactly the secret when t to 16 of them are
      given, none twice, and the secret is within the reader's limit of 2^24 bytes. Everything else is
      refused: more than 16 files, although a split makes up to 255, fewer than t, a longer secret
      (which split accepts up to 2^32 - 1 bytes), and a share given twice. */
  lemma SplitThenJoin(
      hash: Hash, setId: seq<Gf>, secret: seq<Gf>, t: nat, n: nat, coeffs: seq<seq<Gf>>, chosen: seq<nat>)
    requires WellSized(hash) && |setId| == 16
    requires SplitAccepts(|secret|, t, n) && Drawn(coeffs, |secret|, t) && Numbered(chosen, n)
    ensures JoinResult(hash, Files(Chosen(hash, setId, secret, t, coeffs, chosen)))
         == if !(MIN_THRESHOLD <= |chosen| <= MAX_THRESHOLD) || |secret| > MAX_JOIN then Err(ErrInput)
            else if !NoRepeats(chosen) then Err(ErrMismatch)
            else if |chosen| < t then Err(ErrInput)
            else Ok(secret)
  {
    hide ReadShare, FileOf, FitsFormat, SameSet, Readable, ShareAt, Combine, DistinctShares, NoRepeats;
    var ss := Chosen(hash, setId, secret, t, coeffs, chosen);
    ChosenFits(hash, setId, secret, t, coeffs, chosen);
    if MIN_THRESHOLD <= |chosen| <= MAX_THRESHOLD {
      if |secret| > MAX_JOIN {
        ShareRoundTrip(ss[0]);
        assert Collect(Files(ss), 0) == Ok([]);
        assert Collect(Files(ss), 1) == Err(ErrInput);
        CollectFails(Files(ss), 1, |ss|);
      } else {
        CollectFiles(ss, |ss|);
        assert ss[..|ss|] == ss;
        if NoRepeats(chosen) && t <= |ss| {
          CollectCompatible(Files(ss), |ss|);
          FirstShares(ss, t);
          forall k | 0 <= k < t
            ensures exists i: nat :: i < MAX_SHARES && ss[..t][k] == ShareAt(hash, setId, secret, t, coeffs, i)
          {
            assert ss[..t][k] == ShareAt(hash, setId, secret, t, coeffs, chosen[k]);
          }
          CombineChosen(hash, setId, secret, t, coeffs, ss[..t]);
        }
      }
    }
  }

  /** All seventeen shares of a 2-of-17 split are too many to join; any sixteen of them are not. */
  lemma SeventeenShares(hash: Hash, setId: seq<Gf>, secret: seq<Gf>, coeffs: seq<seq<Gf>>)
    requires WellSized(hash) && |setId| == 16 && 0 < |secret| <= MAX_JOIN && Drawn(coeffs, |secret|, 2)
    ensures JoinResult(hash, Files(Chosen(hash, setId, secret, 2, coeffs, seq(17, i => i)))) == Err(ErrInput)
    ensures JoinResult(hash, Files(Chosen(hash, setId, secret, 2, coeffs, seq(16, i => i)))) == Ok(secret)
  {
    hide JoinResult, Files, Chosen;
    SplitThenJoin(hash, setId, secret, 2, 17, coeffs, seq(17, i => i));
    SplitThenJoin(hash, setId, secret, 2, 17, coeffs, seq(16, i => i));
  }

  predicate OneSplit(s: Share, first: Share)
  {
    s.setId == first.setId && s.threshold == first.threshold && s.digest == first.digest && |s.data| == |first.data|
  }

  /** File k is a share file of the set of file 0 with an index that no file before it has. */
  ghost predicate Joins(files: seq<seq<Gf>>, k: nat)
    requires k < |files|
  {
    && ReadShare(files[k]).Some?
    && var s := ReadShare(files[k]).value;
    && (k > 0 ==> ReadShare(files[0]).Some? && OneSplit(s, ReadShare(files[0]).value))
    && forall i :: 0 <= i < k ==> ReadShare(files[i]).Some? ==> ReadShare(files[i]).value.index != s.index
  }

  lemma {:induction false} CollectJoins(files: seq<seq<Gf>>, n: nat)
    requires n <= |files| && forall i :: 0 <= i < n ==> Joins(files, i)
    ensures Collect(files, n).Ok? && |Collect(files, n).value| == n
    ensures forall i :: 0 <= i < n ==> ReadShare(files[i]) == Some(Collect(files, n).value[i])
    ensures n < |files| && !Joins(files, n) ==>
      Collect(files, n + 1) == Err(if ReadShare(files[n]).None? then ErrInput else ErrMismatch)
  {
    hide ReadShare;
    if n > 0 {
      CollectJoins(files, n - 1);
    }
  }

  /** The first file that does not belong decides a refusal: as input if it is no share file, as a mismatch
      if it is of another set, threshold, length or digest, or repeats an index. */
  lemma JoinRefuses(hash: Hash, files: seq<seq<Gf>>, k: nat)
    requires k < |files| && !Joins(files, k) && forall i :: 0 <= i < k ==> Joins(files, i)
    ensures JoinResult(hash, files)
         == Err(if |files| < 2 || |files| > 16 || ReadShare(files[k]).None? then ErrInput else ErrMismatch)
  {
    hide ReadShare, Joins, Collect, Combine;
    CollectJoins(files, k);
    CollectFails(files, k + 1, |files|);
  }

  /** If all files belong, and there are enough, the bytes at 0 of the polynomials through the first t shares
      are the answer, unless their digest is not the recorded one. */
  lemma JoinAnswers(hash: Hash, files: seq<seq<Gf>>)
    requires 2 <= |files| <= 16 && forall k :: 0 <= k < |files| ==> Joins(files, k)
    ensures ReadShare(files[0]).Some?
    ensures var first := ReadShare(files[0]).value;
      if |files| < first.threshold as nat then JoinResult(hash, files) == Err(ErrInput)
      else exists secret: seq<Gf> ::
        && |secret| == |first.data| && AtZero(files, first.threshold as nat, secret)
        && JoinResult(hash, files) == if hash(secret) == first.digest then Ok(secret) else Err(ErrMismatch)
  {
    hide ReadShare, Collect, Combine, Compatible, AtZero;
    CollectJoins(files, |files|);
    CollectCompatible(files, |files|);
    var ss := Collect(files, |files|).value;
    var t := ss[0].threshold as nat;
    if t <= |files| {
      ThresholdPositive(ss, t);
      FirstShares(ss, t);
      CombineAtZero(files, ss, t);
    }
  }

  /** Byte j is the value at 0 of every polynomial of t coefficients through byte j of the first t shares. */
  ghost predicate AtZero(files: seq<seq<Gf>>, t: nat, secret: seq<Gf>)
  {
    t <= |files| &&
    forall j: nat, p: seq<Gf> :: j < |secret| && |p| == t && Through(files, t, j, p) ==> secret[j] == Eval(p, 0)
  }

  ghost predicate Through(files: seq<seq<Gf>>, t: nat, j: nat, p: seq<Gf>)
    requires t <= |files|
  {
    forall i :: 0 <= i < t ==>
      ReadShare(files[i]).Some? && j < |ReadShare(files[i]).value.data|
      && ReadShare(files[i]).value.data[j] == Eval(p, ReadShare(files[i]).value.index)
  }

  lemma CombineAtZero(files: seq<seq<Gf>>, ss: seq<Share>, t: nat)
    requires 0 < t <= |ss| == |files| && Compatible(ss[..t])
    requires forall i :: 0 <= i < |files| ==> ReadShare(files[i]) == Some(ss[i])
    ensures |Combine(ss[..t])| == |ss[0].data| && AtZero(files, t, Combine(ss[..t]))
  {
    hide ReadShare, Compatible, Sum, Eval, Distinct;
    CompatibleColumns(ss[..t]);
    var secret := Combine(ss[..t]);
    forall j: nat, p: seq<Gf> | j < |secret| && |p| == t && Through(files, t, j, p)
      ensures secret[j] == Eval(p, 0)
    {
      LagrangeRecovers(p, Indices(ss[..t]), Column(ss[..t], j), 0);
    }
  }

  /** Join fails closed: when one of the files is a genuine share of a split, whatever the others
      are, it answers the split's secret or exhibits two messages with one digest. */
  lemma JoinFailsClosed(hash: Hash, files: seq<seq<Gf>>, k: nat, s: Share, secret: seq<Gf>)
    requires k < |files| && ReadShare(files[k]) == Some(s) && s.digest == hash(secret)
    requires JoinResult(hash, files).Ok?
    ensures var joined := JoinResult(hash, files).value;
      joined == secret || (joined != secret && hash(joined) == hash(secret))
  {
    hide ReadShare, Combine;
    CollectCompatible(files, |files|);
  }

  /** The draws that make `secret` give the data ds at the indices xs. */
  ghost function WholeExplanation(secret: seq<Gf>, xs: seq<Gf>, ds: seq<seq<Gf>>): (coeffs: seq<seq<Gf>>)
    requires |ds| == |xs| && Distinct(xs) && 0 !in xs
    requires forall i :: 0 <= i < |ds| ==> |ds[i]| == |secret|
    ensures |coeffs| == |secret|
  {
    seq(|secret|, j requires 0 <= j < |secret| => Explanation(secret[j], xs, ByteColumn(ds, j, |secret|)))
  }

  ghost function ByteColumn(ds: seq<seq<Gf>>, j: nat, len: nat): (ys: seq<Gf>)
    requires j < len && forall i :: 0 <= i < |ds| ==> |ds[i]| == len
    ensures |ys| == |ds|
  {
    seq(|ds|, i requires 0 <= i < |ds| => ds[i][j])
  }

  lemma ExplanationColumn(secret: seq<Gf>, xs: seq<Gf>, ds: seq<seq<Gf>>, coeffs: seq<seq<Gf>>, j: nat)
    requires |ds| == |xs| && Distinct(xs) && 0 !in xs && j < |secret|
    requires forall i :: 0 <= i < |ds| ==> |ds[i]| == |secret|
    requires |coeffs| == |secret| && |coeffs[j]| == |xs|
    ensures (forall i :: 0 <= i < |xs| ==> ShareData(secret, coeffs, xs[i])[j] == ds[i][j])
      <==> coeffs[j] == WholeExplanation(secret, xs, ds)[j]
  {
    hide Eval, Explanation, Distinct;
    Secrecy(secret[j], xs, ByteColumn(ds, j, |secret|), coeffs[j]);
  }

  /** The data of t - 1 shares says nothing: every secret of that length explains it, with exactly one
      draw of the coefficients. */
  lemma FewSharesSayNothing(secret: seq<Gf>, xs: seq<Gf>, ds: seq<seq<Gf>>, coeffs: seq<seq<Gf>>)
    requires |ds| == |xs| && Distinct(xs) && 0 !in xs
    requires forall i :: 0 <= i < |ds| ==> |ds[i]| == |secret|
    requires Drawn(coeffs, |secret|, |xs| + 1)
    ensures (forall i :: 0 <= i < |xs| ==> ShareData(secret, coeffs, xs[i]) == ds[i])
      <==> coeffs == WholeExplanation(secret, xs, ds)
  {
    hide ShareData, WholeExplanation, Distinct;
    forall j: nat | j < |secret|
      ensures (forall i :: 0 <= i < |xs| ==> ShareData(secret, coeffs, xs[i])[j] == ds[i][j])
        <==> coeffs[j] == WholeExplanation(secret, xs, ds)[j]
    {
      ExplanationColumn(secret, xs, ds, coeffs, j);
    }
    if coeffs == WholeExplanation(secret, xs, ds) {
      forall i | 0 <= i < |xs|
        ensures ShareData(secret, coeffs, xs[i]) == ds[i]
      {
        forall j: nat | j < |secret|
          ensures ShareData(secret, coeffs, xs[i])[j] == ds[i][j]
        {
          assert coeffs[j] == WholeExplanation(secret, xs, ds)[j];
        }
      }
    }
  }

  ghost function Datas(ss: seq<Share>): (ds: seq<seq<Gf>>)
    ensures |ds| == |ss|
  {
    seq(|ss|, k requires 0 <= k < |ss| => ss[k].data)
  }

  lemma SameFile(a: Share, b: Share)
    requires FitsFormat(a) && FitsFormat(b)
    ensures FileOf(a) == FileOf(b) <==> a == b
  {
    hide FileOf;
    FileLayout(a);
    FileLayout(b);
  }

  lemma GenuineFits(hash: Hash, setId: seq<Gf>, secret: seq<Gf>, t: nat, coeffs: seq<seq<Gf>>, i: nat)
    requires WellSized(hash) && |setId| == 16 && i < MAX_SHARES && t < 256 && |coeffs| == |secret|
    ensures var s := ShareAt(hash, setId, secret, t, coeffs, i);
      FitsFormat(s) && s.index == ToByte(i + 1) && s.digest == hash(secret) && s.data == ShareData(secret, coeffs, s.index)
      && |s.data| == |secret|
  {
    hide ShareData;
  }

  /** The header of a share file carries the digest of the secret, so even one file tells two secrets
      with different digests apart, whatever coefficients were drawn: it confirms a guess. */
  lemma OneFileConfirms(hash: Hash, setId: seq<Gf>, t: nat, i: nat, secret: seq<Gf>, coeffs: seq<seq<Gf>>,
      other: seq<Gf>, draws: seq<seq<Gf>>)
    requires WellSized(hash) && |setId| == 16 && i < MAX_SHARES && t < 256
    requires |coeffs| == |secret| && |draws| == |other| && hash(other) != hash(secret)
    ensures FileOf(ShareAt(hash, setId, secret, t, coeffs, i)) != FileOf(ShareAt(hash, setId, other, t, draws, i))
  {
    hide FileOf, ShareAt, FitsFormat;
    GenuineFits(hash, setId, secret, t, coeffs, i);
    GenuineFits(hash, setId, other, t, draws, i);
    SameFile(ShareAt(hash, setId, secret, t, coeffs, i), ShareAt(hash, setId, other, t, draws, i));
  }

  /** What t - 1 whole share files say: exactly the secret's length and its digest. A secret could have
      made them if and only if it has both, and then with exactly one draw of the coefficients. */
  lemma FewFilesAgreeIff(hash: Hash, setId: seq<Gf>, t: nat, chosen: seq<nat>, secret: seq<Gf>, coeffs: seq<seq<Gf>>,
      other: seq<Gf>, draws: seq<seq<Gf>>)
    requires WellSized(hash) && |setId| == 16 && MIN_THRESHOLD <= t <= MAX_THRESHOLD
    requires |chosen| == t - 1 && ChosenFrom(chosen, MAX_SHARES)
    requires Drawn(coeffs, |secret|, t) && Drawn(draws, |other|, t)
    ensures var ss := Chosen(hash, setId, secret, t, coeffs, chosen);
      && Distinct(Indices(ss)) && 0 !in Indices(ss) && (forall k :: 0 <= k < |ss| ==> |Datas(ss)[k]| == |secret|)
      && (Files(Chosen(hash, setId, other, t, draws, chosen)) == Files(ss) <==>
            && |other| == |secret| && hash(other) == hash(secret)
            && draws == WholeExplanation(other, Indices(ss), Datas(ss)))
  {
    hide FileOf, ShareAt, FitsFormat, ShareData, WholeExplanation;
    var ss, os := Chosen(hash, setId, secret, t, coeffs, chosen), Chosen(hash, setId, other, t, draws, chosen);
    forall k | 0 <= k < |chosen|
      ensures ss[k].index == ToByte(chosen[k] + 1) && |Datas(ss)[k]| == |secret| && |os[k].data| == |other|
      ensures os[k].data == ShareData(other, draws, Indices(ss)[k])
      ensures Files(os)[k] == Files(ss)[k] <==> hash(other) == hash(secret) && os[k].data == Datas(ss)[k]
    {
      GenuineFits(hash, setId, secret, t, coeffs, chosen[k]);
      GenuineFits(hash, setId, other, t, draws, chosen[k]);
      SameShare(hash, setId, t, secret, coeffs, other, draws, chosen[k]);
    }
    ChosenIndices(chosen, ss);
    if Files(os) == Files(ss) {
      assert Files(os)[0] == Files(ss)[0] && |os[0].data| == |Datas(ss)[0]|;
      assert forall k :: 0 <= k < |chosen| ==> Files(os)[k] == Files(ss)[k];
      FewSharesSayNothing(other, Indices(ss), Datas(ss), draws);
    }
    if |other| == |secret| && hash(other) == hash(secret) && draws == WholeExplanation(other, Indices(ss), Datas(ss)) {
      FewSharesSayNothing(other, Indices(ss), Datas(ss), draws);
      forall k | 0 <= k < |chosen|
        ensures Files(os)[k] == Files(ss)[k]
      {
        assert ShareData(other, draws, Indices(ss)[k]) == Datas(ss)[k];
      }
    }
  }

  lemma SameShare(hash: Hash, setId: seq<Gf>, t: nat, secret: seq<Gf>, coeffs: seq<seq<Gf>>, other: seq<Gf>,
      draws: seq<seq<Gf>>, i: nat)
    requires WellSized(hash) && |setId| == 16 && i < MAX_SHARES && t < 256 && |coeffs| == |secret| && |draws| == |other|
    ensures var (a, b) := (ShareAt(hash, setId, secret, t, coeffs, i), ShareAt(hash, setId, other, t, draws, i));
      FileOf(b) == FileOf(a) <==> hash(other) == hash(secret) && b.data == a.data
  {
    hide FileOf, ShareData;
    SameFile(ShareAt(hash, setId, other, t, draws, i), ShareAt(hash, setId, secret, t, coeffs, i));
  }

  lemma ChosenIndices(chosen: seq<nat>, ss: seq<Share>)
    requires |chosen| == |ss| && ChosenFrom(chosen, MAX_SHARES)
    requires forall k :: 0 <= k < |ss| ==> ss[k].index == ToByte(chosen[k] + 1)
    ensures Distinct(Indices(ss)) && 0 !in Indices(ss)
  {
    hide ToByte;
    forall k | 0 <= k < |ss|
      ensures Indices(ss)[k] != 0
    {
      SameByte(ToByte(chosen[k] + 1), 0);
    }
    forall i, k | 0 <= i < k < |ss|
      ensures Indices(ss)[i] != Indices(ss)[k]
    {
      SameByte(ToByte(chosen[i] + 1), ToByte(chosen[k] + 1));
    }
  }
}
