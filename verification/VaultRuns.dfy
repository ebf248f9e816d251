/** Whole runs of vault commands: the container refines a map from passphrases to named contents. */
module VaultRuns {
  import opened Common
  import opened Framing
  import opened Vault
  import opened VaultCommands
  import opened VaultDir
  import opened VaultSlot

  type Name = seq<byte>
  type Model = map<Pass, map<Name, seq<byte>>>

  /** A command on the volume of `pass` that keeps the volumes of `keeps`. */
  datatype Command =
    | Create(pass: Pass, keeps: seq<Pass>)
    | AddOne(pass: Pass, req: Request, keeps: seq<Pass>)
    | RemoveOne(pass: Pass, name: Name, keeps: seq<Pass>)
    | Rekey(pass: Pass, newPass: Pass, keeps: seq<Pass>)

  ghost function Execute(v: Env, img: seq<byte>, cmd: Command, rnd: Random): Result<seq<byte>>
    requires Exact(v.c.aead) && Drawn(rnd, |img|)
  {
    match cmd
    case Create(p, ks) => CreateIn(v, img, p, ks, rnd)
    case AddOne(p, req, ks) => Add(v, img, p, req, ks, rnd)
    case RemoveOne(p, name, ks) => Remove(v, img, p, name, ks, rnd)
    case Rekey(p, q, ks) => ChangePass(v, img, p, q, ks, rnd)
  }

  /** The container file after a command: replaced when it was accepted, untouched when refused. */
  ghost function After(v: Env, img: seq<byte>, cmd: Command, rnd: Random): seq<byte>
    requires Exact(v.c.aead) && Drawn(rnd, |img|)
  {
    match Execute(v, img, cmd, rnd)
    case Ok(next) => next
    case Err(_) => img
  }

  /** The passphrases a command is given besides a new one. */
  function Given(cmd: Command): set<Pass>
  {
    (set k | k in cmd.keeps) + if cmd.Create? then {} else {cmd.pass}
  }

  /** The volume the command leaves changed, and what it then holds. */
  function Changed(m: Model, cmd: Command): (Pass, map<Name, seq<byte>>)
    requires Given(cmd) <= m.Keys
  {
    match cmd
    case Create(p, _) => (p, map[])
    case AddOne(p, req, _) => (p, m[p][req.name := req.content])
    case RemoveOne(p, name, _) => (p, m[p] - {name})
    case Rekey(p, q, _) => (q, m[p])
  }

  /** The model after an accepted command: the kept volumes and the changed one; all others are gone. */
  function Update(m: Model, cmd: Command): Model
    requires Given(cmd) <= m.Keys
  {
    var (p, held) := Changed(m, cmd);
    (map k | k in cmd.keeps :: m[k])[p := held]
  }

  /** The container answers every lookup under p as `held` does. */
  ghost predicate Holds(v: Env, img: seq<byte>, p: Pass, held: map<Name, seq<byte>>)
  {
    && OpenVolume(v, img, p).Some?
    && DistinctNames(OpenVolume(v, img, p).value.0.entries)
    && forall name: Name :: Lookup(v, img, p, name) == if name in held then Some(held[name]) else None
  }

  ghost predicate Matches(v: Env, img: seq<byte>, m: Model)
  {
    forall p :: p in m ==> Holds(v, img, p, m[p])
  }

  lemma KeptHolds(v: Env, img: seq<byte>, cmd: Command, rnd: Random, k: Pass, held: map<Name, seq<byte>>)
    requires Exact(v.c.aead) && Drawn(rnd, |img|) && |img| <= MAX_OFFSET && CostInRange(v)
    requires Execute(v, img, cmd, rnd).Ok? && k in cmd.keeps && Holds(v, img, k, held)
    ensures |Execute(v, img, cmd, rnd).value| == |img|
    ensures Holds(v, Execute(v, img, cmd, rnd).value, k, held)
  {
    hide OpenVolume, Lookup, Mutate, Drawn, CostInRange, DistinctNames, AddPlan, BlobsFit, Find;
    var after := Execute(v, img, cmd, rnd).value;
    var target := Target(v, img, cmd, rnd);
    forall name: Name
      ensures Lookup(v, after, k, name) == if name in held then Some(held[name]) else None
    {
      MutateKeeps(v, img, target, cmd.keeps, rnd, k, name);
    }
    MutateKeeps(v, img, target, cmd.keeps, rnd, k, []);
  }

  /** Every accepted command is one rewrite. */
  lemma Target(v: Env, img: seq<byte>, cmd: Command, rnd: Random) returns (target: Plan)
    requires Exact(v.c.aead) && Drawn(rnd, |img|) && Execute(v, img, cmd, rnd).Ok?
    ensures BlobsFit(target)
    ensures Execute(v, img, cmd, rnd) == Mutate(v, img, target, cmd.keeps, rnd)
  {
    hide OpenVolume, Mutate, Drawn, AddPlan, Find;
    match cmd
    case Create(p, _) => target := Plan(p, p, Dir([], []), map[]);
    case AddOne(p, req, ks) => target := AddPlan(v, img, p, req, ks, rnd).value;
    case RemoveOne(p, name, _) =>
      var dir := OpenVolume(v, img, p).value.0;
      target := Plan(p, p, dir.(entries := RemoveAt(dir.entries, Find(dir.entries, name).value)), map[]);
    case Rekey(p, q, _) => target := Plan(q, p, OpenVolume(v, img, p).value.0, map[]);
  }

  lemma ChangedHolds(v: Env, img: seq<byte>, m: Model, cmd: Command, rnd: Random)
    requires Exact(v.c.aead) && Drawn(rnd, |img|) && |img| <= MAX_OFFSET && CostInRange(v)
    requires Execute(v, img, cmd, rnd).Ok? && Given(cmd) <= m.Keys && Matches(v, img, m)
    ensures var (p, held) := Changed(m, cmd);
      Holds(v, Execute(v, img, cmd, rnd).value, p, held)
  {
    hide OpenVolume, Lookup, Drawn, CostInRange, DistinctNames, CreateIn, Add, Remove, ChangePass;
    var after := Execute(v, img, cmd, rnd).value;
    var (p, held) := Changed(m, cmd);
    if !cmd.Create? {
      assert cmd.pass in Given(cmd);
      assert Holds(v, img, cmd.pass, m[cmd.pass]);
    }
    forall name: Name
      ensures Lookup(v, after, p, name) == if name in held then Some(held[name]) else None
    {
      ChangedName(v, img, m, cmd, rnd, name);
    }
    ChangedName(v, img, m, cmd, rnd, []);
  }

  lemma ChangedName(v: Env, img: seq<byte>, m: Model, cmd: Command, rnd: Random, name: Name)
    requires Exact(v.c.aead) && Drawn(rnd, |img|) && |img| <= MAX_OFFSET && CostInRange(v)
    requires Execute(v, img, cmd, rnd).Ok? && Given(cmd) <= m.Keys
    requires cmd.Create? || (cmd.pass in m && Holds(v, img, cmd.pass, m[cmd.pass]))
    ensures var (p, held) := Changed(m, cmd);
      var after := Execute(v, img, cmd, rnd).value;
      && OpenVolume(v, after, p).Some?
      && DistinctNames(OpenVolume(v, after, p).value.0.entries)
      && Lookup(v, after, p, name) == if name in held then Some(held[name]) else None
  {
    hide OpenVolume, Lookup, Drawn, CostInRange, DistinctNames, CreateIn, Add, Remove, ChangePass;
    match cmd
    case Create(p, ks) =>
      CreateInRefines(v, img, p, ks, rnd, name);
      NoNames();
    case AddOne(p, req, ks) => AddRefines(v, img, p, req, ks, rnd, name);
    case RemoveOne(p, gone, ks) => RemoveRefines(v, img, p, gone, ks, rnd, name);
    case Rekey(p, q, ks) => ChangePassRefines(v, img, p, q, ks, rnd, name);
  }

  lemma NoNames()
    ensures DistinctNames([])
  {
  }

  /** One command: the container after it matches the model after it, or both are as before. */
  lemma StepRefines(v: Env, img: seq<byte>, m: Model, cmd: Command, rnd: Random)
    requires Exact(v.c.aead) && Drawn(rnd, |img|) && |img| <= MAX_OFFSET && CostInRange(v)
    requires Matches(v, img, m) && Given(cmd) <= m.Keys
    ensures |After(v, img, cmd, rnd)| == |img|
    ensures Matches(v, After(v, img, cmd, rnd), if Execute(v, img, cmd, rnd).Ok? then Update(m, cmd) else m)
  {
    hide Execute, Drawn, CostInRange, Holds;
    if Execute(v, img, cmd, rnd).Ok? {
      var after := Execute(v, img, cmd, rnd).value;
      var (p, held) := Changed(m, cmd);
      SameSize(v, img, cmd, rnd);
      ChangedHolds(v, img, m, cmd, rnd);
      forall k | k in Update(m, cmd)
        ensures Holds(v, after, k, Update(m, cmd)[k])
      {
        if k != p {
          assert k in Given(cmd);
          KeptHolds(v, img, cmd, rnd, k, m[k]);
        }
      }
    }
  }

  lemma SameSize(v: Env, img: seq<byte>, cmd: Command, rnd: Random)
    requires Exact(v.c.aead) && Drawn(rnd, |img|) && Execute(v, img, cmd, rnd).Ok?
    ensures |Execute(v, img, cmd, rnd).value| == |img|
  {
    hide Execute, Drawn, BlobsFit;
    var target := Target(v, img, cmd, rnd);
  }

  /** The container and the model after a run of commands; `draws` are the commands' random bytes. */
  ghost function RunAll(v: Env, img: seq<byte>, m: Model, cmds: seq<Command>, draws: seq<Random>): (r: (seq<byte>, Option<Model>))
    requires Exact(v.c.aead) && |draws| == |cmds| && forall k :: 0 <= k < |draws| ==> Drawn(draws[k], |img|)
    ensures |r.0| == |img|
  {
    if |cmds| == 0 then (img, Some(m))
    else
      var n := |cmds| - 1;
      var (now, model) := RunAll(v, img, m, cmds[..n], draws[..n]);
      assert Drawn(draws[n], |img|);
      if Execute(v, now, cmds[n], draws[n]).Ok? then
        SameSize(v, now, cmds[n], draws[n]);
        (After(v, now, cmds[n], draws[n]),
         if model.Some? && Given(cmds[n]) <= model.value.Keys then Some(Update(model.value, cmds[n])) else None)
      else (now, model)
  }

  /** Over any run of commands that are only given passphrases of volumes in the model, the container
      keeps answering as the model does, refused commands changing neither. */
  lemma {:induction false} RunRefines(v: Env, img: seq<byte>, m: Model, cmds: seq<Command>, draws: seq<Random>)
    requires Exact(v.c.aead) && |draws| == |cmds| && forall k :: 0 <= k < |draws| ==> Drawn(draws[k], |img|)
    requires |img| <= MAX_OFFSET && CostInRange(v) && Matches(v, img, m)
    ensures var (now, model) := RunAll(v, img, m, cmds, draws);
      model.Some? ==> Matches(v, now, model.value)
  {
    hide Execute, Drawn, CostInRange, Matches;
    if |cmds| > 0 {
      var n := |cmds| - 1;
      RunRefines(v, img, m, cmds[..n], draws[..n]);
      var (now, model) := RunAll(v, img, m, cmds[..n], draws[..n]);
      if model.Some? && Given(cmds[n]) <= model.value.Keys {
        StepRefines(v, now, model.value, cmds[n], draws[n]);
      }
    }
  }
}
