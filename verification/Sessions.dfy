/** Whole sessions of the machine: file system operations in memory, interleaved with saves,
    loads and installations that may break off part-way. */
module Sessions {
  import opened Bytes
  import opened Table
  import opened PathMap
  import opened Refinement
  import opened Listing
  import Runs
  import opened Image
  import opened DiskLayout

  /** A table and the version of the image it was saved in. */
  datatype Saved = Nothing | Copy(nodes: Nodes, version: int)

  /** The table in memory, the disk, and the table that a complete save put there: nothing when
      there is no such save, or a later one broke off after writing something. */
  datatype Machine = Machine(mem: Nodes, disk: Sectors, saved: Saved)

  datatype Action =
    | Operate(op: Runs.Op)
    | SaveFs(ok: bool)
    | LoadFs(ok: bool)
    | InstallSystem(ok: bool, kernel: seq<byte>, entry: nat, boot: seq<byte>)

  /** One action, as the contracts of the file system and the disk driver describe it. Anything
      may be tried at any time; that the operations are defined is not assumed but proved. Only of
      an image that no save is known to have made it is assumed that what it decodes to is a tree,
      because `fs_deserialize` does not check its parent links. */
  ghost predicate Next(m: Machine, a: Action, n: Machine) {
    match a
    case Operate(op) =>
      && (Shape(m.mem) ==> Runs.Ready(m.mem, op) && n.mem == Runs.Apply(m.mem, op))
      && n.disk == m.disk && n.saved == m.saved
    case SaveFs(ok) =>
      && (AllFit(m.mem) && |m.mem| < 0x1_0000_0000 ==> SaveEffect(m.disk, n.disk, ok, Encode(m.mem, 2)))
      && n.mem == m.mem
      && n.saved == if ok then Copy(m.mem, 2) else if n.disk == m.disk then m.saved else Nothing
    case LoadFs(ok) =>
      && (|m.mem| >= 1 ==> LoadEffect(m.disk, m.mem, ok, n.mem))
      && (ok && m.saved.Nothing? ==> Tree(n.mem) && |n.mem| == |m.mem|)
      && n.disk == m.disk && n.saved == m.saved
    case InstallSystem(ok, kernel, entry, boot) =>
      && InstallEffect(m.disk, n.disk, ok, kernel, entry, boot)
      && n.mem == m.mem && n.saved == m.saved
  }

  ghost predicate Session(ms: seq<Machine>, acts: seq<Action>) {
    |ms| == |acts| + 1 && forall k :: 0 <= k < |acts| ==> Next(ms[k], acts[k], ms[k + 1])
  }

  /** The disk holds a complete save of the table `saved` names. */
  ghost predicate Holds(disk: Sectors, saved: Saved, n: nat) {
    saved.Copy? ==>
      && |saved.nodes| == n < 0x8000_0000 && Tree(saved.nodes) && AllFit(saved.nodes) && 1 <= saved.version <= 2
      && DiskLayout.Stored(disk, Encode(saved.nodes, saved.version))
  }

  /** What every machine state keeps. */
  ghost predicate Sound(m: Machine, n: nat) {
    1 <= n < 0x8000_0000 && |m.mem| == n && Tree(m.mem) && Holds(m.disk, m.saved, n)
  }

  lemma LoadGivesSaved(m: Machine, n: nat)
    requires Sound(m, n) && m.saved.Copy?
    ensures LoadOf(m.disk, n) == Loaded(Restored(m.saved.nodes, m.saved.version))
    ensures Tree(Restored(m.saved.nodes, m.saved.version))
  {
    SaveThenLoad(m.disk, m.saved.nodes, m.saved.version);
    RestoredIsTree(m.saved.nodes, m.saved.version);
  }

  lemma NextIsSound(m: Machine, a: Action, m': Machine, n: nat)
    requires Sound(m, n) && Next(m, a, m')
    ensures Sound(m', n)
  {
    match a
    case Operate(op) => Runs.ApplyKeepsTree(m.mem, op);
    case SaveFs(ok) => ShapeFits(m.mem);
    case LoadFs(ok) =>
      Runs.InitIsTree(n);
      if m.saved.Copy? { LoadGivesSaved(m, n); }
    case InstallSystem(_, _, _, _) =>
      if m.saved.Copy? { StoredFrame(m.disk, m'.disk, Encode(m.saved.nodes, m.saved.version)); }
  }

  lemma {:induction false} SessionIsSound(ms: seq<Machine>, acts: seq<Action>, n: nat, k: nat)
    requires Session(ms, acts) && Sound(ms[0], n) && k <= |acts|
    ensures Sound(ms[k], n)
  {
    if k > 0 {
      SessionIsSound(ms, acts, n, k - 1);
      NextIsSound(ms[k - 1], acts[k - 1], ms[k], n);
    }
  }

  /** Action `k` is no save, or one that failed before it wrote anything. */
  predicate WroteNoSave(ms: seq<Machine>, acts: seq<Action>, k: int)
    requires 0 <= k < |acts| < |ms|
  {
    acts[k].SaveFs? ==> !acts[k].ok && ms[k + 1].disk == ms[k].disk
  }

  /** No save writes from action `j` on. */
  predicate NoSaveFrom(ms: seq<Machine>, acts: seq<Action>, j: nat)
    requires |acts| < |ms|
  {
    forall k :: j <= k < |acts| ==> WroteNoSave(ms, acts, k)
  }

  lemma {:induction false} SavedStays(ms: seq<Machine>, acts: seq<Action>, j: nat, k: nat)
    requires Session(ms, acts) && j <= k <= |acts| && NoSaveFrom(ms, acts, j)
    ensures ms[k].saved == ms[j].saved
  {
    if k > j {
      SavedStays(ms, acts, j, k - 1);
      assert Next(ms[k - 1], acts[k - 1], ms[k]) && WroteNoSave(ms, acts, k - 1);
    }
  }

  predicate EndsWithLoad(acts: seq<Action>) {
    acts != [] && acts[|acts| - 1] == LoadFs(true)
  }

  /** A final load gives what a complete save left on the disk, however long before, slot by slot. */
  lemma FinalLoad(ms: seq<Machine>, acts: seq<Action>, n: nat, j: nat)
    requires Session(ms, acts) && Sound(ms[0], n) && EndsWithLoad(acts)
    requires j < |acts| && NoSaveFrom(ms, acts, j) && ms[j].saved.Copy?
    ensures Tree(ms[j].saved.nodes) && |ms[j].saved.nodes| == n
    ensures ms[|acts|].mem == Restored(ms[j].saved.nodes, ms[j].saved.version)
  {
    var last := |acts| - 1;
    assert Next(ms[last], acts[last], ms[last + 1]);
    SessionIsSound(ms, acts, n, j);
    SessionIsSound(ms, acts, n, last);
    SavedStays(ms, acts, j, last);
    LoadGivesSaved(ms[last], n);
  }

  /** How the kernel starts: `fs_init`, on any disk, which may hold a complete save from before,
      of the present version or of version 1. */
  ghost predicate Started(m: Machine, n: nat) {
    1 <= n < 0x8000_0000 && m.mem == InitNodes(n) && Holds(m.disk, m.saved, n)
  }

  /** In a session that ends with a load, action `j` is the last save that wrote, and succeeded. */
  predicate LastSave(ms: seq<Machine>, acts: seq<Action>, j: int)
    requires |acts| < |ms|
  {
    0 <= j < |acts| - 1 && acts[j] == SaveFs(true) && NoSaveFrom(ms, acts, j + 1)
  }

  /** Every session from the start, the load at boot included, whether it succeeds or not: the
      table is always a tree whose listings cover its nodes. When the session ends with a
      successful load, the table is slot by slot that of the last save, or, when the session did
      not save, that of the save before it; only root's owner and mode are reset, and a version 1
      image gives default rights. */
  lemma EverySession(ms: seq<Machine>, acts: seq<Action>, n: nat)
    requires Session(ms, acts) && Started(ms[0], n)
    ensures var t := ms[|acts|].mem;
      && Tree(t) && |t| == n
      && (forall i: nat :: Runs.WellPlaced(t, i))
      && CountBelow(t, n) == |LiveSet(t)| - 1
    ensures forall j :: EndsWithLoad(acts) && LastSave(ms, acts, j) ==>
      && Tree(ms[j].mem) && |ms[j].mem| == n
      && ms[|acts|].mem == Reloaded(ms[j].mem)
      && Abs(ms[|acts|].mem) == Abs(ms[j].mem)[[] := Dir(0, DIR_MODE)]
    ensures EndsWithLoad(acts) && NoSaveFrom(ms, acts, 0) && ms[0].saved.Copy? ==>
      ms[|acts|].mem == Restored(ms[0].saved.nodes, ms[0].saved.version)
  {
    Runs.InitIsTree(n);
    SessionIsSound(ms, acts, n, |acts|);
    var t := ms[|acts|].mem;
    forall i: nat ensures Runs.WellPlaced(t, i) { Runs.TreeIsWellPlaced(t, i); }
    CountsSumToLive(t);
    forall j | EndsWithLoad(acts) && LastSave(ms, acts, j)
      ensures Tree(ms[j].mem) && |ms[j].mem| == n && t == Reloaded(ms[j].mem)
      ensures Abs(t) == Abs(ms[j].mem)[[] := Dir(0, DIR_MODE)]
    {
      SessionIsSound(ms, acts, n, j);
      assert Next(ms[j], acts[j], ms[j + 1]);
      FinalLoad(ms, acts, n, j + 1);
      ReloadedIsTree(ms[j].mem);
    }
    if EndsWithLoad(acts) && NoSaveFrom(ms, acts, 0) && ms[0].saved.Copy? {
      FinalLoad(ms, acts, n, 0);
    }
  }
}
