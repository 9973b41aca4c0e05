/** The store directory as a value, the effects a store has on it, and where a crash can cut them.
    Replacing a file and publishing CURRENT are all or nothing; an append may leave any prefix. */
module Disks {
  import opened Bytes
  import opened Collections

  datatype FileName = SnapshotFile(number: nat) | LogFile(number: nat)

  /** The CURRENT file: which snapshot (0 for none) and which log segment are live. */
  datatype Pointer = Pointer(snapshot: nat, log: nat)

  datatype Disk = Disk(files: map<FileName, seq<Byte>>, current: Option<Pointer>)

  datatype Effect =
    | Append(name: FileName, bytes: seq<Byte>)
    | Replace(name: FileName, bytes: seq<Byte>)
    | Publish(pointer: Pointer)
    | Remove(name: FileName)

  function FileBytes(d: Disk, name: FileName): seq<Byte> {
    if name in d.files then d.files[name] else []
  }

  function Perform(d: Disk, e: Effect): Disk {
    match e
    case Append(name, bytes) => d.(files := d.files[name := FileBytes(d, name) + bytes])
    case Replace(name, bytes) => d.(files := d.files[name := bytes])
    case Publish(pointer) => d.(current := Some(pointer))
    case Remove(name) => d.(files := d.files - {name})
  }

  function PerformAll(d: Disk, es: seq<Effect>): Disk
    decreases |es|
  {
    if es == [] then d else PerformAll(Perform(d, es[0]), es[1..])
  }

  /** The disk after `k` whole effects and, when an append was in flight, `n` of its bytes. */
  function CrashAt(d: Disk, es: seq<Effect>, k: nat, n: nat): Disk
    requires k <= |es|
  {
    var done := PerformAll(d, es[..k]);
    if k < |es| && es[k].Append? && n <= |es[k].bytes|
    then Perform(done, Append(es[k].name, es[k].bytes[..n]))
    else done
  }

  ghost predicate CrashedWithin(d: Disk, es: seq<Effect>, after: Disk) {
    exists k: nat, n: nat :: k <= |es| && after == CrashAt(d, es, k, n)
  }

  // ---------------------------------------------------------------------
  // Composition
  // ---------------------------------------------------------------------

  lemma {:induction false} PerformTwice(d: Disk, a: seq<Effect>, b: seq<Effect>)
    ensures PerformAll(d, a + b) == PerformAll(PerformAll(d, a), b)
    decreases |a|
  {
    hide Perform;
    if a == [] {
      assert a + b == b;
    } else {
      assert (a + b)[1..] == a[1..] + b;
      PerformTwice(Perform(d, a[0]), a[1..], b);
    }
  }

  lemma PerformOne(d: Disk, e: Effect)
    ensures PerformAll(d, [e]) == Perform(d, e)
  {
    hide Perform;
    assert [e][1..] == [];
  }

  lemma CrashedEarlier(d: Disk, a: seq<Effect>, b: seq<Effect>, after: Disk)
    requires CrashedWithin(d, a, after)
    ensures CrashedWithin(d, a + b, after)
  {
    hide Perform, PerformAll;
    var k: nat, n: nat :| k <= |a| && after == CrashAt(d, a, k, n);
    assert (a + b)[..k] == a[..k];
    if k < |a| {
      assert after == CrashAt(d, a + b, k, n);
    } else if b != [] && b[0].Append? {
      assert after == CrashAt(d, a + b, k, |b[0].bytes| + 1);
    } else {
      assert after == CrashAt(d, a + b, k, n);
    }
  }

  lemma CrashedLater(d: Disk, a: seq<Effect>, b: seq<Effect>, after: Disk)
    requires CrashedWithin(PerformAll(d, a), b, after)
    ensures CrashedWithin(d, a + b, after)
  {
    hide Perform, PerformAll;
    var k: nat, n: nat :| k <= |b| && after == CrashAt(PerformAll(d, a), b, k, n);
    assert (a + b)[..|a| + k] == a + b[..k];
    PerformTwice(d, a, b[..k]);
    assert after == CrashAt(d, a + b, |a| + k, n);
  }

  // ---------------------------------------------------------------------
  // The file helpers
  // ---------------------------------------------------------------------

  /** The file system under a store. Each helper may be where the process dies. */
  class FileSystem {
    var disk: Disk

    constructor (d: Disk)
      ensures disk == d
    {
      disk := d;
    }

    /** Replaces a file through a temporary sibling. */
    method WriteAtomic(name: FileName, bytes: seq<Byte>) returns (alive: bool)
      modifies this
      ensures alive ==> disk == Perform(old(disk), Replace(name, bytes))
      ensures !alive ==> CrashedWithin(old(disk), [Replace(name, bytes)], disk)
    {
      alive := *;
      var renamed := alive;
      if * { renamed := true; }
      if renamed { disk := disk.(files := disk.files[name := bytes]); }
      Cut(old(disk), Replace(name, bytes), disk, if renamed then 1 else 0, 0);
    }

    /** Replaces the CURRENT file through a temporary sibling. */
    method WritePointer(pointer: Pointer) returns (alive: bool)
      modifies this
      ensures alive ==> disk == Perform(old(disk), Publish(pointer))
      ensures !alive ==> CrashedWithin(old(disk), [Publish(pointer)], disk)
    {
      alive := *;
      var renamed := alive;
      if * { renamed := true; }
      if renamed { disk := disk.(current := Some(pointer)); }
      Cut(old(disk), Publish(pointer), disk, if renamed then 1 else 0, 0);
    }

    method AppendDurable(name: FileName, bytes: seq<Byte>) returns (alive: bool)
      modifies this
      ensures alive ==> disk == Perform(old(disk), Append(name, bytes))
      ensures !alive ==> CrashedWithin(old(disk), [Append(name, bytes)], disk)
    {
      alive := *;
      var written: nat := |bytes|;
      if !alive { written :| 0 <= written <= |bytes|; }
      assert bytes[..|bytes|] == bytes;
      disk := disk.(files := disk.files[name := FileBytes(disk, name) + bytes[..written]]);
      Cut(old(disk), Append(name, bytes), disk, 0, written);
    }

    method RemoveIfPresent(name: FileName) returns (alive: bool)
      modifies this
      ensures alive ==> disk == Perform(old(disk), Remove(name))
      ensures !alive ==> CrashedWithin(old(disk), [Remove(name)], disk)
    {
      alive := *;
      var removed := alive;
      if * { removed := true; }
      if removed { disk := disk.(files := disk.files - {name}); }
      Cut(old(disk), Remove(name), disk, if removed then 1 else 0, 0);
    }
  }

  lemma Cut(d: Disk, e: Effect, after: Disk, k: nat, n: nat)
    requires k <= 1
    requires after == if k == 1 then Perform(d, e)
                      else if e.Append? && n <= |e.bytes| then Perform(d, Append(e.name, e.bytes[..n])) else d
    ensures CrashedWithin(d, [e], after)
  {
    hide Perform;
    PerformOne(d, e);
    assert [e][..1] == [e] && [e][..0] == [];
    assert after == CrashAt(d, [e], k, n);
  }
}
