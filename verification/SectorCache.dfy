/** The write-back sector cache of device.cpp over a flat device. */
module SectorCache {
  import opened Base
  import opened Device
  import opened Lru

  // ----- the cache as a value -----

  datatype Line = Line(value: seq<byte>, dirty: bool)

  /** Cached lines, most recently used first, and the device below. */
  datatype CacheState = CacheState(lines: seq<(nat, Line)>, disk: Image)

  /** A line that is not dirty agrees with the device. */
  predicate Backed(x: (nat, Line), disk: Image) {
    && x.0 < |disk| && |x.1.value| == |disk[x.0]|
    && (!x.1.dirty ==> x.1.value == disk[x.0])
  }

  predicate AllBacked(lines: seq<(nat, Line)>, disk: Image) {
    forall i :: 0 <= i < |lines| ==> Backed(lines[i], disk)
  }

  predicate ValidState(c: CacheState, max: nat) {
    && 0 < max && |c.lines| <= max && DistinctKeys(c.lines)
    && AllBacked(c.lines, c.disk)
  }

  /** The flat sector map that cache and device together stand for. */
  function View(c: CacheState): (r: Image)
    ensures |r| == |c.disk|
    ensures forall n: nat :: n < |r| ==> r[n] == Seen(c, n)
  {
    seq(|c.disk|, n requires 0 <= n < |c.disk| => Seen(c, n))
  }

  function Seen(c: CacheState, n: nat): seq<byte>
    requires n < |c.disk|
  {
    match Find(c.lines, n)
    case Some(l) => l.value
    case None => c.disk[n]
  }

  /** What the destructor of a sector does to the device. */
  function Synced(disk: Image, x: (nat, Line)): (r: Image)
    requires x.0 < |disk|
    ensures |r| == |disk|
  {
    if x.1.dirty then disk[x.0 := x.1.value] else disk
  }

  /** `readSector(n)`: a hit moves the line to the front, a miss loads it and may push the last line out. */
  function Read(c: CacheState, n: nat, max: nat): (r: CacheState)
    requires ValidState(c, max)
    ensures |r.disk| == |c.disk|
  {
    if n >= |c.disk| then c
    else
      match Find(c.lines, n)
      case Some(l) => c.(lines := [(n, l)] + Erase(c.lines, n))
      case None =>
        var lines := [(n, Line(c.disk[n], false))] + Take(c.lines, max - 1);
        if |c.lines| == max then CacheState(lines, Synced(c.disk, c.lines[max - 1])) else CacheState(lines, c.disk)
  }

  /** The line of sector `n` replaced by `l`. */
  function Replace(lines: seq<(nat, Line)>, n: nat, l: Line): (r: seq<(nat, Line)>)
    ensures |r| == |lines| && forall i :: 0 <= i < |r| ==> r[i] == if lines[i].0 == n then (n, l) else lines[i]
  {
    seq(|lines|, i requires 0 <= i < |lines| => if lines[i].0 == n then (n, l) else lines[i])
  }

  /** Copying into a cached sector through its handle. */
  function CopyHeld(c: CacheState, n: nat, off: nat, data: seq<byte>): CacheState
    requires Find(c.lines, n).Some? && off + |data| <= |Find(c.lines, n).value.value|
  {
    c.(lines := Replace(c.lines, n, Line(Splice(Find(c.lines, n).value.value, off, data), true)))
  }

  /** `sync()` on a cached sector. */
  function SyncHeld(c: CacheState, n: nat): CacheState {
    match Find(c.lines, n)
    case Some(l) =>
      if n < |c.disk| then CacheState(Replace(c.lines, n, Line(l.value, false)), Synced(c.disk, (n, l))) else c
    case None => c
  }

  function SyncedAll(disk: Image, lines: seq<(nat, Line)>): (r: Image)
    requires forall i :: 0 <= i < |lines| ==> lines[i].0 < |disk|
    ensures |r| == |disk|
    decreases |lines|
  {
    if lines == [] then disk else SyncedAll(Synced(disk, lines[0]), lines[1..])
  }

  // ----- refinement of the flat map -----

  lemma ReadKeepsState(c: CacheState, n: nat, max: nat)
    requires ValidState(c, max)
    ensures ValidState(Read(c, n, max), max)
    ensures n < |c.disk| ==>
      var r := Read(c, n, max);
      && KeysOf(r.lines) == Touch(KeysOf(c.lines), n, max)
      && r.lines != [] && r.lines[0].0 == n && r.lines[0].1.value == View(c)[n]
  {
    hide Touch, KeysOf, Erase;
    if n < |c.disk| {
      var r := Read(c, n, max);
      if Find(c.lines, n).Some? {
        Touched(c.lines, n, Find(c.lines, n).value, max);
        FrontIsDistinct(c.lines, n, Find(c.lines, n).value);
        forall i | 0 <= i < |r.lines| ensures Backed(r.lines[i], c.disk) {
          assert r.lines[i] in c.lines;
          var j :| 0 <= j < |c.lines| && c.lines[j] == r.lines[i];
        }
      } else {
        Loaded(c.lines, n, Line(c.disk[n], false), max);
        LoadedIsDistinct(c.lines, n, Line(c.disk[n], false), max);
        MissIsBacked(c, n, max);
      }
    }
  }

  lemma MissIsBacked(c: CacheState, n: nat, max: nat)
    requires ValidState(c, max) && n < |c.disk| && Find(c.lines, n) == None
    ensures AllBacked(Read(c, n, max).lines, Read(c, n, max).disk)
  {
    var r := Read(c, n, max);
    forall i | 0 <= i < |c.lines| ensures c.lines[i].0 != n {
      FindMember(c.lines, i);
    }
    forall i | 0 <= i < |r.lines| ensures Backed(r.lines[i], r.disk) {
      if i > 0 {
        assert r.lines[i] == c.lines[i - 1];
      }
    }
  }

  /** Neither loading a sector nor pushing one out changes what any reader sees. */
  lemma ReadKeepsView(c: CacheState, n: nat, max: nat)
    requires ValidState(c, max)
    ensures View(Read(c, n, max)) == View(c)
  {
    hide Touch, KeysOf, Erase, DistinctKeys;
    if n < |c.disk| {
      var r := Read(c, n, max);
      forall x: nat | x < |c.disk| ensures Seen(r, x) == Seen(c, x) {
        if Find(c.lines, n).Some? {
          TouchedFind(c.lines, n, Find(c.lines, n).value, x);
        } else {
          LoadedFind(c.lines, n, Line(c.disk[n], false), max, x);
        }
      }
    }
  }

  lemma {:induction false} ReplacedFind(lines: seq<(nat, Line)>, n: nat, l: Line, x: nat)
    ensures Find(Replace(lines, n, l), x) == if x == n && Find(lines, n).Some? then Some(l) else Find(lines, x)
  {
    if lines != [] {
      assert Replace(lines, n, l)[1..] == Replace(lines[1..], n, l);
      ReplacedFind(lines[1..], n, l, x);
    }
  }

  lemma ReplacedKeys(lines: seq<(nat, Line)>, n: nat, l: Line)
    ensures KeysOf(Replace(lines, n, l)) == KeysOf(lines)
    ensures DistinctKeys(lines) ==> DistinctKeys(Replace(lines, n, l))
  {
  }

  /** Replacing a line of a valid state by one that its device backs. */
  lemma ReplacedIsValid(c: CacheState, n: nat, l: Line, disk: Image, max: nat)
    requires ValidState(c, max) && Find(c.lines, n).Some? && |disk| == |c.disk|
    requires forall x: nat :: x < |disk| && x != n ==> disk[x] == c.disk[x]
    requires n < |disk| ==> Backed((n, l), disk)
    ensures n < |disk| && ValidState(CacheState(Replace(c.lines, n, l), disk), max)
  {
    hide Find, Replace;
    FoundIsMember(c.lines, n);
    ReplacedKeys(c.lines, n, l);
  }

  lemma CopyUpdatesView(c: CacheState, n: nat, off: nat, data: seq<byte>, max: nat)
    requires ValidState(c, max) && Find(c.lines, n).Some? && off + |data| <= |Find(c.lines, n).value.value|
    ensures ValidState(CopyHeld(c, n, off, data), max)
    ensures n < |c.disk| && off + |data| <= |View(c)[n]| && View(c)[n] == Find(c.lines, n).value.value
    ensures View(CopyHeld(c, n, off, data)) == View(c)[n := Splice(View(c)[n], off, data)]
  {
    hide Find, Replace, Splice, ValidState;
    var l := Find(c.lines, n).value;
    var l' := Line(Splice(l.value, off, data), true);
    FoundIsBacked(c, n, max);
    ReplacedIsValid(c, n, l', c.disk, max);
    forall x: nat | x < |c.disk| ensures Seen(CopyHeld(c, n, off, data),
      x) == View(c)[n := Splice(View(c)[n], off, data)][x] {
      ReplacedFind(c.lines, n, l', x);
    }
  }

  lemma FoundIsBacked(c: CacheState, n: nat, max: nat)
    requires ValidState(c, max) && Find(c.lines, n).Some?
    ensures Backed((n, Find(c.lines, n).value), c.disk)
  {
    FoundIsMember(c.lines, n);
  }

  lemma SyncKeepsView(c: CacheState, n: nat, max: nat)
    requires ValidState(c, max)
    ensures ValidState(SyncHeld(c, n), max) && View(SyncHeld(c, n)) == View(c)
  {
    hide Find, Replace;
    if Find(c.lines, n).Some? {
      var l := Find(c.lines, n).value;
      FoundIsBacked(c, n, max);
      ReplacedIsValid(c, n, Line(l.value, false), Synced(c.disk, (n, l)), max);
      forall x: nat | x < |c.disk| ensures Seen(SyncHeld(c, n), x) == Seen(c, x) {
        ReplacedFind(c.lines, n, Line(l.value, false), x);
      }
    }
  }

  /** A sync brings the device's sector up to date, and no other one; the line is then clean. */
  lemma SyncReachesDevice(c: CacheState, n: nat, max: nat)
    requires ValidState(c, max)
    ensures n < |c.disk| ==> SyncHeld(c, n).disk == c.disk[n := View(c)[n]]
    ensures Find(SyncHeld(c, n).lines, n) == match Find(c.lines, n)
                                             case Some(l) => Some(Line(l.value, false)) case None => None
  {
    hide Find, Replace;
    if Find(c.lines, n).Some? {
      var l := Find(c.lines, n).value;
      FoundIsBacked(c, n, max);
      ReplacedFind(c.lines, n, Line(l.value, false), n);
    }
  }

  lemma {:induction false} SyncedAllIsView(lines: seq<(nat, Line)>, disk: Image)
    requires DistinctKeys(lines) && AllBacked(lines, disk)
    ensures SyncedAll(disk, lines) == View(CacheState(lines, disk))
    decreases |lines|
  {
    var c := CacheState(lines, disk);
    if lines == [] {
    } else {
      var x, rest := lines[0], lines[1..];
      var disk' := Synced(disk, x);
      forall i | 0 <= i < |rest| ensures Backed(rest[i], disk') {
        assert lines[i + 1] == rest[i];
      }
      SyncedAllIsView(rest, disk');
      HeadKeyNotInTail(lines);
      forall n: nat | n < |disk| ensures Seen(CacheState(rest, disk'), n) == Seen(c, n) {
      }
    }
  }

  lemma HeadKeyNotInTail<V>(lines: seq<(nat, V)>)
    requires DistinctKeys(lines) && lines != []
    ensures Find(lines[1..], lines[0].0) == None
  {
    EraseAbsent(lines[1..], lines[0].0);
  }

  // ----- runs -----

  /**
   * `HeldWriteOp` and `SyncOp` go through a handle that an earlier read gave out, wherever its sector now
   * is in the cache.
   */
  datatype Op =
    | ReadOp(n: nat)
    | WriteOp(n: nat, off: nat, data: seq<byte>)
    | HeldWriteOp(n: nat, off: nat, data: seq<byte>)
    | SyncOp(n: nat)
    | ClearOp

  /** A flat device with immediate writes: the new sectors, and the sector that the operation shows. */
  function FlatStep(img: Image, op: Op): (Image, Option<seq<byte>>) {
    match op
    case ReadOp(n) => (img, if n < |img| then Some(img[n]) else None)
    case WriteOp(n, off, data) => FlatWrite(img, n, off, data)
    case HeldWriteOp(n, off, data) => FlatWrite(img, n, off, data)
    case SyncOp(n) => (img, None)
    case ClearOp => (img, None)
  }

  function FlatWrite(img: Image, n: nat, off: nat, data: seq<byte>): (Image, Option<seq<byte>>) {
    if n < |img| && off + |data| <= |img[n]| then (img[n := Splice(img[n], off, data)], Some(img[n])) else (img, None)
  }

  /** The flat device: a store that fits replaces its range, and no other operation changes anything. */
  lemma FlatStepMeans(img: Image, op: Op, x: nat)
    requires x < |img|
    ensures var (after, seen) := FlatStep(img, op);
      var stores := (op.WriteOp? || op.HeldWriteOp?) && op.n == x && op.off + |op.data| <= |img[x]|;
      && |after| == |img|
      && after[x] == (if stores then img[x][..op.off] + op.data + img[x][op.off + |op.data|..] else img[x])
      && (stores || op == ReadOp(x) ==> seen == Some(img[x]))
  {
  }

  function HeldWrite(c: CacheState, n: nat, off: nat, data: seq<byte>): (CacheState, Option<seq<byte>>) {
    match Find(c.lines, n)
    case Some(l) => if off + |data| <= |l.value| then (CopyHeld(c, n, off, data), Some(l.value)) else (c, None)
    case None => (c, None)
  }

  function CacheStep(c: CacheState, max: nat, op: Op): (CacheState, Option<seq<byte>>)
    requires ValidState(c, max)
  {
    match op
    case ReadOp(n) =>
      ReadKeepsState(c, n, max);
      var r := Read(c, n, max);
      (r, if n < |c.disk| then Some(r.lines[0].1.value) else None)
    case WriteOp(n, off, data) => if n < |c.disk| then HeldWrite(Read(c, n, max), n, off, data) else (c, None)
    case HeldWriteOp(n, off, data) => HeldWrite(c, n, off, data)
    case SyncOp(n) => (SyncHeld(c, n), None)
    case ClearOp => (CacheState([], SyncedAll(c.disk, c.lines)), None)
  }

  lemma WriteStep(c: CacheState, max: nat, n: nat, off: nat, data: seq<byte>)
    requires ValidState(c, max)
    ensures CacheStep(c, max, WriteOp(n, off, data)) ==
            if n < |c.disk| then HeldWrite(Read(c, n, max), n, off, data) else (c, None)
  {
  }

  /** The handle that the operation goes through has not outlived the eviction of its sector. */
  predicate HandleLives(c: CacheState, op: Op) {
    op.HeldWriteOp? && op.n < |c.disk| ==> Find(c.lines, op.n).Some?
  }

  lemma FrontIsFound(lines: seq<(nat, Line)>)
    requires lines != []
    ensures Find(lines, lines[0].0) == Some(lines[0].1)
  {
  }

  lemma HeldWriteRefines(c: CacheState, max: nat, n: nat, off: nat, data: seq<byte>)
    requires ValidState(c, max) && (n < |c.disk| ==> Find(c.lines, n).Some?)
    ensures var (r, seen) := HeldWrite(c, n, off, data);
      ValidState(r, max) && View(r) == FlatWrite(View(c), n, off, data).0 && seen == FlatWrite(View(c), n, off, data).1
  {
    hide CopyHeld, ValidState, Find;
    if n >= |c.disk| {
      AbsentPastEnd(c, n, max);
    } else if off + |data| <= |Find(c.lines, n).value.value| {
      CopyUpdatesView(c, n, off, data, max);
    }
  }

  lemma StepRefines(c: CacheState, max: nat, op: Op)
    requires ValidState(c, max)
    ensures var (r, seen) := CacheStep(c, max, op);
      && ValidState(r, max) && |r.disk| == |c.disk|
      && (HandleLives(c, op) ==> View(r) == FlatStep(View(c), op).0 && seen == FlatStep(View(c), op).1)
      && (op.ClearOp? ==> r.disk == View(c))
      && (op.SyncOp? && op.n < |c.disk| ==> r.disk == c.disk[op.n := View(c)[op.n]])
      && (op.SyncOp? ==> Find(r.lines, op.n) == match Find(c.lines, op.n)
                                               case Some(l) => Some(Line(l.value, false)) case None => None)
  {
    hide CopyHeld, SyncHeld, Find, SyncedAll, DistinctKeys;
    match op
    case ReadOp(n) =>
      ReadKeepsState(c, n, max);
      ReadKeepsView(c, n, max);
    case WriteOp(n, off, data) =>
      ReadKeepsState(c, n, max);
      ReadKeepsView(c, n, max);
      if n < |c.disk| {
        FrontIsFound(Read(c, n, max).lines);
        HeldWriteRefines(Read(c, n, max), max, n, off, data);
      }
    case HeldWriteOp(n, off, data) =>
      if HandleLives(c, op) {
        HeldWriteRefines(c, max, n, off, data);
      }
    case SyncOp(n) =>
      SyncKeepsView(c, n, max);
      SyncReachesDevice(c, n, max);
    case ClearOp =>
      SyncedAllIsView(c.lines, c.disk);
      EmptyCache(View(c), max);
  }

  /** The sector whose line a read of sector `n` pushes out. */
  predicate PushesOut(c: CacheState, max: nat, op: Op, x: nat)
    requires ValidState(c, max)
  {
    && (op.ReadOp? || op.WriteOp?) && op.n < |c.disk| && Find(c.lines, op.n).None?
    && |c.lines| == max && c.lines[max - 1].0 == x
  }

  /** Reads of uncached sectors write at most the line they push out, syncs their own sector, clears everything. */
  lemma StepReachesDevice(c: CacheState, max: nat, op: Op, x: nat)
    requires ValidState(c, max) && x < |c.disk|
    ensures CacheStep(c, max, op).0.disk[x] ==
            if op.ClearOp? || (op.SyncOp? && op.n == x) || PushesOut(c, max, op, x) then View(c)[x] else c.disk[x]
  {
    hide SyncedAll, DistinctKeys, Splice;
    match op
    case ClearOp =>
      SyncedAllIsView(c.lines, c.disk);
    case SyncOp(n) =>
      if Find(c.lines, n).Some? {
        FoundIsBacked(c, n, max);
      }
    case _ =>
      if |c.lines| == max {
        FindMember(c.lines, max - 1);
      }
  }

  /** Whether the operation stores into sector `x`. */
  predicate Stores(c: CacheState, op: Op, x: nat) {
    && (op.WriteOp? || op.HeldWriteOp?) && op.n == x < |c.disk|
    && op.off + |op.data| <= |Seen(c, x)|
  }

  lemma ReadDirties(c: CacheState, n: nat, max: nat, x: nat)
    requires ValidState(c, max) && Find(Read(c, n, max).lines, x).Some?
    ensures Find(Read(c, n, max).lines, x).value.dirty <==> Find(c.lines, x).Some? && Find(c.lines, x).value.dirty
  {
    hide DistinctKeys, Erase, Take, Find;
    if n < |c.disk| {
      if Find(c.lines, n).Some? {
        TouchedFind(c.lines, n, Find(c.lines, n).value, x);
      } else {
        LoadedFind(c.lines, n, Line(c.disk[n], false), max, x);
      }
    }
  }

  lemma HeldWriteDirties(c: CacheState, n: nat, off: nat, data: seq<byte>, x: nat)
    ensures var r := HeldWrite(c, n, off, data).0;
      && (Find(r.lines, x).Some? <==> Find(c.lines, x).Some?)
      && (Find(r.lines, x).Some? ==>
           (Find(r.lines, x).value.dirty <==>
             || (x == n && off + |data| <= |Find(c.lines, x).value.value|)
             || Find(c.lines, x).value.dirty))
  {
    hide Find, Splice, Replace;
    if Find(c.lines, n).Some? && off + |data| <= |Find(c.lines, n).value.value| {
      ReplacedFind(c.lines, n, Line(Splice(Find(c.lines, n).value.value, off, data), true), x);
    }
  }

  /** A cached sector is dirty exactly from a store into it to its next sync. */
  lemma StepDirties(c: CacheState, max: nat, op: Op, x: nat)
    requires ValidState(c, max) && HandleLives(c, op) && Find(CacheStep(c, max, op).0.lines, x).Some?
    ensures Find(CacheStep(c, max, op).0.lines, x).value.dirty <==>
      || Stores(c, op, x)
      || (Find(c.lines, x).Some? && Find(c.lines, x).value.dirty && op != SyncOp(x))
  {
    hide SyncedAll, DistinctKeys, Splice, Find, Read, HeldWrite, Replace, ValidState;
    match op
    case ReadOp(n) =>
      ReadDirties(c, n, max, x);
    case WriteOp(n, off, data) =>
      ReadKeepsState(c, n, max);
      if n < |c.disk| {
        FrontIsFound(Read(c, n, max).lines);
        HeldWriteDirties(Read(c, n, max), n, off, data, x);
        ReadDirties(c, n, max, x);
      }
    case HeldWriteOp(n, off, data) =>
      HeldWriteDirties(c, n, off, data, x);
      if n >= |c.disk| {
        AbsentPastEnd(c, n, max);
      }
    case SyncOp(n) =>
      if Find(c.lines, n).Some? {
        FoundIsBacked(c, n, max);
        ReplacedFind(c.lines, n, Line(Find(c.lines, n).value.value, false), x);
      }
    case ClearOp =>
      EraseAbsent<nat, Line>([], x);
  }

  lemma EmptyCache(disk: Image, max: nat)
    requires max > 0
    ensures ValidState(CacheState([], disk), max) && View(CacheState([], disk)) == disk
  {
  }

  function FlatRun(img: Image, ops: seq<Op>): (Image, seq<Option<seq<byte>>>)
    decreases |ops|
  {
    if ops == [] then (img, [])
    else
      var (img1, seen) := FlatStep(img, ops[0]);
      var (img2, rest) := FlatRun(img1, ops[1..]);
      (img2, [seen] + rest)
  }

  function CacheRun(c: CacheState, max: nat, ops: seq<Op>): (CacheState, seq<Option<seq<byte>>>)
    requires ValidState(c, max)
    decreases |ops|
  {
    if ops == [] then (c, [])
    else
      StepRefines(c, max, ops[0]);
      var (c1, seen) := CacheStep(c, max, ops[0]);
      var (c2, rest) := CacheRun(c1, max, ops[1..]);
      (c2, [seen] + rest)
  }

  /** No handle outlives the eviction of its sector in this run. */
  predicate HandlesLive(c: CacheState, max: nat, ops: seq<Op>)
    requires ValidState(c, max)
    decreases |ops|
  {
    ops == [] || (
      StepRefines(c, max, ops[0]);
      HandleLives(c, ops[0]) && HandlesLive(CacheStep(c, max, ops[0]).0, max, ops[1..]))
  }

  /**
   * On every run of reads, writes, syncs and clears in which no handle outlives the eviction of its sector,
   * a reader of the cache sees exactly what a flat device with immediate writes would show, and the state
   * it stands for ends up the same.
   */
  lemma {:induction false} RunRefines(c: CacheState, max: nat, ops: seq<Op>)
    requires ValidState(c, max) && HandlesLive(c, max, ops)
    ensures var (r, seen) := CacheRun(c, max, ops);
      ValidState(r, max) && View(r) == FlatRun(View(c), ops).0 && seen == FlatRun(View(c), ops).1
    decreases |ops|
  {
    hide ValidState, CacheStep, FlatStep, View, HandleLives;
    if ops != [] {
      StepRefines(c, max, ops[0]);
      RunRefines(CacheStep(c, max, ops[0]).0, max, ops[1..]);
    }
  }

  // ----- what a run leaves on the device -----

  predicate StoresNowhereIn(ops: seq<Op>, n: nat) {
    forall i :: 0 <= i < |ops| && (ops[i].WriteOp? || ops[i].HeldWriteOp?) ==> ops[i].n != n
  }

  /** A sector whose bytes are on the device stays there through every run that does not store into it. */
  lemma {:induction false} SavedStays(c: CacheState, max: nat, ops: seq<Op>, n: nat)
    requires ValidState(c, max) && HandlesLive(c, max, ops) && n < |c.disk|
    requires c.disk[n] == View(c)[n] && StoresNowhereIn(ops, n)
    ensures |CacheRun(c, max, ops).0.disk| == |c.disk| && CacheRun(c, max, ops).0.disk[n] == c.disk[n]
    decreases |ops|
  {
    hide ValidState, CacheStep, FlatStep, View, HandleLives, PushesOut;
    if ops != [] {
      StepRefines(c, max, ops[0]);
      FlatStepMeans(View(c), ops[0], n);
      StepReachesDevice(c, max, ops[0], n);
      SavedStays(CacheStep(c, max, ops[0]).0, max, ops[1..], n);
    }
  }

  /**
   * Whatever was stored into a sector before it is synced is on the device from then on, whichever sectors are read,
   * written, evicted or synced later, until something is stored into it again.
   */
  lemma SyncIsDurable(c: CacheState, max: nat, before: seq<Op>, n: nat, after: seq<Op>)
    requires ValidState(c, max) && HandlesLive(c, max, before) && n < |c.disk|
    ensures ValidState(CacheRun(c, max, before).0, max)
    ensures var r := CacheStep(CacheRun(c, max, before).0, max, SyncOp(n)).0;
      && ValidState(r, max) && n < |FlatRun(View(c), before).0|
      && (HandlesLive(r, max, after) && StoresNowhereIn(after, n) ==>
           && n < |CacheRun(r, max, after).0.disk|
           && CacheRun(r, max, after).0.disk[n] == FlatRun(View(c), before).0[n])
  {
    hide ValidState, CacheStep, View, HandlesLive, StoresNowhereIn, CacheRun, FlatRun, PushesOut;
    RunRefines(c, max, before);
    RunKeepsSize(c, max, before);
    var m := CacheRun(c, max, before).0;
    var r := CacheStep(m, max, SyncOp(n)).0;
    StepRefines(m, max, SyncOp(n));
    StepReachesDevice(m, max, SyncOp(n), n);
    if HandlesLive(r, max, after) && StoresNowhereIn(after, n) {
      SavedStays(r, max, after, n);
    }
  }

  lemma {:induction false} RunKeepsSize(c: CacheState, max: nat, ops: seq<Op>)
    requires ValidState(c, max)
    ensures |CacheRun(c, max, ops).0.disk| == |c.disk|
    decreases |ops|
  {
    hide ValidState, CacheStep;
    if ops != [] {
      StepRefines(c, max, ops[0]);
      RunKeepsSize(CacheStep(c, max, ops[0]).0, max, ops[1..]);
    }
  }

  // ----- what a run keeps in the cache -----

  function UsesNext(before: seq<nat>, op: Op, size: nat): seq<nat> {
    match op
    case ReadOp(n) => if n < size then before + [n] else before
    case WriteOp(n, _, _) => if n < size then before + [n] else before
    case ClearOp => []
    case _ => before
  }

  /** The sectors read since the last clear, `before` included. */
  function UsesAfter(before: seq<nat>, ops: seq<Op>, size: nat): seq<nat>
    decreases |ops|
  {
    if ops == [] then before else UsesAfter(UsesNext(before, ops[0], size), ops[1..], size)
  }

  lemma TouchLast(before: seq<nat>, n: nat, max: nat)
    ensures TouchAll([], before + [n], max) == Touch(TouchAll([], before, max), n, max)
  {
    assert (before + [n])[..|before|] == before;
  }

  lemma StepKeys(c: CacheState, max: nat, op: Op)
    requires ValidState(c, max)
    ensures var keys, r := KeysOf(c.lines), CacheStep(c, max, op).0;
      KeysOf(r.lines) == match op
        case ReadOp(n) => if n < |c.disk| then Touch(keys, n, max) else keys
        case WriteOp(n, _, _) => if n < |c.disk| then Touch(keys, n, max) else keys
        case ClearOp => []
        case _ => keys
  {
    hide Touch, Find, Replace, SyncedAll, ValidState, Read;
    match op
    case ReadOp(n) =>
      ReadKeepsState(c, n, max);
      ReadPastEnd(c, n, max);
    case WriteOp(n, off, data) =>
      ReadKeepsState(c, n, max);
      if n < |c.disk| {
        HeldWriteKeys(Read(c, n, max), n, off, data);
      }
    case HeldWriteOp(n, off, data) =>
      HeldWriteKeys(c, n, off, data);
    case SyncOp(n) =>
      if Find(c.lines, n).Some? {
        ReplacedKeys(c.lines, n, Line(Find(c.lines, n).value.value, false));
      }
    case ClearOp =>
  }

  lemma ReadPastEnd(c: CacheState, n: nat, max: nat)
    requires ValidState(c, max)
    ensures n >= |c.disk| ==> Read(c, n, max) == c
  {
  }

  lemma HeldWriteKeys(c: CacheState, n: nat, off: nat, data: seq<byte>)
    ensures KeysOf(HeldWrite(c, n, off, data).0.lines) == KeysOf(c.lines)
  {
    hide Find, Replace, Splice;
    if Find(c.lines, n).Some? && off + |data| <= |Find(c.lines, n).value.value| {
      ReplacedKeys(c.lines, n, Line(Splice(Find(c.lines, n).value.value, off, data), true));
    }
  }

  lemma {:induction false} RunTouches(c: CacheState, max: nat, before: seq<nat>, ops: seq<Op>)
    requires ValidState(c, max) && KeysOf(c.lines) == TouchAll([], before, max)
    ensures KeysOf(CacheRun(c, max, ops).0.lines) == TouchAll([], UsesAfter(before, ops, |c.disk|), max)
    decreases |ops|
  {
    hide ValidState, CacheStep, Touch;
    if ops != [] {
      StepRefines(c, max, ops[0]);
      StepKeys(c, max, ops[0]);
      var c' := CacheStep(c, max, ops[0]).0;
      if (ops[0].ReadOp? || ops[0].WriteOp?) && ops[0].n < |c.disk| {
        TouchLast(before, ops[0].n, max);
      }
      RunTouches(c', max, UsesNext(before, ops[0], |c.disk|), ops[1..]);
    }
  }

  /**
   * After any run from an empty cache, it holds exactly the `max` most recently used distinct sectors of
   * those read since the last clear, most recent use first.
   */
  lemma RunHoldsMostRecent(disk: Image, max: nat, ops: seq<Op>)
    requires max > 0
    ensures KeysOf(CacheRun(CacheState([], disk), max, ops).0.lines) == Take(Recent(UsesAfter([], ops, |disk|)), max)
  {
    hide CacheRun, UsesAfter, Take, Recent;
    RunTouches(CacheState([], disk), max, [], ops);
    HoldsMostRecent(UsesAfter([], ops, |disk|), max);
  }

  /** On the same run, a larger cache holds a smaller one's sectors, in the same order, and more. */
  lemma LargerCacheHoldsMore(disk: Image, small: nat, large: nat, ops: seq<Op>)
    requires 0 < small <= large
    ensures KeysOf(CacheRun(CacheState([], disk), small, ops).0.lines) <=
            KeysOf(CacheRun(CacheState([], disk), large, ops).0.lines)
  {
    hide CacheRun, UsesAfter, Take, Recent, Touch;
    RunTouches(CacheState([], disk), small, [], ops);
    RunTouches(CacheState([], disk), large, [], ops);
    LargerContainsSmaller(UsesAfter([], ops, |disk|), small, large);
  }

  // ----- the objects -----

  /** A cached sector; its bytes reach the device when a dirty sector is synced. */
  class Sector {
    const secNum: nat
    const device: FlatDevice
    var value: seq<byte>
    var dirty: bool

    constructor (secNum: nat, value: seq<byte>, device: FlatDevice)
      ensures this.secNum == secNum && this.value == value && this.device == device && !dirty
    {
      this.secNum, this.value, this.device := secNum, value, device;
      dirty := false;
    }

    ghost function AsLine(): Line
      reads this
    {
      Line(value, dirty)
    }

    /** `write_ptr(off)` and the copy through it. */
    method CopyIn(off: nat, data: seq<byte>)
      requires off + |data| <= |value|
      modifies this
      ensures AsLine() == Line(Splice(old(value), off, data), true)
    {
      dirty := true;
      value := Splice(value, off, data);
    }

    method Sync()
      requires secNum < |device.sectors|
      modifies this`dirty, device
      ensures !dirty && device.sectors == Synced(old(device.sectors), (secNum, old(AsLine())))
    {
      if dirty {
        device.sectors := device.sectors[secNum := value];
        dirty := false;
      }
    }
  }

  ghost function Sectors(items: seq<(nat, Sector)>): set<Sector> {
    set i | 0 <= i < |items| :: items[i].1
  }

  ghost function LinesOf(items: seq<(nat, Sector)>): (r: seq<(nat, Line)>)
    reads Sectors(items)
    ensures |r| == |items| && forall i :: 0 <= i < |r| ==> r[i] == (items[i].0, items[i].1.AsLine())
  {
    seq(|items|, i requires 0 <= i < |items| reads Sectors(items) => (items[i].0, items[i].1.AsLine()))
  }

  lemma {:induction false} LinesFind(items: seq<(nat, Sector)>, n: nat)
    ensures Find(LinesOf(items), n) == match Find(items, n) case Some(s) => Some(s.AsLine()) case None => None
    ensures LinesOf(Erase(items, n)) == Erase(LinesOf(items), n)
  {
    if items != [] {
      assert LinesOf(items)[1..] == LinesOf(items[1..]);
      LinesFind(items[1..], n);
    }
  }

  lemma LinesDistinct(items: seq<(nat, Sector)>)
    ensures DistinctKeys(LinesOf(items)) <==> DistinctKeys(items)
    ensures KeysOf(LinesOf(items)) == KeysOf(items)
  {
  }

  class CacheManager {
    const inner: FlatDevice
    const cache: LRUCacheMap<nat, Sector>

    constructor (inner: FlatDevice, cacheSz: nat)
      requires cacheSz > 0
      ensures this.inner == inner && fresh(cache) && cache.maxSize == cacheSz
      ensures Valid() && State() == CacheState([], inner.sectors)
    {
      this.inner := inner;
      cache := new LRUCacheMap(cacheSz);
    }

    ghost function Items(): seq<(nat, Sector)>
      reads cache
    {
      cache.Items()
    }

    /** The sectors that the cache holds. */
    ghost function Held(): set<Sector>
      reads cache
    {
      Sectors(Items())
    }

    ghost function State(): CacheState
      reads cache, inner, Held()
    {
      CacheState(LinesOf(Items()), inner.sectors)
    }

    ghost predicate Valid()
      reads cache, inner, Held()
    {
      cache.Valid() && ValidState(State(), cache.maxSize) && Owned(Items())
    }

    ghost predicate Owned(items: seq<(nat, Sector)>) {
      forall i :: 0 <= i < |items| ==> items[i].1.secNum == items[i].0 && items[i].1.device == inner
    }

    /** Answers from the cache, or loads the sector and makes room for it. */
    method ReadSector(n: nat) returns (r: Option<Sector>)
      requires Valid()
      modifies cache, inner, Held()`dirty
      ensures Valid() && State() == Read(old(State()), n, cache.maxSize)
      ensures r.Some? <==> n < |inner.sectors|
      ensures r.Some? ==> |Items()| > 0 && Items()[0] == (n, r.value)
      ensures fresh(Held() - old(Held()))
    {
      hide Erase, Find, KeysOf, Touch, DistinctKeys, Synced, View, Take, LinesOf, Indexes;
      ghost var c := State();
      ReadKeepsState(c, n, cache.maxSize);
      if n >= |inner.sectors| { AbsentPastEnd(c, n, cache.maxSize); }
      LinesFind(Items(), n);
      if Find(Items(), n).Some? {
        SpliceKeepsHeld(Items(), n, Find(Items(), n).value);
      }
      r := Hit(n);
      if r.Some? || n >= |inner.sectors| {
        assert Owned(Items()) && State() == Read(c, n, cache.maxSize);
        return;
      }
      var s := LoadSector(n);
      r := Some(s);
    }

    /** Moving an entry to the front brings in no new sector. */
    lemma SpliceKeepsHeld(items: seq<(nat, Sector)>, n: nat, s: Sector)
      requires Owned(items) && Find(items, n) == Some(s)
      ensures Owned([(n, s)] + Erase(items, n)) && Sectors([(n, s)] + Erase(items, n)) <= Sectors(items)
    {
      var after := [(n, s)] + Erase(items, n);
      FoundIsMember(items, n);
      EraseMembers(items, n);
      forall i | 0 <= i < |after|
        ensures after[i].1.secNum == after[i].0 && after[i].1.device == inner && after[i].1 in Sectors(items)
      {
        var j :| 0 <= j < |items| && items[j] == after[i];
      }
    }

    method Hit(n: nat) returns (r: Option<Sector>)
      requires Valid()
      modifies cache
      ensures cache.Valid() && r == Find(old(Items()), n)
      ensures Items() == if r.Some? then [(n, r.value)] + Erase(old(Items()), n) else old(Items())
      ensures r.Some? ==> LinesOf(Items()) == [(n, r.value.AsLine())] + Erase(old(LinesOf(Items())), n)
    {
      hide Find, KeysOf, Touch, DistinctKeys, Owned, ValidState;
      LinesFind(Items(), n);
      r := cache.Get(n);
    }

    method LoadSector(n: nat) returns (s: Sector)
      requires Valid() && n < |inner.sectors| && Find(Items(), n) == None
      modifies cache, inner, Held()`dirty
      ensures State() == Read(old(State()), n, cache.maxSize)
      ensures |Items()| > 0 && Items()[0] == (n, s) && Owned(Items()) && cache.Valid()
      ensures fresh(Held() - old(Held()))
    {
      hide Erase, Find, KeysOf, Touch, DistinctKeys, Owned, LinesOf, Synced, ValidState, Indexes;
      LinesFind(Items(), n);
      ghost var c := State();
      var dropped;
      s, dropped := PutNew(n);
      ghost var lines := LinesOf(Items());
      if |dropped| > 0 {
        dropped[0].Sync();
        assert LinesOf(Items()) == lines;
      }
    }

    /** Loads sector `n` in front; `dropped` is what falls out at the end, no longer held. */
    method PutNew(n: nat) returns (s: Sector, dropped: seq<Sector>)
      requires Valid() && n < |inner.sectors| && Find(Items(), n) == None
      modifies cache
      ensures cache.Valid() && inner.sectors == old(inner.sectors)
      ensures LinesOf(Items()) == [(n, Line(inner.sectors[n], false))] + Take(old(State().lines), cache.maxSize - 1)
      ensures |dropped| == if |old(Items())| == cache.maxSize then 1 else 0
      ensures |dropped| > 0 ==>
        && dropped[0] in old(Held()) && dropped[0] !in Held()
        && dropped[0].device == inner && dropped[0].secNum < |inner.sectors|
        && (dropped[0].secNum, dropped[0].AsLine()) == old(State()).lines[cache.maxSize - 1]
      ensures |Items()| > 0 && Items()[0] == (n, s) && Owned(Items()) && Held() <= {s} + old(Held()) && fresh(s)
    {
      hide Erase, Find, KeysOf, Touch, DistinctKeys, Indexes, Take, LinesOf;
      ghost var items, lines := Items(), LinesOf(Items());
      LinesDistinct(items);
      s := new Sector(n, inner.sectors[n], inner);
      assert s !in Sectors(items);
      dropped := cache.Put(n, s);
      assert LinesOf(items) == lines;
      Loaded<nat, Sector>(items, n, s, cache.maxSize);
      AfterLoad(items, n, s, cache.maxSize);
    }

    /** The entries after a load, and the one that a full cache gives up. */
    lemma AfterLoad(items: seq<(nat, Sector)>, n: nat, s: Sector, max: nat)
      requires Owned(items) && DistinctKeys(items) && |items| <= max
      requires max > 0 && s.secNum == n && s.device == inner && s !in Sectors(items)
      ensures var after := [(n, s)] + Take(items, max - 1);
        && LinesOf(after) == [(n, s.AsLine())] + Take(LinesOf(items), max - 1)
        && Owned(after) && Sectors(after) <= {s} + Sectors(items)
        && (|items| == max ==> items[max - 1].1 in Sectors(items) && items[max - 1].1 !in Sectors(after))
    {
      hide DistinctKeys;
      LinesTaken(items, n, s, max);
      if |items| == max {
        assert items[max - 1].1 in Sectors(items);
        LastIsDropped(items, n, s, max);
      }
    }

    lemma LinesTaken(items: seq<(nat, Sector)>, n: nat, s: Sector, max: nat)
      requires |items| <= max && max > 0
      ensures LinesOf([(n, s)] + Take(items, max - 1)) == [(n, s.AsLine())] + Take(LinesOf(items), max - 1)
    {
    }

    lemma LastIsDropped(items: seq<(nat, Sector)>, n: nat, s: Sector, max: nat)
      requires Owned(items) && DistinctKeys(items) && |items| == max > 0 && s !in Sectors(items)
      ensures items[max - 1].1 !in Sectors([(n, s)] + Take(items, max - 1))
    {
      var after, x := [(n, s)] + Take(items, max - 1), items[max - 1].1;
      assert x in Sectors(items);
      forall i | 0 <= i < |after| ensures after[i].1 != x {
        if i > 0 {
          assert after[i] == items[i - 1] && items[i - 1].0 != items[max - 1].0;
        }
      }
    }

    /** Copies `data` into sector `n`, if it has one and the data fit; shows what the sector held. */
    method CopyIntoSector(n: nat, off: nat, data: seq<byte>) returns (seen: Option<seq<byte>>)
      requires Valid()
      modifies cache, inner, Held()
      ensures Valid() && (State(), seen) == CacheStep(old(State()), cache.maxSize, WriteOp(n, off, data))
      ensures fresh(Held() - old(Held()))
    {
      hide Erase, Find, KeysOf, Touch, Synced, Take, Splice, View, Read, HeldWrite, CacheStep, DistinctKeys, Indexes;
      ghost var c := State();
      WriteStep(c, cache.maxSize, n, off, data);
      ReadPastEnd(c, n, cache.maxSize);
      var r := ReadSector(n);
      if r.None? {
        return None;
      }
      FrontHandle(n, r.value);
      seen := CopyThrough(r.value, off, data);
    }

    lemma FrontHandle(n: nat, s: Sector)
      requires Valid() && |Items()| > 0 && Items()[0] == (n, s)
      ensures s in Held() && s.secNum == n
    {
    }

    /** Copies `data` through the handle `s` of a cached sector. */
    method CopyThrough(s: Sector, off: nat, data: seq<byte>) returns (seen: Option<seq<byte>>)
      requires Valid() && s in Held()
      modifies s
      ensures Valid() && (State(), seen) == HeldWrite(old(State()), s.secNum, off, data) && Items() == old(Items())
    {
      hide Erase, Find, KeysOf, Touch, Synced, Take, Replace, Splice;
      ghost var c, items := State(), Items();
      HandleIsFound(s);
      if off + |data| > |s.value| {
        return None;
      }
      seen := Some(s.value);
      CopyUpdatesView(c, s.secNum, off, data, cache.maxSize);
      s.CopyIn(off, data);
      OneLineChanged(items, c.lines, s);
    }

    /** `sync()` through the handle `s` of a cached sector. */
    method SyncThrough(s: Sector)
      requires Valid() && s in Held()
      modifies s`dirty, inner
      ensures Valid() && State() == CacheStep(old(State()), cache.maxSize, SyncOp(s.secNum)).0
      ensures Items() == old(Items())
      ensures |inner.sectors| == |old(inner.sectors)| && s.secNum < |inner.sectors|
      ensures inner.sectors[s.secNum] == s.value == old(View(State()))[s.secNum] && !s.dirty
      ensures forall n :: 0 <= n < |inner.sectors| && n != s.secNum ==> inner.sectors[n] == old(inner.sectors[n])
    {
      hide Erase, Find, KeysOf, Touch, Take, Replace, Indexes;
      ghost var c, items := State(), Items();
      HandleIsFound(s);
      SyncKeepsView(c, s.secNum, cache.maxSize);
      FoundIsBacked(c, s.secNum, cache.maxSize);
      s.Sync();
      OneLineChanged(items, c.lines, s);
    }

    lemma HandleIsFound(s: Sector)
      requires Valid() && s in Held()
      ensures Find(State().lines, s.secNum) == Some(s.AsLine()) && s.secNum < |inner.sectors| && s.device == inner
    {
      var items := Items();
      var i :| 0 <= i < |items| && items[i].1 == s;
      FindMember(State().lines, i);
    }

    lemma OneLineChanged(items: seq<(nat, Sector)>, lines: seq<(nat, Line)>, s: Sector)
      requires Owned(items) && |lines| == |items| && DistinctKeys(items) && s in Sectors(items)
      requires forall i :: 0 <= i < |items| ==>
        lines[i].0 == items[i].0 && (items[i].1 != s ==> lines[i].1 == items[i].1.AsLine())
      ensures LinesOf(items) == Replace(lines, s.secNum, s.AsLine())
    {
      var k :| 0 <= k < |items| && items[k].1 == s;
    }

    /** Drops every sector; the destructors write the dirty ones to the device. */
    method Clear()
      requires Valid()
      modifies cache, inner, Held()`dirty
      ensures Valid() && State() == CacheStep(old(State()), cache.maxSize, ClearOp).0
    {
      hide Erase, Find, KeysOf, Touch, Synced, Take, Indexes;
      ghost var c, items := State(), Items();
      var dropped := cache.Clear();
      var k := 0;
      while k < |dropped|
        invariant k <= |dropped| && |inner.sectors| == |c.disk| && cache.Valid() && Items() == []
        invariant forall i :: k <= i < |items| ==> dropped[i].AsLine() == c.lines[i].1
        invariant SyncedAll(inner.sectors, c.lines[k..]) == SyncedAll(c.disk, c.lines)
      {
        SectorsDiffer(items, k);
        dropped[k].Sync();
        k := k + 1;
      }
    }

    lemma SectorsDiffer(items: seq<(nat, Sector)>, k: nat)
      requires Owned(items) && DistinctKeys(items) && k < |items|
      ensures forall i :: k < i < |items| ==> items[i].1 != items[k].1
    {
    }
  }

  lemma AbsentPastEnd(c: CacheState, n: nat, max: nat)
    requires ValidState(c, max) && n >= |c.disk|
    ensures Find(c.lines, n) == None
  {
    FoundIsMember(c.lines, n);
  }
}
