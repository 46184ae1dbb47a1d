/** Class `File` of fs.cpp: a flat byte array over a cluster chain. */
module Files {
  import opened Base
  import opened FatTable
  import opened FirstFit
  import opened Geometry
  import opened Device
  import opened FatImage
  import opened Fat
  import opened FileData
  import opened FileSteps

  /** Bytes that `n` clusters can hold. */
  function Capacity(g: BPB, n: nat): nat {
    SECTOR_SIZE * Cells(n, g.secPerClus)
  }

  function ClustersFor(g: BPB, length: nat): nat
    requires BytesPerClus(g) > 0
  {
    if length == 0 then 0 else (length - 1) / BytesPerClus(g) + 1
  }

  /** `ClustersFor` is the least number of clusters that can hold `length` bytes. */
  lemma ClustersForIsLeast(g: BPB, length: nat)
    requires ValidBPB(g)
    ensures BytesPerClus(g) > 0
    ensures length <= Capacity(g, ClustersFor(g, length))
    ensures forall n :: length <= Capacity(g, n) ==> ClustersFor(g, length) <= n
  {
    var w := g.secPerClus;
    var b := BytesPerClus(g);
    var n := ClustersFor(g, length);
    if length > 0 {
      assert (length - 1) / b * b + (length - 1) % b == length - 1;
    }
    forall m | length <= Capacity(g, m) ensures n <= m {
      CapacityIsProduct(g, m);
      if m < n {
        MulMonotone(m, n - 1, b);
      }
    }
  }

  lemma CapacityIsProduct(g: BPB, n: nat)
    requires g.bytesPerSec == SECTOR_SIZE
    ensures Capacity(g, n) == n * BytesPerClus(g)
  {
    assert n * (g.secPerClus * SECTOR_SIZE) == n * g.secPerClus * SECTOR_SIZE;
  }

  lemma CapacityMonotone(g: BPB, m: nat, n: nat)
    ensures m <= n ==> Capacity(g, m) <= Capacity(g, n)
    ensures g.secPerClus > 0 && m < n ==> Capacity(g, m) < Capacity(g, n)
  {
    if m < n {
      MulMonotone(m + 1, n, g.secPerClus);
      assert (m + 1) * g.secPerClus == m * g.secPerClus + g.secPerClus;
    }
  }

  /** After making room for `length` bytes, only an empty write at a cluster boundary finds no sector. */
  lemma NoSectorIff(g: BPB, offset: nat, len: nat)
    requires ValidBPB(g)
    ensures BytesPerClus(g) > 0
    ensures var n := ClustersFor(g, offset + len);
      && offset + len <= Capacity(g, n)
      && (offset / SECTOR_SIZE >= Cells(n, g.secPerClus) <==> len == 0 && offset % BytesPerClus(g) == 0)
  {
    hide ClustersFor, Cells, BytesPerClus;
    ClustersForIsLeast(g, offset + len);
    var n, b := ClustersFor(g, offset + len), BytesPerClus(g);
    CapacityIsProduct(g, n);
    if len == 0 && offset % b == 0 {
      var q := offset / b;
      assert offset == q * b;
      CapacityIsProduct(g, q);
    }
    if len == 0 && offset == Capacity(g, n) {
      MultipleIsZero(n, b);
    }
  }

  lemma MultipleIsZero(n: nat, b: nat)
    requires b > 0
    ensures n * b % b == 0
  {
    RowColumn(n, 0, b);
  }

  /** A file as a value: the device, the file's chain and its size field. */
  datatype Snap = Snap(img: Image, chain: seq<nat>, sz: nat)

  ghost predicate ValidSnap(g: BPB, s: Snap) {
    && ValidBPB(g) && ValidImage(g, s.img) && OnVolume(g, s.chain)
    && Reserved(Entries(g, s.img)) && (s.chain == [] || IsChain(Entries(g, s.img), s.chain))
  }

  ghost function SnapBytes(g: BPB, s: Snap): (r: seq<byte>)
    requires ValidSnap(g, s)
    ensures |r| == Capacity(g, |s.chain|)
  {
    FileBytes(g, s.img, s.chain)
  }

  /**
   * `b` is `a` with room for exactly `length` bytes. Bytes up to there are kept; new clusters of a
   * directory are zeroed, those of a plain file hold whatever the device held.
   */
  ghost predicate TruncatedTo(g: BPB, isDir: bool, length: nat, a: Snap, b: Snap)
    requires ValidSnap(g, a) && ValidSnap(g, b)
  {
    var x, y := SnapBytes(g, a), SnapBytes(g, b);
    && BytesPerClus(g) > 0 && |b.chain| == ClustersFor(g, length)
    && (if |b.chain| <= |a.chain| then b.chain <= a.chain && y <= x
        else a.chain <= b.chain && x <= y && (isDir ==> y == x + Zeros(|y| - |x|)))
    && b.sz == (if isDir then a.sz else length)
    && OthersKept(g, a.img, b.img, a.chain, b.chain)
  }

  lemma TruncatedLength(g: BPB, isDir: bool, length: nat, a: Snap, b: Snap)
    requires ValidSnap(g, a) && ValidSnap(g, b) && TruncatedTo(g, isDir, length, a, b)
    ensures BytesPerClus(g) > 0 && |b.chain| == ClustersFor(g, length)
  {
  }

  /** Only file bytes changed: `data` has been copied to `off`. */
  ghost predicate Copied(g: BPB, off: nat, data: seq<byte>, a: Snap, b: Snap)
    requires ValidSnap(g, a) && ValidSnap(g, b)
  {
    && b.chain == a.chain && b.sz == a.sz && off + |data| <= |SnapBytes(g, a)|
    && Tables(g, b.img) == Tables(g, a.img)
    && SnapBytes(g, b) == Splice(SnapBytes(g, a), off, data)
    && OthersKept(g, a.img, b.img, a.chain, a.chain)
  }

  lemma CopiedMore(g: BPB, off: nat, d: seq<byte>, e: seq<byte>, a: Snap, b: Snap, c: Snap)
    requires ValidSnap(g, a) && ValidSnap(g, b) && ValidSnap(g, c)
    requires Copied(g, off, d, a, b) && Copied(g, off + |d|, e, b, c)
    ensures Copied(g, off, d + e, a, c)
  {
    hide Tables, FileBytes, OthersKept, Cells, CountOfClusters, ValidImage;
    OthersKeptThrice(g, a.img, b.img, c.img, a.chain, a.chain, a.chain);
  }

  lemma SectorCopied(g: BPB, k: nat, off: nat, data: seq<byte>, a: Snap)
    requires ValidSnap(g, a) && k < |FileSectors(g, a.chain)| && off + |data| <= SECTOR_SIZE
    ensures var s := FileSectors(g, a.chain)[k];
      && s < |a.img| && |a.img[s]| == SECTOR_SIZE
      && var b := a.(img := a.img[s := Splice(a.img[s], off, data)]);
      && ValidSnap(g, b) && Copied(g, SECTOR_SIZE * k + off, data, a, b)
  {
    hide Tables, FileSectors, FileBytes, OthersKept, CountOfClusters, FirstDataSector;
    WriteFileSector(g, a.img, a.chain, k, off, data);
  }

  /** `b` is `a` with `buf` written at `offset`: everything else that both hold is unchanged. */
  ghost predicate Overwritten(g: BPB, isDir: bool, offset: nat, buf: seq<byte>, a: Snap, b: Snap)
    requires ValidSnap(g, a) && ValidSnap(g, b)
  {
    var x, y, end := SnapBytes(g, a), SnapBytes(g, b), offset + |buf|;
    && end <= |y| && y[offset..end] == buf
    && (forall i :: 0 <= i < Min(|x|, |y|) && !(offset <= i < end) ==> y[i] == x[i])
    && b.sz == (if isDir then a.sz else Max(a.sz, end))
    && (isDir && end <= |x| ==> b.chain == a.chain)
    && OthersKept(g, a.img, b.img, a.chain, b.chain)
  }

  ghost function SnapContents(g: BPB, s: Snap): (r: seq<byte>)
    requires ValidSnap(g, s) && s.sz <= Capacity(g, |s.chain|)
    ensures |r| == s.sz
  {
    SnapBytes(g, s)[..s.sz]
  }

  /** A plain file is a byte array: a write updates the range, keeps the rest, and extends it if need be. */
  lemma WriteUpdatesContents(g: BPB, offset: nat, buf: seq<byte>, a: Snap, b: Snap)
    requires ValidSnap(g, a) && ValidSnap(g, b) && Overwritten(g, false, offset, buf, a, b)
    requires a.sz <= Capacity(g, |a.chain|) && b.sz <= Capacity(g, |b.chain|)
    ensures var x, y, end := SnapContents(g, a), SnapContents(g, b), offset + |buf|;
      && |y| == Max(|x|, end) && y[offset..end] == buf
      && forall i :: 0 <= i < |x| && !(offset <= i < end) ==> y[i] == x[i]
    ensures OthersKept(g, a.img, b.img, a.chain, b.chain)
  {
    hide Tables, FileBytes, OthersKept, Cells, CountOfClusters, ValidImage, IsChain, Reserved;
    var y, end := SnapContents(g, b), offset + |buf|;
    forall i | 0 <= i < |buf| ensures y[offset + i] == buf[i] {
      assert SnapBytes(g, b)[offset..end][i] == buf[i];
    }
  }

  /** Truncating a plain file: its size is then `length`, and of its contents as much as there was room for is left. */
  lemma TruncateUpdatesContents(g: BPB, length: nat, a: Snap, b: Snap)
    requires ValidSnap(g, a) && ValidSnap(g, b) && TruncatedTo(g, false, length, a, b)
    requires a.sz <= Capacity(g, |a.chain|) && b.sz <= Capacity(g, |b.chain|)
    ensures var x, y, n := SnapContents(g, a), SnapContents(g, b), Min(a.sz, length);
      |y| == length && y[..n] == x[..n]
    ensures length <= Capacity(g, |b.chain|) && (b.chain != [] ==> Capacity(g, |b.chain| - 1) < length)
    ensures (a.chain <= b.chain || b.chain <= a.chain) && OthersKept(g, a.img, b.img, a.chain, b.chain)
  {
    hide Tables, FileBytes, OthersKept, CountOfClusters, ValidImage, IsChain, Reserved, ClustersFor, Cells;
    ClustersForIsLeast(g, length);
    var n := Min(a.sz, length);
    assert SnapBytes(g, a)[..n] == SnapBytes(g, b)[..n];
  }

  lemma CopiedInPlace(g: BPB, isDir: bool, offset: nat, buf: seq<byte>, a: Snap, b: Snap)
    requires ValidSnap(g, a) && ValidSnap(g, b) && Copied(g, offset, buf, a, b)
    requires isDir || offset + |buf| <= a.sz
    ensures Overwritten(g, isDir, offset, buf, a, b)
  {
    hide Tables, FileBytes, OthersKept, Cells, CountOfClusters, ValidImage, IsChain, Reserved;
  }

  lemma CopiedAfterTruncate(g: BPB, isDir: bool, offset: nat, buf: seq<byte>, a: Snap, m: Snap, b: Snap)
    requires ValidSnap(g, a) && ValidSnap(g, m) && ValidSnap(g, b)
    requires (if isDir then |SnapBytes(g, a)| else a.sz) <= offset + |buf|
    requires TruncatedTo(g, isDir, offset + |buf|, a, m) && Copied(g, offset, buf, m, b)
    ensures Overwritten(g, isDir, offset, buf, a, b)
  {
    hide Tables, FileBytes, OthersKept, Cells, CountOfClusters, ValidImage, IsChain, Reserved, ClustersFor;
    hide BytesPerClus;
    OthersKeptThrice(g, a.img, m.img, b.img, a.chain, m.chain, m.chain);
    ClustersForIsLeast(g, offset + |buf|);
    CapacityMonotone(g, |m.chain|, |a.chain|);
  }

  lemma CutTruncates(g: BPB, isDir: bool, length: nat, a: Snap, b: Snap)
    requires ValidSnap(g, a) && ValidImage(g, b.img) && BytesPerClus(g) > 0 && ClustersFor(g, length) <= |a.chain|
    requires b.chain == a.chain[..ClustersFor(g, length)] && b.sz == if isDir then a.sz else length
    requires WritesWithin(ShrinkWrites(a.chain, |b.chain|), ENTRIES_PER_SECTOR * g.fatSz32)
    requires WroteOn(g, a.img, b.img, ShrinkWrites(a.chain, |b.chain|))
    ensures ValidSnap(g, b) && TruncatedTo(g, isDir, length, a, b)
  {
    hide CountOfClusters, FirstDataSector, FileSectors, FileBytes, Tables, IsChain, Cells, OthersKept, WroteOn;
    hide ShrinkWrites;
    CutFile(g, a.img, b.img, a.chain, |b.chain|);
  }

  lemma GrowTruncates(g: BPB, isDir: bool, length: nat, a: Snap, base: Image, b: Snap, d: seq<nat>)
    requires ValidSnap(g, a) && ValidImage(g, base) && ValidImage(g, b.img) && BytesPerClus(g) > 0
    requires base == if isDir then Cleared(g, a.img, d) else a.img
    requires OnVolume(g, d) && |d| > 0 && Fresh(Entries(g, a.img), d)
    requires b.chain == a.chain + d && |b.chain| == ClustersFor(g, length) && b.sz == if isDir then a.sz else length
    requires WritesWithin(GrowWrites(a.chain, d), ENTRIES_PER_SECTOR * g.fatSz32)
    requires WroteOn(g, base, b.img, GrowWrites(a.chain, d))
    ensures ValidSnap(g, b) && TruncatedTo(g, isDir, length, a, b)
  {
    hide CountOfClusters, FirstDataSector, FileSectors, FileBytes, Tables, IsChain, Cells, OthersKept, WroteOn;
    hide GrowWrites, Cleared;
    GrowFile(g, a.img, base, b.img, isDir, a.chain, d);
  }

  /** The outcome of a write: a byte count, or the process stopped by a failed check. */
  datatype WriteResult = Wrote(n: nat) | Crashed

  class File {
    const fat: FAT
    const isDir: bool
    var fstClus: nat
    var fileSz: nat
    var clusChain: Option<seq<nat>>
    /** The chain that starts at `fstClus`. */
    ghost var chain: seq<nat>

    constructor (fat: FAT, isDir: bool, fstClus: nat, fileSz: nat, ghost chain: seq<nat>)
      ensures this.fat == fat && this.isDir == isDir && this.fstClus == fstClus
      ensures this.fileSz == fileSz && this.chain == chain && clusChain == None
    {
      this.fat, this.isDir, this.fstClus, this.fileSz := fat, isDir, fstClus, fileSz;
      this.chain, clusChain := chain, None;
    }

    /** `file_sz()`: a directory's size is that of its clusters. */
    ghost function Size(): nat
      reads this
    {
      if isDir then Capacity(fat.bpb, |chain|) else fileSz
    }

    ghost predicate ValidChain()
      reads this, fat, fat.device
    {
      && fat.Valid() && Reserved(fat.Entries())
      && FileChain(fat.Entries(), fstClus, chain) && OnVolume(fat.bpb, chain)
      && (fat.freeCount == NO_HINT || fat.freeCount < CountOfClusters(fat.bpb) + 2)
    }

    ghost predicate Valid()
      reads this, fat, fat.device
    {
      && ValidChain()
      && (clusChain.Some? ==> clusChain.value == chain)
      && Size() <= Capacity(fat.bpb, |chain|)
    }

    /** All bytes of the file's clusters, of which the first `Size()` are its contents. */
    ghost function Bytes(): (r: seq<byte>)
      requires Valid()
      reads this, fat, fat.device
      ensures |r| == Capacity(fat.bpb, |chain|) >= Size()
    {
      FileBytes(fat.bpb, fat.device.sectors, chain)
    }

    ghost function Contents(): (r: seq<byte>)
      requires Valid()
      reads this, fat, fat.device
      ensures |r| == Size()
    {
      Bytes()[..Size()]
    }

    /** The contents are what truncates and writes speak of: the size field cuts a plain file, and no directory. */
    lemma ContentsAre()
      requires Valid()
      ensures ValidSnap(fat.bpb, Now())
      ensures isDir ==> Contents() == SnapBytes(fat.bpb, Now())
      ensures !isDir ==>
        fileSz <= Capacity(fat.bpb, |chain|) && Contents() == SnapContents(fat.bpb, Now()) && |Contents()| == fileSz
    {
      hide Tables, FileBytes, CountOfClusters, FirstDataSector, Cells, OnVolume, ValidImage, Reserved;
    }

    method ReadClusChain() returns (r: seq<nat>)
      requires Valid()
      modifies this`clusChain
      ensures Valid() && r == chain && clusChain.Some?
    {
      if clusChain.None? {
        var c := fat.ReadClusChains(fstClus, chain);
        clusChain := Some(c);
      }
      r := clusChain.value;
    }

    method FileSize() returns (r: nat)
      requires Valid()
      modifies this`clusChain
      ensures Valid() && r == Size() == if isDir then |chain| * BytesPerClus(fat.bpb) else fileSz
    {
      if isDir {
        var c := ReadClusChain();
        CapacityIsProduct(fat.bpb, |c|);
        r := |c| * BytesPerClus(fat.bpb);
      } else {
        r := fileSz;
      }
    }

    /** The device sector of the file's `n`th sector. */
    method SectorNo(n: nat) returns (r: Option<nat>)
      requires Valid()
      modifies this`clusChain
      ensures Valid()
      ensures r == var ss := FileSectors(fat.bpb, chain); if n < |ss| then Some(ss[n]) else None
    {
      hide CountOfClusters, FirstDataSector, FirstSectorOfCluster, FileSectors, Tables, IsChain;
      var c := ReadClusChain();
      if n >= Cells(|c|, fat.bpb.secPerClus) {
        return None;
      }
      FileSectorAt(fat.bpb, c, n);
      var fstSec := FirstSectorOfCluster(fat.bpb, c[Row(n, fat.bpb.secPerClus)]);
      r := Some(fstSec + Col(n, fat.bpb.secPerClus));
    }

    /** Bytes `offset ..` of the file, at most `size` of them and none past its end. */
    method Read(size: nat, offset: nat) returns (buf: seq<byte>)
      requires Valid()
      modifies this`clusChain
      ensures Valid() && old(Valid()) && Bytes() == old(Bytes())
      ensures buf == if offset >= Size() then [] else Contents()[offset..Min(offset + size, Size())]
    {
      hide OnVolume, FileChain, Reserved, ValidImage, Capacity, ValidBPB;
      hide CountOfClusters, FirstDataSector, FileSectors, Tables, IsChain, FileBytes, Cells;
      var sz := FileSize();
      if offset >= sz {
        return [];
      }

      ghost var bytes, end := Bytes(), Min(offset + size, sz);
      SliceOfPrefix(bytes, sz, offset, end);
      var secNo, offInBytes := offset / SECTOR_SIZE, offset % SECTOR_SIZE;
      var remained := Min(size, sz - offset);
      var rdSz := Min(remained, SECTOR_SIZE - offInBytes);
      buf := ReadInSector(secNo, offInBytes, rdSz);
      SliceMore(bytes, offset, offset + rdSz, end);
      var rest := ReadSectors(secNo + 1, offset + rdSz, remained - rdSz);
      buf := buf + rest;
    }

    /** The loop of `Read`: the `size` bytes from `pos` on, which if there are any is where sector `first` starts. */
    method ReadSectors(first: nat, pos: nat, size: nat) returns (buf: seq<byte>)
      requires Valid() && pos + size <= |Bytes()| && (size == 0 || SECTOR_SIZE * first == pos)
      modifies this`clusChain
      ensures Valid() && Bytes() == old(Bytes()) && buf == Bytes()[pos..pos + size]
    {
      hide OnVolume, FileChain, Reserved, ValidImage, Capacity;
      hide CountOfClusters, FirstDataSector, FileSectors, Tables, IsChain, FileBytes, Cells;
      ghost var bytes := Bytes();
      var secNo, remained := first, size;
      buf := [];
      while remained > 0
        invariant Valid() && Bytes() == bytes
        invariant |buf| + remained == size && buf == bytes[pos..pos + |buf|]
        invariant remained == 0 || SECTOR_SIZE * secNo == pos + |buf|
        decreases remained
      {
        var rdSz := Min(SECTOR_SIZE, remained);
        var chunk := ReadInSector(secNo, 0, rdSz);
        SliceMore(bytes, pos, pos + |buf|, pos + |buf| + rdSz);
        buf := buf + chunk;
        secNo, remained := secNo + 1, remained - rdSz;
      }
    }

    lemma SliceMore(bytes: seq<byte>, lo: nat, mid: nat, hi: nat)
      requires lo <= mid <= hi <= |bytes|
      ensures bytes[lo..mid] + bytes[mid..hi] == bytes[lo..hi]
    {
    }

    lemma SliceOfPrefix(bytes: seq<byte>, sz: nat, lo: nat, hi: nat)
      requires lo <= hi <= sz <= |bytes|
      ensures bytes[..sz][lo..hi] == bytes[lo..hi]
    {
    }

    /** `n` bytes of file sector `secNo`, from byte `off` of the sector. */
    method ReadInSector(secNo: nat, off: nat, n: nat) returns (chunk: seq<byte>)
      requires Valid() && off + n <= SECTOR_SIZE && SECTOR_SIZE * secNo + off + n <= |Bytes()| && off < SECTOR_SIZE
      requires SECTOR_SIZE * secNo < |Bytes()|
      modifies this`clusChain
      ensures Valid() && Bytes() == old(Bytes())
      ensures chunk == Bytes()[SECTOR_SIZE * secNo + off..SECTOR_SIZE * secNo + off + n]
    {
      hide CountOfClusters, FirstDataSector, FileSectors, Tables, IsChain, Cells;
      var s := SectorNo(secNo);
      FileSectorsOn(fat.bpb, fat.device.sectors, chain);
      chunk := fat.device.sectors[s.value][off..off + n];
    }

    /** `Truncate(length)` may need clusters; a hint must then be a good one. */
    ghost predicate HintReady(length: nat)
      requires ValidChain()
      reads this, fat, fat.device
    {
      var n := ClustersFor(fat.bpb, length);
      n > |chain| ==> GoodHint(fat.Entries(), CountOfClusters(fat.bpb), fat.freeCount, n - |chain|)
    }

    /** What `resize` answers when the file is given `length` bytes. */
    ghost function TruncateOutcome(length: nat): ResizeResult
      requires ValidChain()
      reads this, fat, fat.device
    {
      var n := ClustersFor(fat.bpb, length);
      if n <= |chain| then Resized
      else
        match AllocOutcome(fat.Entries(), CountOfClusters(fat.bpb), fat.freeCount, fat.Avail(), n - |chain|)
        case NoSpace => NoRoom
        case AssertFailed => Aborted
        case Got(_) => Resized
    }

    /** The chain with which `resize` leaves the file. */
    ghost function ChainAfter(length: nat): seq<nat>
      requires ValidChain()
      reads this, fat, fat.device
    {
      var n := ClustersFor(fat.bpb, length);
      if n <= |chain| then chain[..n]
      else
        match AllocOutcome(fat.Entries(), CountOfClusters(fat.bpb), fat.freeCount, fat.Avail(), n - |chain|)
        case Got(d) => chain + d
        case _ => chain
    }

    /**
     * With a good hint, what `Truncate` answers depends on three numbers: the clusters it must add, the memoised count,
     * and the clusters that the allocator's scan comes to. It adds the first of these.
     */
    lemma TruncateOutcomeIff(length: nat)
      requires ValidChain() && HintReady(length)
      ensures var k := ClustersFor(fat.bpb, length) - |chain|;
        var cs := Candidates(fat.Entries(), fat.Clusters(), fat.freeCount);
        && (TruncateOutcome(length) == Resized <==> k <= 0 || (k <= fat.Avail() && k <= |cs|))
        && (TruncateOutcome(length) == NoRoom <==> k > 0 && k > fat.Avail())
        && (TruncateOutcome(length) == Aborted <==> k > 0 && |cs| < k <= fat.Avail())
        && (TruncateOutcome(length) == Resized ==>
             ChainAfter(length) == if k <= 0 then chain[..|chain| + k] else chain + cs[..k])
    {
      hide CountOfClusters, FirstDataSector, Tables, ValidImage, ClustersFor, BytesPerClus, GoodHint, Collected;
      hide Candidates, OnVolume, FileChain, IsChain;
      ClustersForIsLeast(fat.bpb, length);
      var k := ClustersFor(fat.bpb, length) - |chain|;
      if k > 0 {
        OutcomeIsFirstFit(fat.Entries(), fat.Clusters(), fat.freeCount, fat.Avail(), k);
      }
    }

    ghost function Now(): Snap
      reads this, fat.device
    {
      Snap(fat.device.sectors, chain, fileSz)
    }

    /** The allocator's hint and count, now that a file of `was` clusters has those it has. */
    ghost predicate Booked(hint: nat, memo: Option<u32>, avail: nat, was: nat)
      reads this, fat
    {
      if |chain| > was then
        && fat.freeCount == NO_HINT
        && fat.availClusCnt.Some? && fat.availClusCnt.value == avail - (|chain| - was)
      else
        fat.freeCount == hint && fat.availClusCnt == Shifted(memo, |chain| - was)
    }

    /** Gives the file room for exactly `length` bytes, or changes nothing. */
    method Truncate(length: nat) returns (r: ResizeResult)
      requires Valid() && HintReady(length)
      modifies this, fat, fat.device
      ensures r == old(TruncateOutcome(length))
      ensures r != Aborted ==>
        fat.freeCount == NO_HINT || (fat.freeCount == old(fat.freeCount) && chain <= old(chain))
      ensures r == NoRoom ==>
        && Valid() && Now() == old(Now())
        && fat.freeCount == old(fat.freeCount) && fat.availClusCnt == Some(old(fat.Avail()))
      ensures r == Resized ==>
        && Valid() && chain == old(ChainAfter(length)) && TruncatedTo(fat.bpb, isDir, length, old(Now()), Now())
        && Booked(old(fat.freeCount), old(fat.availClusCnt), old(fat.Avail()), |old(chain)|)
    {
      hide Reserved, OnVolume;
      hide CountOfClusters, FirstDataSector, FileSectors, FileBytes, Tables, IsChain, Cells, Link, Cleared, GoodHint;
      hide AllocOutcome, GrowWrites, ShrinkWrites, WroteOn, OthersKept, BytesPerClus, TruncatedTo, ValidImage, Fresh;
      hide FAT.Cut, FAT.Grown;
      ClustersForIsLeast(fat.bpb, length);
      ghost var a, t, hint, avail := Now(), fat.Entries(), fat.freeCount, fat.Avail();
      var clusNum := ClustersFor(fat.bpb, length);
      ghost var k := clusNum - |chain|;
      if k > 0 {
        GrowthTaken(k);
      }
      var fst;
      fst, r := fat.Resize(fstClus, clusNum, isDir, chain);
      fstClus := fst;
      if r == Resized {
        clusChain := None;
        if !isDir {
          fileSz := length;
        }
        if k <= 0 {
          chain := chain[..clusNum];
          AfterCut(length, a);
        } else {
          ghost var d := AllocOutcome(t, CountOfClusters(fat.bpb), hint, avail, k).chain;
          chain := chain + d;
          AfterGrowth(length, a, d);
        }
        Seated(fat, length);
      }
    }

    lemma AfterCut(length: nat, a: Snap)
      requires ValidSnap(fat.bpb, a) && BytesPerClus(fat.bpb) > 0 && ClustersFor(fat.bpb, length) <= |a.chain|
      requires fat.Cut(a.img, a.chain, ClustersFor(fat.bpb, length)) && chain == a.chain[..ClustersFor(fat.bpb, length)]
      requires fileSz == if isDir then a.sz else length
      ensures ValidSnap(fat.bpb, Now()) && TruncatedTo(fat.bpb, isDir, length, a, Now())
    {
      hide CountOfClusters, FirstDataSector, FileBytes, Tables, IsChain, OthersKept, WroteOn, TruncatedTo, ClustersFor;
      CutWithin(length, a);
      CutTruncates(fat.bpb, isDir, length, a, Now());
    }

    lemma CutWithin(length: nat, a: Snap)
      requires ValidSnap(fat.bpb, a) && BytesPerClus(fat.bpb) > 0 && ClustersFor(fat.bpb, length) <= |a.chain|
      requires fat.Cut(a.img, a.chain, ClustersFor(fat.bpb, length))
      ensures var ws := ShrinkWrites(a.chain, ClustersFor(fat.bpb, length));
        WritesWithin(ws, ENTRIES_PER_SECTOR * fat.bpb.fatSz32) && WroteOn(fat.bpb, a.img, fat.device.sectors, ws)
    {
    }

    lemma AfterGrowth(length: nat, a: Snap, d: seq<nat>)
      requires ValidSnap(fat.bpb, a) && BytesPerClus(fat.bpb) > 0 && fat.Grown(a.img, isDir, a.chain, d)
      requires OnVolume(fat.bpb, d) && Fresh(Entries(fat.bpb, a.img), d)
      requires chain == a.chain + d && |chain| == ClustersFor(fat.bpb, length)
      requires fileSz == if isDir then a.sz else length
      ensures ValidSnap(fat.bpb, Now()) && TruncatedTo(fat.bpb, isDir, length, a, Now())
    {
      hide CountOfClusters, FirstDataSector, FileBytes, Tables, IsChain, OthersKept, WroteOn, TruncatedTo, ClustersFor;
      hide Cleared, GrowWrites, Fresh;
      GrowTruncates(fat.bpb, isDir, length, a, if isDir then Cleared(fat.bpb, a.img, d) else a.img, Now(), d);
    }

    /** With a good hint, what the allocator hands out is fresh and lies on the volume. */
    lemma GrowthTaken(k: nat)
      requires ValidChain() && k >= 1 && GoodHint(fat.Entries(), CountOfClusters(fat.bpb), fat.freeCount, k)
      ensures fat.freeCount == NO_HINT || fat.HintInReach(true)
      ensures var r := AllocOutcome(fat.Entries(), CountOfClusters(fat.bpb), fat.freeCount, fat.Avail(), k);
        r.Got? ==> |r.chain| == k && OnVolume(fat.bpb, r.chain) && Fresh(fat.Entries(), r.chain)
    {
      hide CountOfClusters, FirstDataSector, Tables, IsChain, Link, GoodHint, ValidImage, Fresh, Candidates, Reserved;
      hide Collected, FreeUpTo;
      var t, hint, avail := fat.Entries(), fat.freeCount, fat.Avail();
      OutcomeIsFirstFit(t, CountOfClusters(fat.bpb), hint, avail, k);
      GoodHintIsUsable(t, CountOfClusters(fat.bpb), hint, k);
      fat.TakenOnVolume(t, hint, avail, k);
    }

    /** A chain of `ClustersFor(length)` clusters can hold a file of `length` bytes. */
    lemma Seated(fat: FAT, length: nat)
      requires this.fat == fat && fat.Valid() && ValidSnap(fat.bpb, Now())
      requires (isDir || fileSz == length) && |chain| == ClustersFor(fat.bpb, length)
      ensures FileChain(fat.Entries(), fstClus, chain) ==> Size() <= Capacity(fat.bpb, |chain|)
    {
      ClustersForIsLeast(fat.bpb, length);
    }

    method CopyIntoSector(n: nat, off: nat, data: seq<byte>)
      requires Valid() && off + |data| <= SECTOR_SIZE && n < |FileSectors(fat.bpb, chain)|
      modifies this`clusChain, fat.device
      ensures Valid() && Copied(fat.bpb, SECTOR_SIZE * n + off, data, old(Now()), Now())
    {
      hide CountOfClusters, FirstDataSector, FileSectors, Tables, IsChain, Cells, Copied, FileBytes, Reserved;
      ghost var a := Now();
      var s := SectorNo(n);
      SectorCopied(fat.bpb, n, off, data, a);
      fat.device.sectors := fat.device.sectors[s.value := Splice(fat.device.sectors[s.value], off, data)];
    }

    /** The copying half of `Write`: first up to a sector boundary, then whole sectors, then the rest. */
    method CopyAll(buf: seq<byte>, offset: nat) returns (n: nat)
      requires Valid() && offset / SECTOR_SIZE < |FileSectors(fat.bpb, chain)| && offset + |buf| <= |Bytes()|
      modifies this`clusChain, fat.device
      ensures Valid() && n == |buf| && Copied(fat.bpb, offset, buf, old(Now()), Now())
    {
      hide CountOfClusters, FirstDataSector, FileSectors, Tables, IsChain, Cells, Copied, FileBytes, Reserved;
      ghost var a := Now();
      var secNo, offInBytes := offset / SECTOR_SIZE, offset % SECTOR_SIZE;
      var rdSz := Min(|buf|, SECTOR_SIZE - offInBytes);
      CopyIntoSector(secNo, offInBytes, buf[..rdSz]);
      secNo, n := secNo + 1, rdSz;
      while n < |buf|
        invariant n <= |buf| && Valid() && Copied(fat.bpb, offset, buf[..n], a, Now())
        invariant chain == a.chain && fileSz == a.sz
        invariant n == |buf| || SECTOR_SIZE * secNo == offset + n
      {
        var s := SectorNo(secNo);
        if s.None? {
          break;
        }

        ghost var b := Now();
        rdSz := Min(SECTOR_SIZE, |buf| - n);
        CopyIntoSector(secNo, 0, buf[n..n + rdSz]);
        CopiedMore(fat.bpb, offset, buf[..n], buf[n..n + rdSz], a, b, Now());
        assert buf[..n] + buf[n..n + rdSz] == buf[..n + rdSz];
        secNo, n := secNo + 1, n + rdSz;
      }
      assert buf[..|buf|] == buf;
    }

    /**
     * Writes `buf` at `offset`, giving the file more room first if it ends there or beyond. Reports 0 if
     * there is no room. An empty write may find no sector to stand on, which the source does not survive.
     */
    method Write(buf: seq<byte>, offset: nat) returns (r: WriteResult)
      requires Valid() && HintReady(offset + |buf|) && offset + |buf| < 0x1_0000_0000
      modifies this, fat, fat.device
      ensures r != Crashed ==>
        fat.freeCount == NO_HINT || (fat.freeCount == old(fat.freeCount) && chain <= old(chain))
      ensures var grow, t := offset + |buf| >= old(Size()), old(TruncateOutcome(offset + |buf|));
        && (r == Crashed <==>
             grow && (t == Aborted || (t == Resized && buf == [] && offset % BytesPerClus(fat.bpb) == 0)))
        && (grow && t == NoRoom ==> r == Wrote(0) && Valid() && Now() == old(Now()))
        && (r != Crashed && !(grow && t == NoRoom) ==>
             && r == Wrote(|buf|) && Valid() && Overwritten(fat.bpb, isDir, offset, buf, old(Now()), Now())
             && Booked(old(fat.freeCount), old(fat.availClusCnt), old(fat.Avail()), |old(chain)|))
    {
      hide OnVolume, ValidBPB, Capacity, ChainAfter;
      hide CountOfClusters, FirstDataSector, FileSectors, Tables, IsChain, Cells, Copied, FileBytes, Reserved;
      hide Overwritten, BytesPerClus, ClustersFor, GoodHint, AllocOutcome, Link, OthersKept, ValidImage, TruncatedTo;
      ghost var a := Now();
      var sz := FileSize();
      if offset + |buf| >= sz {
        var t := Truncate(offset + |buf|);
        if t == NoRoom {
          return Wrote(0);
        }
        if t == Aborted {
          return Crashed;
        }
        TruncatedLength(fat.bpb, isDir, offset + |buf|, a, Now());
      }

      ghost var m := Now();
      ShiftedNone(fat.availClusCnt);
      NoSectorIff(fat.bpb, offset, |buf|);
      r := WriteInside(buf, offset);
      if r == Crashed {
        return;
      }
      if offset + |buf| >= sz {
        CopiedAfterTruncate(fat.bpb, isDir, offset, buf, a, m, Now());
      } else {
        CopiedInPlace(fat.bpb, isDir, offset, buf, a, Now());
      }
    }

    /** The second half of `Write`: the file has clusters for the bytes. */
    method WriteInside(buf: seq<byte>, offset: nat) returns (r: WriteResult)
      requires Valid() && offset + |buf| <= |Bytes()|
      modifies this`clusChain, fat.device
      ensures r == Crashed <==> offset / SECTOR_SIZE >= Cells(|chain|, fat.bpb.secPerClus)
      ensures r != Crashed ==>
        r == Wrote(|buf|) && Valid() && Copied(fat.bpb, offset, buf, old(Now()), Now())
    {
      hide CountOfClusters, FirstDataSector, FileSectors, Tables, IsChain, Cells, Copied, FileBytes, Reserved;
      hide OnVolume, ValidImage, FileChain;
      var s := SectorNo(offset / SECTOR_SIZE);
      if s.None? {
        return Crashed;
      }
      var n := CopyAll(buf, offset);
      r := Wrote(n);
    }
  }

  /** What has been written reads back. */
  method WriteThenRead(f: File, buf: seq<byte>, offset: nat) returns (r: WriteResult, back: seq<byte>)
    requires f.Valid() && f.HintReady(offset + |buf|) && offset + |buf| < 0x1_0000_0000
    modifies f, f.fat, f.fat.device
    ensures r == Wrote(|buf|) ==> back == buf
    ensures r.Wrote? && r.n != |buf| ==> r.n == 0 && f.Valid() && f.Now() == old(f.Now())
  {
    hide CountOfClusters, FirstDataSector, Tables, IsChain, Cells, FileBytes, Reserved, OnVolume, GoodHint;
    hide AllocOutcome, OthersKept, ValidImage, ClustersFor, BytesPerClus;
    back := [];
    r := f.Write(buf, offset);
    if r == Wrote(|buf|) && buf != [] {
      back := f.Read(|buf|, offset);
    }
  }

  /** An empty write at the end of a plain file that fills its clusters stops the process. */
  method EmptyWriteCrashes(f: File) returns (r: WriteResult)
    requires f.Valid() && !f.isDir && f.fileSz < 0x1_0000_0000 && BytesPerClus(f.fat.bpb) > 0
    requires f.fileSz % BytesPerClus(f.fat.bpb) == 0
    modifies f, f.fat, f.fat.device
    ensures r == Crashed
  {
    hide CountOfClusters, FirstDataSector, FileSectors, Tables, IsChain, Cells, FileBytes, Overwritten, ClustersFor;
    hide AllocOutcome;
    ClustersForIsLeast(f.fat.bpb, f.fileSz);
    r := f.Write([], f.fileSz);
  }
}
