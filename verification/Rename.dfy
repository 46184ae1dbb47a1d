/** The whole of a rename in fat32_fuse.cpp: both lookups, every reply, and all that a successful rename keeps. */
module Rename {
  import opened Base
  import opened FatTable
  import opened FirstFit
  import opened Geometry
  import opened Device
  import opened FatImage
  import FileData
  import opened FileSteps
  import opened Files
  import opened LongName
  import opened ShortEntry
  import opened DirLog
  import opened DirScan
  import opened DirUpdate
  import opened DirRuns
  import opened Directories
  import opened Survival
  import opened Walk
  import opened Nodes
  import opened Namespace
  import opened RenameMap
  import opened Ownership

  // ----- what a rename does to the names -----

  /** A group says what `m` says. The size field of a directory is never written. */
  predicate Says(x: Group, m: Meta, isDir: bool)
    requires |x.entries| > 0
  {
    MetaIn(x).(size := m.size) == m && (isDir || MetaIn(x).size == m.size)
  }

  /** The map `m` without the names of `gone`; the name `to` and the names of `was` lead to `now`. */
  ghost function MapAfter(m: imap<seq<byte>, Group>, gone: Option<Group>, to: seq<byte>, was: Option<Group>, now: Group)
    : imap<seq<byte>, Group>
  {
    imap u: seq<byte> | u == to || (u in m && Some(m[u]) != gone) :: if u == to || Some(m[u]) == was then now else m[u]
  }

  /**
   * The entries `l` of the source's directory became `l'`, the entries `k` of the target's `k'`: the names of
   * the source's group are gone, the new name leads to `now`, which says `m`, and no other name is touched.
   */
  ghost predicate NamesMoved(gbkOf: Conversion, l: seq<Entry>, l': seq<Entry>, k: seq<Entry>, k': seq<Entry>,
                             same: bool, from: seq<byte>, to: seq<byte>, now: Group, m: Meta, isDir: bool)
    requires Lookup(l, NameOf(gbkOf, from)).Some?
  {
    var x, was := Lookup(l, NameOf(gbkOf, from)).value, Lookup(k, NameOf(gbkOf, to));
    && ValidDir(gbkOf, l') && ValidDir(gbkOf, k') && |now.entries| > 0 && Says(now, m, isDir)
    && MapOf(gbkOf, k') == MapAfter(MapOf(gbkOf, k), if same then Some(x) else None, to, was, now)
    && (!same ==>
         MapOf(gbkOf, l') == imap u: seq<byte> | u in MapOf(gbkOf, l) && MapOf(gbkOf, l)[u] != x :: MapOf(gbkOf, l)[u])
  }

  /**
   * What that means for looking up any name `u`. The new name leads to an entry with the source's first cluster, times
   * and size. In one directory, the old name and its aliases are gone unless one is the new name; in two, they are gone
   * from the first. The aliases of a file that had the new name lead where it leads, and all other names stay.
   */
  lemma NamesMovedMeans(gbkOf: Conversion, l: seq<Entry>, l': seq<Entry>, k: seq<Entry>, k': seq<Entry>, same: bool,
                        from: seq<byte>, to: seq<byte>, now: Group, m: Meta, isDir: bool, u: seq<byte>)
    requires Lookup(l, NameOf(gbkOf, from)).Some? && (same ==> l == k && l' == k')
    requires NamesMoved(gbkOf, l, l', k, k', same, from, to, now, m, isDir)
    ensures var x, was := Lookup(l, NameOf(gbkOf, from)).value, Lookup(k, NameOf(gbkOf, to));
      var before, after := Lookup(k, NameOf(gbkOf, u)), Lookup(k', NameOf(gbkOf, u));
      && (u == to ==> after == Some(now))
      && (u != to && same && before == Some(x) ==> after == None)
      && (u != to && before.Some? && before == was && (!same || before != Some(x)) ==> after == Some(now))
      && (u != to && (before == None || (before != was && (!same || before != Some(x)))) ==> after == before)
      && (!same ==> Lookup(l', NameOf(gbkOf, u)) ==
                    if Lookup(l, NameOf(gbkOf, u)) == Some(x) then None else Lookup(l, NameOf(gbkOf, u)))
    ensures |now.entries| > 0
    ensures var e := now.entries[|now.entries| - 1];
      && ReadU32(e[26..28] + e[20..22], 0) == m.fstClus && (isDir || ReadU32(e, 28) == m.size)
      && e[13..18] == m.crt && e[18..20] == m.acc && e[22..26] == m.wrt
  {
    hide ValidDir, Lookup;
    InMapIff(gbkOf, k, u);
    InMapIff(gbkOf, k', u);
    InMapIff(gbkOf, l, u);
    InMapIff(gbkOf, l', u);
  }

  lemma InMapIff(gbkOf: Conversion, log: seq<Entry>, u: seq<byte>)
    ensures Lookup(log, NameOf(gbkOf, u)) == if u in MapOf(gbkOf, log) then Some(MapOf(gbkOf, log)[u]) else None
  {
    hide Lookup;
  }

  lemma OverNamesMoved(gbkOf: Conversion, l: seq<Entry>, l': seq<Entry>, k: seq<Entry>, k': seq<Entry>, same: bool,
                       from: seq<byte>, to: seq<byte>, m: Meta, target: Meta, isDir: bool)
    requires ValidDir(gbkOf, l) && ValidDir(gbkOf, k) && (same ==> l == k && l' == k') && ValidMeta(m)
      && ValidMeta(target)
    requires Lookup(l, NameOf(gbkOf, from)).Some? && Lookup(k, NameOf(gbkOf, to)).Some?
    requires var x, y := Lookup(l, NameOf(gbkOf, from)).value, Lookup(k, NameOf(gbkOf, to)).value;
      && (same ==> x != y) && |x.entries| > 0 && |y.entries| > 0
      && x.start + |x.entries| <= |l| && y.start + |y.entries| <= |k|
      && Moved(l, l', k, k', same, x.start, |x.entries|, y.start + |y.entries| - 1, m, target, isDir)
    ensures var y := Lookup(k, NameOf(gbkOf, to)).value;
      |y.entries| > 0 && NamesMoved(gbkOf, l, l', k, k', same, from, to, WithMetaIn(y, m, isDir), m, isDir)
  {
    hide ValidDir, Lookup, Moved, WithMetaIn, MetaIn;
    if same {
      RenameWithinDir(gbkOf, l, l', from, to, m, target, isDir);
    } else {
      RenameAcrossDirs(gbkOf, l, l', k, k', from, to, m, target, isDir);
    }
  }

  lemma NewNamesMoved(gbkOf: Conversion, l: seq<Entry>, l': seq<Entry>, k: seq<Entry>, mid: seq<Entry>, k': seq<Entry>,
                      same: bool, range: DirEntryRange, from: seq<byte>, utf16: seq<byte>, stem: seq<byte>,
                      stamp: seq<byte>, m: Meta, placeholder: Meta, isDir: bool)
    requires |utf16| > 0 && Even(|utf16|) && |stamp| == 5 && NoTerminator(utf16) && Creatable(utf16, stem)
    requires ValidDir(gbkOf, l) && ValidDir(gbkOf, k) && (same ==> l == k && l' == k') && ValidMeta(m)
      && ValidMeta(placeholder)
    requires Lookup(l, NameOf(gbkOf, from)).Some? && Lookup(k, NameOf(gbkOf, utf16)) == None
    requires CreatedAt(k, mid, range, utf16, stem, isDir, stamp)
    requires var x := Lookup(l, NameOf(gbkOf, from)).value;
      && |x.entries| > 0 && x.start + |x.entries| <= |if same then mid else l|
      && range.count > 0 && range.start + range.count <= |mid|
      && Moved(if same then mid else l, l', mid, k', same, x.start, |x.entries|, range.start + range.count - 1, m,
        placeholder, isDir)
    ensures utf16 in MapOf(gbkOf, k')
    ensures NamesMoved(gbkOf, l, l', k, k', same, from, utf16, MapOf(gbkOf, k')[utf16], m, isDir)
  {
    hide ValidDir, Lookup, Creatable, NoTerminator, CreatedAt, MetaIn, Moved;
    if same {
      RenameToNewWithinDir(gbkOf, k, mid, k', range, from, utf16, stem, isDir, stamp, m, placeholder);
    } else {
      var x := Lookup(l, NameOf(gbkOf, from)).value;
      MovedToNew(l, l', mid, k', x, range.start + range.count - 1, m, placeholder, isDir);
      SourceDirMap(gbkOf, l, from, placeholder, isDir);
      RenameToNewAcrossDirs(gbkOf, k, mid, k', range, utf16, stem, isDir, stamp, m);
    }
  }

  lemma MovedToNew(l: seq<Entry>, l': seq<Entry>, mid: seq<Entry>, k': seq<Entry>, x: Group, j: nat, m: Meta,
                   placeholder: Meta, isDir: bool)
    requires |x.entries| > 0 && x.start + |x.entries| <= |l| && j < |mid| && ValidMeta(m) && ValidMeta(placeholder)
    requires Moved(l, l', mid, k', false, x.start, |x.entries|, j, m, placeholder, isDir)
    ensures k' == MetaWritten(mid, j, m, isDir)
    ensures l' == Marked(MetaWritten(l, x.start + |x.entries| - 1, placeholder, isDir), x.start, |x.entries|)
  {
  }

  // ----- handles and ownership -----

  /** `node` stands for what `name` leads to in a directory with entries `log` and chain `p`. */
  ghost predicate StandsFor(g: BPB, log: seq<Entry>, p: seq<nat>, name: Name, node: Node)
    requires ValidBPB(g) && p != []
    reads node, node.file, node.file.fat, node.file.fat.device
  {
    var x := Lookup(log, name);
    && node.MetaFits()
    && (x.Some? ==>
         && node.parentClus == p[0] && node.entryNum == x.value.start
           && WalkFits(g, p, node.entryNum, |x.value.entries|)
         && !node.isDeleted && node.file.ValidChain() && Apart(node.file.chain, p))
  }

  /** `node` is the handle for what `name` leads to in a valid directory. */
  ghost predicate Handle(gbkOf: Conversion, parent: Directory, name: seq<byte>, node: Node)
    reads parent.file, parent.file.fat, parent.file.fat.device, node, node.file, node.file.fat, node.file.fat.device
  {
    && parent.Valid() && ValidDir(gbkOf, parent.Log()) && node.file.fat == parent.file.fat && node.file != parent.file
    && StandsFor(parent.file.fat.bpb, parent.Log(), parent.file.chain, NameOf(gbkOf, name), node)
  }

  /** The group that `name` leads to. */
  ghost function GroupOf(gbkOf: Conversion, parent: Directory, name: seq<byte>): Group
    requires parent.Valid() && Lookup(parent.Log(), NameOf(gbkOf, name)).Some?
    reads parent.file, parent.file.fat, parent.file.fat.device
  {
    Lookup(parent.Log(), NameOf(gbkOf, name)).value
  }

  lemma HandleIsLive(gbkOf: Conversion, parent: Directory, name: seq<byte>, node: Node)
    requires Handle(gbkOf, parent, name, node) && Lookup(parent.Log(), NameOf(gbkOf, name)).Some?
    ensures var x, p := GroupOf(gbkOf, parent, name), parent.file.chain;
      && |x.entries| > 0 && x.start + |x.entries| <= |parent.Log()| && node.entryNum == x.start
      && node.Live(p, |x.entries|) && LiveFrom(parent.Log(), x.start, |x.entries|)
      && node.ParentLog(p) == parent.Log() && node.Parent(p) == Snap(parent.file.fat.device.sectors, p, 0)
  {
    hide CountOfClusters, FirstDataSector, Tables, IsChain, OnVolume, Reserved, ValidImage, LogOf, WalkFits, Groups;
    hide WellFormed, Capacity, Cells, IsLong, IsEmpty;
    var x := GroupOf(gbkOf, parent, name);
    HeadIsUsable(parent);
    SizeFieldIgnored(parent.file.fat.bpb, parent.file.Now());
    FoundIsLive(parent.Log(), NameOf(gbkOf, name));
  }

  lemma FoundIsLive(log: seq<Entry>, name: Name)
    requires WellFormed(log) && Lookup(log, name).Some?
    ensures var x := Lookup(log, name).value;
      |x.entries| > 0 && x.start + |x.entries| <= |log| && EndsAt(log, x.start, |x.entries|)
        && LiveFrom(log, x.start, |x.entries|)
  {
    hide *;
    FoundIsHeld(log, name);
    var x := Lookup(log, name).value;
    HeldParts(log, x.start, x.entries);
    GroupEndsLive(x.entries);
    LiveAt(log, x.start, x.entries);
  }

  lemma GroupEndsLive(g: seq<Entry>)
    requires ValidGroup(g)
    ensures EndsAt(g, 0, |g|) && LiveFrom(g, 0, |g|)
  {
  }

  lemma LiveAt(log: seq<Entry>, s: nat, g: seq<Entry>)
    requires s + |g| <= |log| && log[s..s + |g|] == g && EndsAt(g, 0, |g|) && LiveFrom(g, 0, |g|)
    ensures EndsAt(log, s, |g|) && LiveFrom(log, s, |g|)
  {
    hide IsLong, IsEmpty;
    forall i | s <= i < s + |g| ensures log[i] == g[i - s] {
      assert log[i] == log[s..s + |g|][i - s];
    }
  }

  /** The keys under which an ownership map knows the two directories, the source and the target. */
  datatype Ids = Ids(from: nat, to: nat, source: nat, target: nat)

  /** The clusters are accounted for: `p` and `q` are the directories', `c` the source's, `d` the target's. */
  ghost predicate Books(g: BPB, img: Image, chains: map<nat, seq<nat>>, others: set<nat>, ids: Ids,
                        p: seq<nat>, q: seq<nat>, c: seq<nat>, d: seq<nat>)
    requires ValidBPB(g) && ValidImage(g, img)
  {
    && Partitioned(g, img, chains, others)
    && ids.from in chains && chains[ids.from] == p && ids.to in chains && chains[ids.to] == q
    && ids.source in chains && chains[ids.source] == c && ChainOf(chains, ids.target) == d
    && ids.from !in {ids.source, ids.target} && ids.to !in {ids.source, ids.target} && ids.source != ids.target
  }

  lemma BooksApart(g: BPB, img: Image, chains: map<nat, seq<nat>>, others: set<nat>, i: nat, j: nat)
    requires ValidBPB(g) && ValidImage(g, img) && Partitioned(g, img, chains, others) && i != j
    ensures Apart(ChainOf(chains, i), ChainOf(chains, j))
  {
    hide CountOfClusters, FirstDataSector, Tables, IsChain, OnVolume;
    var c, d := ChainOf(chains, i), ChainOf(chains, j);
  }

  lemma BooksFourApart(g: BPB, img: Image, chains: map<nat, seq<nat>>, others: set<nat>, ids: Ids,
                       p: seq<nat>, q: seq<nat>, c: seq<nat>, d: seq<nat>)
    requires ValidBPB(g) && ValidImage(g, img) && Books(g, img, chains, others, ids, p, q, c, d)
    ensures FourApart(p, q, c, d) && (ids.from != ids.to ==> Apart(p, q))
  {
    hide Partitioned, Apart, CountOfClusters, FirstDataSector;
    if ids.from != ids.to {
      BooksApart(g, img, chains, others, ids.from, ids.to);
      BooksApart(g, img, chains, others, ids.to, ids.from);
    }
    BooksApart(g, img, chains, others, ids.source, ids.from);
    BooksApart(g, img, chains, others, ids.source, ids.to);
    BooksApart(g, img, chains, others, ids.target, ids.from);
    BooksApart(g, img, chains, others, ids.target, ids.to);
    BooksApart(g, img, chains, others, ids.source, ids.target);
  }

  /**
   * From the device `a` to `b`, where the directories' chains are `p'` and `q'`: the names have moved, the
   * source's clusters `c` keep their bytes, each cluster still has one owner, the target now owns `c`, the
   * source is gone, and what the target owned before is free.
   */
  ghost predicate Renamed(gbkOf: Conversion, g: BPB, a: Image, b: Image, chains: map<nat, seq<nat>>, others: set<nat>,
                          ids: Ids, p: seq<nat>, q: seq<nat>, c: seq<nat>, p': seq<nat>, q': seq<nat>,
                          from: seq<byte>, to: seq<byte>, now: Group, m: Meta, isDir: bool)
  {
    && ValidSnap(g, Snap(a, p, 0)) && ValidSnap(g, Snap(a, q, 0)) && ValidSnap(g, Snap(b, p', 0))
      && ValidSnap(g, Snap(b, q', 0))
    && Lookup(LogOf(g, Snap(a, p, 0)), NameOf(gbkOf, from)).Some?
    && NamesMoved(gbkOf, LogOf(g, Snap(a, p, 0)), LogOf(g, Snap(b, p', 0)), LogOf(g, Snap(a, q, 0)),
      LogOf(g, Snap(b, q', 0)), ids.from == ids.to, from, to, now, m, isDir)
    && Chained(g, b, c) && OnVolume(g, c) && FileData.FileBytes(g, b, c) == FileData.FileBytes(g, a, c)
    && ids.from in chains && ids.to in chains && ids.source in chains && (ids.from == ids.to ==> p' == q')
    && ids.from !in {ids.source, ids.target} && ids.to !in {ids.source, ids.target} && ids.source != ids.target
    && Partitioned(g, b, RenamedChains(chains, ids.from, ids.to, ids.source, ids.target, p', q'), others)
    && forall n :: n in ChainOf(chains, ids.target) && n !in p' + q' + c ==>
         n < |Entries(g, b)| && Link(Entries(g, b), n) == 0
  }

  /**
   * What that means apart from the names: the source's clusters and bytes are those from before, they are the target's
   * now, and the clusters that the target had, unless a directory has taken them, are free.
   */
  lemma RenamedMeans(gbkOf: Conversion, g: BPB, a: Image, b: Image, chains: map<nat, seq<nat>>, others: set<nat>,
                     ids: Ids, p: seq<nat>, q: seq<nat>, c: seq<nat>, p': seq<nat>, q': seq<nat>,
                     from: seq<byte>, to: seq<byte>, now: Group, m: Meta, isDir: bool, n: nat)
    requires Renamed(gbkOf, g, a, b, chains, others, ids, p, q, c, p', q', from, to, now, m, isDir)
    ensures ValidBPB(g) && ValidImage(g, a) && ValidImage(g, b) && OnVolume(g, c)
    ensures c == [] || IsChain(Entries(g, b), c)
    ensures FileData.FileBytes(g, b, c) == FileData.FileBytes(g, a, c)
    ensures ids.source in chains && exists r ::
      && Partitioned(g, b, r, others)
      && ids.target in r && r[ids.target] == chains[ids.source] && ids.source !in r
      && ids.from in r && r[ids.from] == p' && ids.to in r && r[ids.to] == q'
      && forall i :: i !in {ids.from, ids.to, ids.source, ids.target} ==>
           (i in r <==> i in chains) && (i in r ==> r[i] == chains[i])
    ensures n in ChainOf(chains, ids.target) && n !in p' + q' + c ==>
            n < |Entries(g, b)| && Link(Entries(g, b), n) == 0
  {
    hide NamesMoved, Partitioned, FileData.FileBytes, IsChain, Tables, CountOfClusters, FirstDataSector, LogOf, Lookup;
    var r := RenamedChains(chains, ids.from, ids.to, ids.source, ids.target, p', q');
    assert Partitioned(g, b, r, others);
  }

  // ----- the branches -----

  /** What holds once the old name has been found. */
  ghost predicate Ready(gbkOf: Conversion, oldParent: Directory, from: seq<byte>, newParent: Directory, source: Node,
                        chains: map<nat, seq<nat>>, others: set<nat>, ids: Ids)
    reads oldParent.file, oldParent.file.fat, oldParent.file.fat.device, source, source.file, source.file.fat
    reads source.file.fat.device, newParent.file, newParent.file.fat, newParent.file.fat.device
  {
    && Handle(gbkOf, oldParent, from, source) && Lookup(oldParent.Log(), NameOf(gbkOf, from)).Some?
    && newParent.Valid() && ValidDir(gbkOf, newParent.Log()) && newParent.file.fat == oldParent.file.fat
    && source.file != newParent.file && (oldParent == newParent || oldParent.file != newParent.file)
    && (oldParent == newParent <==> ids.from == ids.to)
    && ids.source in chains
    && Books(oldParent.file.fat.bpb, oldParent.file.fat.device.sectors, chains, others, ids,
             oldParent.file.chain, newParent.file.chain, source.file.chain, ChainOf(chains, ids.target))
  }

  /**
   * `target` is the handle for what the new name leads to; the file system below keeps a rename from its
   * own ancestors.
   */
  ghost predicate ReadyTarget(gbkOf: Conversion, oldParent: Directory, newParent: Directory, to: seq<byte>,
                              source: Node, target: Node, chains: map<nat, seq<nat>>, ids: Ids)
    reads newParent.file, newParent.file.fat, newParent.file.fat.device
    reads target, target.file, target.file.fat, target.file.fat.device
  {
    && Handle(gbkOf, newParent, to, target) && Lookup(newParent.Log(), NameOf(gbkOf, to)).Some?
    && target.file != oldParent.file && (target != source ==> target.file != source.file)
    && (target.file.isDir ==> IsSubDir(target.file))
    && (target != source ==> target.file.chain == ChainOf(chains, ids.target))
  }

  lemma SameDirIff(g: BPB, img: Image, chains: map<nat, seq<nat>>, others: set<nat>, ids: Ids, p: seq<nat>,
                   q: seq<nat>, c: seq<nat>, d: seq<nat>)
    requires ValidBPB(g) && ValidImage(g, img) && Books(g, img, chains, others, ids, p, q, c, d) && p != []
    ensures p == q <==> ids.from == ids.to
  {
    hide Partitioned, Apart, CountOfClusters, FirstDataSector;
    BooksFourApart(g, img, chains, others, ids, p, q, c, d);
    if ids.from != ids.to {
      ApartDiffer(p, q);
    }
  }

  /** What moving onto an existing file leaves. */
  lemma OverSettles(gbkOf: Conversion, g: BPB, a: Image, b: Image, chains: map<nat, seq<nat>>, others: set<nat>,
                    ids: Ids, p: seq<nat>, q: seq<nat>, c: seq<nat>, d: seq<nat>, from: seq<byte>, to: seq<byte>,
                    m: Meta, target: Meta, isDir: bool)
    requires ValidSnap(g, Snap(a, p, 0)) && ValidSnap(g, Snap(a, q, 0)) && ValidSnap(g, Snap(b, p, 0))
    requires ValidSnap(g, Snap(b, q, 0))
    requires Books(g, a, chains, others, ids, p, q, c, d) && p != [] && ValidMeta(m) && ValidMeta(target)
    requires Chained(g, a, c) && Chained(g, b, c) && FileData.FileBytes(g, b, c) == FileData.FileBytes(g, a, c)
    requires OthersKept(g, a, b, p + q + c + d, p + q + c)
    requires var l, k := LogOf(g, Snap(a, p, 0)), LogOf(g, Snap(a, q, 0));
      && ValidDir(gbkOf, l) && ValidDir(gbkOf, k)
      && Lookup(l, NameOf(gbkOf, from)).Some? && Lookup(k, NameOf(gbkOf, to)).Some?
      && var x, y := Lookup(l, NameOf(gbkOf, from)).value, Lookup(k, NameOf(gbkOf, to)).value;
      && (p == q ==> x != y) && |x.entries| > 0 && |y.entries| > 0
      && x.start + |x.entries| <= |l| && y.start + |y.entries| <= |k|
      && Moved(l, LogOf(g, Snap(b, p, 0)), k, LogOf(g, Snap(b, q, 0)), p == q, x.start, |x.entries|,
        y.start + |y.entries| - 1, m, target, isDir)
    ensures var y := Lookup(LogOf(g, Snap(a, q, 0)), NameOf(gbkOf, to)).value;
      && |y.entries| > 0
      && Renamed(gbkOf, g, a, b, chains, others, ids, p, q, c, p, q, from, to, WithMetaIn(y, m, isDir), m, isDir)
  {
    hide Partitioned, Apart, CountOfClusters, FirstDataSector, Tables, LogOf, ValidDir, Lookup, Moved, NamesMoved;
    hide WithMetaIn, OthersKept, FileData.FileBytes, IsChain, OnVolume, RenamedChains, Reserved, ValidImage;
    SameDirIff(g, a, chains, others, ids, p, q, c, d);
    BooksFourApart(g, a, chains, others, ids, p, q, c, d);
    OverNamesMoved(gbkOf, LogOf(g, Snap(a, p, 0)), LogOf(g, Snap(b, p, 0)), LogOf(g, Snap(a, q, 0)),
    LogOf(g, Snap(b, q, 0)), p == q, from, to, m, target, isDir);
    RenameKeepsPartition(g, a, b, chains, others, ids.from, ids.to, ids.source, ids.target, p, q);
  }

  /** The new name exists and leads to another file. */
  method RenameOnto(oldParent: Directory, newParent: Directory, source: Node, target: Node, ghost gbkOf: Conversion,
                    ghost from: seq<byte>, ghost to: seq<byte>, ghost chains: map<nat, seq<nat>>,
                    ghost others: set<nat>, ghost ids: Ids)
    returns (r: Reply, ghost now: Group)
    requires Ready(gbkOf, oldParent, from, newParent, source, chains, others, ids)
    requires ReadyTarget(gbkOf, oldParent, newParent, to, source, target, chains, ids)
    requires source != target && source.file.isDir == target.file.isDir
    requires oldParent == newParent ==> GroupOf(gbkOf, oldParent, from) != GroupOf(gbkOf, newParent, to)
    modifies source, target, source.file, target.file, source.file.fat, source.file.fat.device
    ensures r == if target.file.isDir && Groups(old(LogOf(target.file.fat.bpb, target.file.Now()))[2..], 2) != []
      then NotEmpty else Done
    ensures r == NotEmpty ==> source.file.fat.device.sectors == old(source.file.fat.device.sectors) && !source.isDeleted
    ensures r == Done ==>
      && source.isDeleted && target.MetaFits() && target.MetaNow() == old(source.MetaNow())
      && target.file.ValidChain() && target.file.chain == old(source.file.chain)
      && Renamed(gbkOf, source.file.fat.bpb, old(source.file.fat.device.sectors), source.file.fat.device.sectors,
        chains, others, ids, oldParent.file.chain, newParent.file.chain, old(source.file.chain), oldParent.file.chain,
           newParent.file.chain, from, to, now, old(source.MetaNow()), source.file.isDir)
  {
    hide CountOfClusters, FirstDataSector, Tables, IsChain, OthersKept, LogOf, FileData.FileBytes, WellFormed, Groups;
    hide Lookup, WalkFits, OnVolume, Reserved, Capacity, Apart, Cells, ValidImage, Moved, EndsAt, LiveFrom, Renamed;
    hide NamesDistinct, Partitioned;
    ghost var g, a, p, q := oldParent.file.fat.bpb, oldParent.file.fat.device.sectors, oldParent.file.chain,
      newParent.file.chain;
    ghost var c, d, m, t := source.file.chain, target.file.chain, source.MetaNow(), target.MetaNow();
    HandleIsLive(gbkOf, oldParent, from, source);
    HandleIsLive(gbkOf, newParent, to, target);
    ghost var x, y := GroupOf(gbkOf, oldParent, from), GroupOf(gbkOf, newParent, to);
    BooksFourApart(g, a, chains, others, ids, p, q, c, d);
    SameDirIff(g, a, chains, others, ids, p, q, c, d);
    now := y;
    r := RenameOver(source, target, p, |x.entries|, q, |y.entries|);
    if r == Done {
      OverSettles(gbkOf, g, a, source.file.fat.device.sectors, chains, others, ids, p, q, c, d, from, to, m, t,
        source.file.isDir);
      now := WithMetaIn(y, m, source.file.isDir);
    }
  }

  /** The file's names, entries and clusters are gone; everything else is as before. */
  ghost predicate Destroyed(gbkOf: Conversion, g: BPB, a: Image, b: Image, chains: map<nat, seq<nat>>,
                            others: set<nat>, ids: Ids, p: seq<nat>, from: seq<byte>)
  {
    && ValidSnap(g, Snap(a, p, 0)) && ValidSnap(g, Snap(b, p, 0)) && ids.source in chains
    && var l, l' := LogOf(g, Snap(a, p, 0)), LogOf(g, Snap(b, p, 0));
    && Lookup(l, NameOf(gbkOf, from)).Some?
    && var x, names := Lookup(l, NameOf(gbkOf, from)).value, MapOf(gbkOf, l);
    && ValidDir(gbkOf, l') && from !in MapOf(gbkOf, l')
    && MapOf(gbkOf, l') == (imap u: seq<byte> | u in names && names[u] != x :: names[u])
    && Partitioned(g, b, chains[ids.from := p] - {ids.source}, others)
    && forall n :: n in chains[ids.source] && n !in p ==> n < |Entries(g, b)| && Link(Entries(g, b), n) == 0
  }

  /** Of a destroyed file no name is left, its clusters are free, and every other name leads where it did. */
  lemma DestroyedMeans(gbkOf: Conversion, g: BPB, a: Image, b: Image, chains: map<nat, seq<nat>>,
                       others: set<nat>, ids: Ids, p: seq<nat>, from: seq<byte>, u: seq<byte>, n: nat)
    requires Destroyed(gbkOf, g, a, b, chains, others, ids, p, from)
    ensures ValidSnap(g, Snap(a, p, 0)) && ValidSnap(g, Snap(b, p, 0)) && ids.source in chains
    ensures var l, l' := LogOf(g, Snap(a, p, 0)), LogOf(g, Snap(b, p, 0));
      && Lookup(l, NameOf(gbkOf, from)).Some? && Lookup(l', NameOf(gbkOf, from)) == None
      && Lookup(l', NameOf(gbkOf, u)) ==
         if Lookup(l, NameOf(gbkOf, u)) == Lookup(l, NameOf(gbkOf, from)) then None else Lookup(l, NameOf(gbkOf, u))
    ensures n in chains[ids.source] && n !in p ==> n < |Entries(g, b)| && Link(Entries(g, b), n) == 0
  {
    hide Partitioned, Tables, CountOfClusters, FirstDataSector, LogOf, Lookup, ValidDir;
    var l, l' := LogOf(g, Snap(a, p, 0)), LogOf(g, Snap(b, p, 0));
    InMapIff(gbkOf, l, u);
    InMapIff(gbkOf, l', u);
    InMapIff(gbkOf, l', from);
  }

  lemma ItselfSettles(gbkOf: Conversion, g: BPB, a: Image, b: Image, chains: map<nat, seq<nat>>, others: set<nat>,
                      ids: Ids, p: seq<nat>, c: seq<nat>, d: seq<nat>, from: seq<byte>, m: Meta, isDir: bool)
    requires ValidSnap(g, Snap(a, p, 0)) && ValidSnap(g, Snap(b, p, 0)) && ValidMeta(m)
    requires Books(g, a, chains, others, ids, p, p, c, d) && OthersKept(g, a, b, p + c, p)
    requires var l := LogOf(g, Snap(a, p, 0));
      && ValidDir(gbkOf, l) && Lookup(l, NameOf(gbkOf, from)).Some?
      && var x := Lookup(l, NameOf(gbkOf, from)).value;
      && |x.entries| > 0 && x.start + |x.entries| <= |l|
      && var i := x.start + |x.entries| - 1;
      LogOf(g, Snap(b, p, 0)) == Marked(MetaWritten(MetaWritten(l, i, m, isDir), i, m, isDir), x.start, |x.entries|)
    ensures Destroyed(gbkOf, g, a, b, chains, others, ids, p, from)
  {
    hide Partitioned, CountOfClusters, FirstDataSector, Tables, LogOf, ValidDir, Lookup, Marked, MetaWritten;
    hide OthersKept, IsChain, OnVolume, Reserved, ValidImage;
    RenameOntoItselfDestroys(gbkOf, LogOf(g, Snap(a, p, 0)), LogOf(g, Snap(b, p, 0)), from, m, isDir);
    UnlinkKeepsPartition(g, a, b, chains, others, ids.from, ids.source, p);
  }

  /** Both names lead to the same file. */
  method RenameOntoItself(parent: Directory, file: Node, ghost gbkOf: Conversion, ghost from: seq<byte>,
                          ghost chains: map<nat, seq<nat>>, ghost others: set<nat>, ghost ids: Ids)
    returns (r: Reply)
    requires Ready(gbkOf, parent, from, parent, file, chains, others, ids) && (file.file.isDir ==> IsSubDir(file.file))
    modifies file, file.file, file.file.fat, file.file.fat.device
    ensures r == if file.file.isDir && Groups(old(LogOf(file.file.fat.bpb, file.file.Now()))[2..], 2) != []
      then NotEmpty else Done
    ensures r == NotEmpty ==> file.file.fat.device.sectors == old(file.file.fat.device.sectors) && !file.isDeleted
    ensures r == Done ==>
      && file.isDeleted
      && Destroyed(gbkOf, file.file.fat.bpb, old(file.file.fat.device.sectors), file.file.fat.device.sectors, chains,
        others, ids, parent.file.chain, from)
  {
    hide CountOfClusters, FirstDataSector, Tables, IsChain, OthersKept, LogOf, FileData.FileBytes, WellFormed, Groups;
    hide Lookup, WalkFits, OnVolume, Reserved, Capacity, Apart, Cells, ValidImage, EndsAt, LiveFrom, Destroyed;
    hide NamesDistinct, Partitioned;
    ghost var g, a, p, c := parent.file.fat.bpb, parent.file.fat.device.sectors, parent.file.chain, file.file.chain;
    HandleIsLive(gbkOf, parent, from, file);
    ghost var x, m, d := GroupOf(gbkOf, parent, from), file.MetaNow(), ChainOf(chains, ids.target);
    BooksFourApart(g, a, chains, others, ids, p, p, c, d);
    if file.file.isDir {
      var dir := new Directory(file.file);
      var empty := dir.IsEmptyDir(false);
      if !empty {
        return NotEmpty;
      }
    }
    MoveOntoItself(file, p, |x.entries|);
    ItselfSettles(gbkOf, g, a, file.file.fat.device.sectors, chains, others, ids, p, c, d, from, m, file.file.isDir);
    r := Done;
  }

  /** What moving to a name that did not exist leaves. */
  lemma NewSettles(gbkOf: Conversion, g: BPB, a: Snap, b: Snap, chains: map<nat, seq<nat>>, others: set<nat>, ids: Ids,
                   p: seq<nat>, c: seq<nat>, n: nat, mid: seq<Entry>, range: DirEntryRange, from: seq<byte>,
                   utf16: seq<byte>, stem: seq<byte>, stamp: seq<byte>, m: Meta, placeholder: Meta, isDir: bool)
    requires |utf16| > 0 && Even(|utf16|) && |stamp| == 5 && NoTerminator(utf16) && Creatable(utf16, stem)
    requires ValidSnap(g, a) && ValidSnap(g, b) && ValidSnap(g, Snap(a.img, p, 0)) && ValidMeta(m)
    requires ValidMeta(placeholder)
    requires Books(g, a.img, chains, others, ids, p, a.chain, c, []) && p != [] && Chained(g, b.img, c)
    requires var l, k := LogOf(g, Snap(a.img, p, 0)), LogOf(g, a);
      && ValidDir(gbkOf, l) && ValidDir(gbkOf, k)
      && Lookup(l, NameOf(gbkOf, from)).Some? && Lookup(k, NameOf(gbkOf, utf16)) == None
      && var x := Lookup(l, NameOf(gbkOf, from)).value;
      && |x.entries| == n
      && RenamedToNew(g, a, b, p, l, x.start, n, c, mid, range, utf16, stem, isDir, stamp, m, placeholder)
    ensures var q', p' := b.chain, DirAfter(p, a.chain, b.chain);
      && ValidSnap(g, Snap(b.img, q', 0)) && utf16 in MapOf(gbkOf, LogOf(g, Snap(b.img, q', 0)))
      && Renamed(gbkOf, g, a.img, b.img, chains, others, ids, p, a.chain, c, p', q', from, utf16,
           MapOf(gbkOf, LogOf(g, Snap(b.img, q', 0)))[utf16], m, isDir)
  {
    hide Partitioned, Apart, CountOfClusters, FirstDataSector, Tables, LogOf, ValidDir, Lookup, Moved, NamesMoved;
    hide MapOf, OthersKept, FileData.FileBytes, IsChain, RenamedChains, Reserved, ValidImage, Creatable, NoTerminator;
    hide CreatedAt;
    SizeFieldIgnored(g, a);
    SizeFieldIgnored(g, b);
    SameDirIff(g, a.img, chains, others, ids, p, a.chain, c, []);
    ApartSymmetric(DirAfter(p, a.chain, b.chain), b.chain);
    NewNamesMoved(gbkOf, LogOf(g, Snap(a.img, p, 0)), LogOf(g, Snap(b.img, DirAfter(p, a.chain, b.chain), 0)),
    LogOf(g, a), mid, LogOf(g, b), p == a.chain, range, from, utf16, stem, stamp, m, placeholder, isDir);
    assert p + a.chain + c + [] == p + a.chain + c;
    RenameKeepsPartition(g, a.img, b.img, chains, others, ids.from, ids.to, ids.source, ids.target,
      DirAfter(p, a.chain, b.chain), b.chain);
  }

  /** The new parent can be asked for `n` entries, over which the walk of the new file would fit. */
  ghost predicate CanHold(d: Directory, n: nat)
    requires d.Valid()
    reads d.file, d.file.fat, d.file.fat.device
  {
    && d.HintFine() && ENTRY_SIZE * (|d.Log()| + n) + BytesPerClus(d.file.fat.bpb) < 0x1_0000_0000
    && RoomFits(d.file.fat.bpb, d.Log(), d.ChainFor(n), n)
  }

  /** The forms that names and time stamps always have. */
  predicate WellSized(name: Name, stamp: seq<byte>, parentStamp: seq<byte>) {
    |name.utf16| > 0 && Even(|name.utf16|) && |stamp| == 5 && |parentStamp| == 5
  }

  /** The file is now `renamed`, with the chain `c` and the metadata `m` of the source. */
  ghost predicate TookOver(source: Node, renamed: Node, c: seq<nat>, m: Meta)
    reads source, renamed, renamed.file, renamed.file.fat, renamed.file.fat.device
  {
    && source.isDeleted && renamed.MetaFits() && renamed.MetaNow() == m && renamed.file.ValidChain()
      && renamed.file.chain == c
  }

  /** A new name that can be looked up again now leads to the source. */
  ghost predicate NewNameLeads(gbkOf: Conversion, d: Directory, a: Image, chains: map<nat, seq<nat>>,
                               others: set<nat>, ids: Ids, p: seq<nat>, q: seq<nat>, c: seq<nat>, from: seq<byte>,
                               utf16: seq<byte>, m: Meta, isDir: bool)
    requires d.Valid()
    reads d.file, d.file.fat, d.file.fat.device
  {
    var q', log' := d.file.chain, LogOf(d.file.fat.bpb, d.file.Now().(sz := 0));
    && utf16 in MapOf(gbkOf, log')
    && Renamed(gbkOf, d.file.fat.bpb, a, d.file.fat.device.sectors, chains, others, ids, p, q, c, DirAfter(p, q, q'),
      q', from, utf16, MapOf(gbkOf, log')[utf16], m, isDir)
  }

  lemma SourceIsIn(gbkOf: Conversion, oldParent: Directory, from: seq<byte>, newParent: Directory, source: Node,
                   chains: map<nat, seq<nat>>, others: set<nat>, ids: Ids)
    requires Ready(gbkOf, oldParent, from, newParent, source, chains, others, ids)
    ensures CanMoveTo(newParent, source, oldParent.file.chain, |GroupOf(gbkOf, oldParent, from).entries|)
  {
    hide CountOfClusters, FirstDataSector, Tables, IsChain, LogOf, WellFormed, Groups, Lookup, WalkFits, OnVolume;
    hide Reserved, Capacity, Apart, Cells, ValidImage, EndsAt, LiveFrom, NamesDistinct, Partitioned;
    var g, a, p, q := oldParent.file.fat.bpb, oldParent.file.fat.device.sectors, oldParent.file.chain,
      newParent.file.chain;
    HandleIsLive(gbkOf, oldParent, from, source);
    BooksFourApart(g, a, chains, others, ids, p, q, source.file.chain, ChainOf(chains, ids.target));
    SizeFieldIgnored(g, oldParent.file.Now());
  }

  lemma ChainIsChained(f: File)
    requires f.ValidChain()
    ensures Chained(f.fat.bpb, f.fat.device.sectors, f.chain)
  {
  }

  /** The new name does not exist. */
  method RenameToNew(oldParent: Directory, newParent: Directory, nameIsValid: bool, name: Name, stem: seq<byte>,
                     stamp: seq<byte>, parentStamp: seq<byte>, source: Node, ghost gbkOf: Conversion,
                     ghost from: seq<byte>, ghost chains: map<nat, seq<nat>>, ghost others: set<nat>, ghost ids: Ids)
    returns (r: Reply, renamed: Node?)
    requires Ready(gbkOf, oldParent, from, newParent, source, chains, others, ids) && ids.target !in chains
    requires name == NameOf(gbkOf, name.utf16) && Lookup(newParent.Log(), name) == None
    requires WellSized(name, stamp, parentStamp)
    requires CanHold(newParent, LongEntryCount(name.utf16) + 1)
    modifies source, source.file, newParent.file, newParent.file.fat, newParent.file.fat.device
    ensures r == if !nameIsValid then NameInvalid
      else old(NewNameReply(newParent, source.file.isDir, name.utf16, stem))
    ensures nameIsValid && !source.file.isDir ==>
      var outcome := old(newParent.CreateOutcome(LongEntryCount(name.utf16) + 1));
      && (r == Done <==> outcome.Resized?) && (r == NoRoomForName <==> outcome.NoRoom?)
      && (r == Stopped <==> outcome.Aborted?)
    ensures r == Done <==> renamed != null
    ensures r == NameInvalid ==> newParent.file.Now() == old(newParent.file.Now())
    ensures r == NoRoomForName ==>
      && newParent.Valid() && Groups(newParent.Log(), 0) == Groups(old(newParent.Log()), 0)
      && (!source.file.isDir ==> newParent.file.Now() == old(newParent.file.Now()))
    ensures r == Done ==> newParent.Valid() && TookOver(source, renamed, old(source.file.chain), old(source.MetaNow()))
    ensures r == Done && NoTerminator(name.utf16) && Creatable(name.utf16, stem) ==>
      NewNameLeads(gbkOf, newParent, old(newParent.file.fat.device.sectors), chains, others, ids,
      old(oldParent.file.chain), old(newParent.file.chain), old(source.file.chain), from, name.utf16,
        old(source.MetaNow()), source.file.isDir)
  {
    hide CountOfClusters, FirstDataSector, Tables, IsChain, OthersKept, LogOf, FileData.FileBytes, WellFormed, Groups;
    hide Lookup, WalkFits, OnVolume, Reserved, Capacity, Apart, Cells, ValidImage, EndsAt, LiveFrom, Renamed;
    hide NamesDistinct, Partitioned, RenamedToNew, SourceIn, CreatedAt, NoTerminator, Creatable, RoomFits, GoodHint;
    hide MapOf;
    ghost var g, a, p, c := newParent.file.fat.bpb, newParent.file.Now(), oldParent.file.chain, source.file.chain;
    ghost var x, m, mid, placeholder := GroupOf(gbkOf, oldParent, from), source.MetaNow(), [],
      Meta(stamp, stamp[3..], stamp[1..], 0, 0);
    HandleIsLive(gbkOf, oldParent, from, source);
    SourceIsIn(gbkOf, oldParent, from, newParent, source, chains, others, ids);
    SizeFieldIgnored(g, oldParent.file.Now());
    if source.file.isDir {
      r, renamed, mid, placeholder :=
        RenameDirToNew(newParent, nameIsValid, name, stem, stamp, parentStamp, source, p, |x.entries|);
    } else {
      r, renamed, mid := RenameFileToNew(newParent, nameIsValid, name.utf16, stem, stamp, source, p, |x.entries|);
    }
    if r == Done && NoTerminator(name.utf16) && Creatable(name.utf16, stem) {
      SizeFieldIgnored(g, newParent.file.Now());
      ChainIsChained(renamed.file);
      NewSettles(gbkOf, g, a, newParent.file.Now(), chains, others, ids, p, c, |x.entries|, mid,
        DirEntryRange(renamed.entryNum, LongEntryCount(name.utf16) + 1), from, name.utf16, stem, stamp, m, placeholder,
        source.file.isDir);
    }
  }

  // ----- the whole -----

  /** The two directories: one and the same object, or two apart. */
  ghost predicate Dirs(gbkOf: Conversion, oldParent: Directory, newParent: Directory)
    reads oldParent.file, oldParent.file.fat, oldParent.file.fat.device, newParent.file, newParent.file.fat,
      newParent.file.fat.device
  {
    && oldParent.Valid() && newParent.Valid() && oldParent.file.fat == newParent.file.fat
    && ValidDir(gbkOf, oldParent.Log()) && ValidDir(gbkOf, newParent.Log())
    && (oldParent == newParent || oldParent.file != newParent.file)
  }

  /** What the caller, who holds one object per file, passes for the names that exist, and what a new name needs. */
  ghost predicate HandlesGiven(gbkOf: Conversion, oldParent: Directory, from: Name, newParent: Directory, to: Name,
                               source: Node, target: Node, stem: seq<byte>, stamp: seq<byte>, parentStamp: seq<byte>,
                           chains: map<nat, seq<nat>>, others: set<nat>, ids: Ids)
    requires Dirs(gbkOf, oldParent, newParent)
    reads oldParent.file, oldParent.file.fat, oldParent.file.fat.device, newParent.file, newParent.file.fat,
      newParent.file.fat.device
    reads source, source.file, source.file.fat, source.file.fat.device, target, target.file, target.file.fat,
      target.file.fat.device
  {
    Lookup(oldParent.Log(), from).Some? ==>
      && Ready(gbkOf, oldParent, from.utf16, newParent, source, chains, others, ids)
      && if Lookup(newParent.Log(), to).Some? then
           && ReadyTarget(gbkOf, oldParent, newParent, to.utf16, source, target, chains, ids)
           && (source == target <==>
                oldParent == newParent && Lookup(oldParent.Log(), from) == Lookup(newParent.Log(), to))
         else
           && ids.target !in chains && WellSized(to, stamp, parentStamp)
           && CanHold(newParent, LongEntryCount(to.utf16) + 1)
  }

  /** Whether the directory that the new name leads to holds files. */
  ghost predicate HoldsFiles(f: File)
    requires IsSubDir(f)
    reads f, f.fat, f.fat.device
  {
    Groups(LogOf(f.fat.bpb, f.Now())[2..], 2) != []
  }

  /** One lookup. What the directory `d` can be asked for does not depend on a cached chain. */
  method LookUpOne(parent: Directory, name: Name, ghost d: Directory, ghost isDir: bool, ghost utf16: seq<byte>,
                   ghost stem: seq<byte>)
    returns (found: bool)
    requires parent.Valid() && WellFormed(parent.Log()) && d.Valid() && |utf16| > 0 && Even(|utf16|)
    modifies parent.file`clusChain
    ensures parent.Valid() && parent.Log() == old(parent.Log()) && found == Lookup(parent.Log(), name).Some?
    ensures d.Valid() && d.Log() == old(d.Log())
    ensures NewNameReply(d, isDir, utf16, stem) == old(NewNameReply(d, isDir, utf16, stem))
    ensures CanHold(d, LongEntryCount(utf16) + 1) == old(CanHold(d, LongEntryCount(utf16) + 1))
  {
    hide Search, SearchFrom, Candidates, FreeUpTo, WellFormed, Groups, Lookup;
    hide CountOfClusters, FirstDataSector, Tables, IsChain, FileData.FileBytes, OnVolume;
    hide Reserved, Capacity, Cells, ValidImage, Creatable, NoTerminator, RoomFits, AllocOutcome, RoomNeeded, GoodHint;
    hide ClustersFor, LogOf;
    var x, failed := parent.LookupFileInner(name);
    assert !failed;
    found := x.Some?;
  }

  /** Both lookups; nothing on the device changes. */
  method LookUpBoth(oldParent: Directory, from: Name, newParent: Directory, to: Name, source: Node, target: Node,
                    ghost gbkOf: Conversion, ghost stem: seq<byte>, ghost stamp: seq<byte>,
                    ghost parentStamp: seq<byte>, ghost chains: map<nat, seq<nat>>, ghost others: set<nat>,
                    ghost ids: Ids)
    returns (found: bool, taken: bool)
    requires from == NameOf(gbkOf, from.utf16) && to == NameOf(gbkOf, to.utf16) && Dirs(gbkOf, oldParent, newParent)
    requires HandlesGiven(gbkOf, oldParent, from, newParent, to, source, target, stem, stamp, parentStamp, chains,
      others, ids)
    modifies oldParent.file`clusChain, newParent.file`clusChain
    ensures Dirs(gbkOf, oldParent, newParent)
    ensures oldParent.Log() == old(oldParent.Log()) && newParent.Log() == old(newParent.Log())
    ensures found == Lookup(oldParent.Log(), from).Some?
    ensures found ==>
      && taken == Lookup(newParent.Log(), to).Some?
      && Ready(gbkOf, oldParent, from.utf16, newParent, source, chains, others, ids)
      && (taken ==>
           && ReadyTarget(gbkOf, oldParent, newParent, to.utf16, source, target, chains, ids)
           && (source == target ==> oldParent == newParent)
           && (oldParent == newParent && source != target ==>
                GroupOf(gbkOf, oldParent, from.utf16) != GroupOf(gbkOf, newParent, to.utf16)))
      && (!taken ==>
           && ids.target !in chains && WellSized(to, stamp, parentStamp)
           && CanHold(newParent, LongEntryCount(to.utf16) + 1)
           && NewNameReply(newParent, source.file.isDir, to.utf16, stem) ==
              old(NewNameReply(newParent, source.file.isDir, to.utf16, stem)))
  {
    hide NameOf, NewNameReply, CanHold;
    hide CountOfClusters, FirstDataSector, Tables, IsChain, FileData.FileBytes, WellFormed, Groups, Lookup, WalkFits;
    hide OnVolume, Reserved, Capacity, Apart, Cells, ValidImage, NamesDistinct, Partitioned, Creatable, NoTerminator;
    hide Books, StandsFor, IsSubDir, GoodHint, LogOf;
    taken := false;
    ghost var isDir, utf16 := source.file.isDir, if WellSized(to, stamp, parentStamp) then to.utf16 else [0, 0];
    found := LookUpOne(oldParent, from, newParent, isDir, utf16, stem);
    if found {
      taken := LookUpOne(newParent, to, newParent, isDir, utf16, stem);
    }
  }

  /** The new name exists. */
  method RenameTaken(oldParent: Directory, newParent: Directory, source: Node, target: Node, ghost gbkOf: Conversion,
                     ghost from: seq<byte>, ghost to: seq<byte>, ghost chains: map<nat, seq<nat>>,
                     ghost others: set<nat>, ghost ids: Ids)
    returns (r: Reply, ghost now: Group)
    requires Ready(gbkOf, oldParent, from, newParent, source, chains, others, ids)
    requires ReadyTarget(gbkOf, oldParent, newParent, to, source, target, chains, ids)
    requires source == target ==> oldParent == newParent
    requires oldParent == newParent && source != target ==>
      GroupOf(gbkOf, oldParent, from) != GroupOf(gbkOf, newParent, to)
    modifies source, target, source.file, target.file, source.file.fat, source.file.fat.device
    ensures r == if source.file.isDir != target.file.isDir then Stopped
      else if target.file.isDir && old(HoldsFiles(target.file)) then NotEmpty else Done
    ensures r == NotEmpty ==> source.file.fat.device.sectors == old(source.file.fat.device.sectors)
    ensures r == Done && source != target ==>
      && TookOver(source, target, old(source.file.chain), old(source.MetaNow()))
      && Renamed(gbkOf, source.file.fat.bpb, old(source.file.fat.device.sectors), source.file.fat.device.sectors,
        chains, others, ids, oldParent.file.chain, newParent.file.chain, old(source.file.chain), oldParent.file.chain,
           newParent.file.chain, from, to, now, old(source.MetaNow()), source.file.isDir)
    ensures r == Done && source == target ==>
      && source.isDeleted
      && Destroyed(gbkOf, source.file.fat.bpb, old(source.file.fat.device.sectors), source.file.fat.device.sectors,
        chains, others, ids, oldParent.file.chain, from)
  {
    hide CountOfClusters, FirstDataSector, Tables, IsChain, FileData.FileBytes, WellFormed, Groups, Lookup, Renamed;
    hide Destroyed, WalkFits, OnVolume, Reserved, Capacity, Apart, Cells, ValidImage, NamesDistinct, Partitioned;
    hide StandsFor, LogOf, Books;
    now := Group(0, []);
    if source.file.isDir != target.file.isDir {
      r := Stopped;
    } else if source == target {
      r := RenameOntoItself(oldParent, source, gbkOf, from, chains, others, ids);
    } else {
      r, now := RenameOnto(oldParent, newParent, source, target, gbkOf, from, to, chains, others, ids);
    }
  }

  /**
   * `fat32_rename`. Refusals change nothing on the device, except that a directory for whose placeholder
   * there is no cluster may leave its parent longer, with the same groups.
   */
  method Rename(flags: nat, oldParent: Directory, from: Name, newParent: Directory, to: Name, nameIsValid: bool,
                stem: seq<byte>, stamp: seq<byte>, parentStamp: seq<byte>, source: Node, target: Node,
                ghost gbkOf: Conversion, ghost chains: map<nat, seq<nat>>, ghost others: set<nat>, ghost ids: Ids)
    returns (r: Reply, renamed: Node?, ghost now: Group)
    requires from == NameOf(gbkOf, from.utf16) && to == NameOf(gbkOf, to.utf16) && Dirs(gbkOf, oldParent, newParent)
    requires HandlesGiven(gbkOf, oldParent, from, newParent, to, source, target, stem, stamp, parentStamp, chains,
      others, ids)
    modifies oldParent.file, newParent.file, oldParent.file.fat, oldParent.file.fat.device
    modifies source, source.file, source.file.fat, source.file.fat.device
    modifies target, target.file, target.file.fat, target.file.fat.device
    ensures flags != 0 ==> r == NameInvalid
    ensures flags == 0 && old(Lookup(oldParent.Log(), from)) == None ==> r == NoEntry
    ensures var found, exists_ := old(Lookup(oldParent.Log(), from)).Some?, old(Lookup(newParent.Log(), to)).Some?;
      && (flags == 0 && found && exists_ ==>
           r == if source.file.isDir != target.file.isDir then Stopped
                else if target.file.isDir && old(HoldsFiles(target.file)) then NotEmpty else Done)
      && (flags == 0 && found && !exists_ ==>
           r == if !nameIsValid then NameInvalid
                else old(NewNameReply(newParent, source.file.isDir, to.utf16, stem)))
      && (flags == 0 && found && !exists_ && nameIsValid && !source.file.isDir ==>
           var outcome := old(newParent.CreateOutcome(LongEntryCount(to.utf16) + 1));
           && (r == Done <==> outcome.Resized?) && (r == NoRoomForName <==> outcome.NoRoom?)
           && (r == Stopped <==> outcome.Aborted?))
    ensures r in {NameInvalid, NoEntry, NotEmpty} ==>
      oldParent.file.fat.device.sectors == old(oldParent.file.fat.device.sectors)
    ensures r == NoRoomForName ==>
      && newParent.Valid() && Groups(newParent.Log(), 0) == Groups(old(newParent.Log()), 0)
      && (!source.file.isDir ==> oldParent.file.fat.device.sectors == old(oldParent.file.fat.device.sectors))
    ensures r == Done ==> source.isDeleted
    ensures r == Done && old(Lookup(newParent.Log(), to)) == None ==>
      && renamed != null && newParent.Valid()
        && TookOver(source, renamed, old(source.file.chain), old(source.MetaNow()))
      && (NoTerminator(to.utf16) && Creatable(to.utf16, stem) ==>
           NewNameLeads(gbkOf, newParent, old(newParent.file.fat.device.sectors), chains, others, ids,
           old(oldParent.file.chain), old(newParent.file.chain), old(source.file.chain), from.utf16, to.utf16,
             old(source.MetaNow()), source.file.isDir))
    ensures r == Done && old(Lookup(newParent.Log(), to)).Some? && source != target ==>
      && renamed == target && TookOver(source, target, old(source.file.chain), old(source.MetaNow()))
      && Renamed(gbkOf, source.file.fat.bpb, old(source.file.fat.device.sectors), source.file.fat.device.sectors,
        chains, others, ids, old(oldParent.file.chain), old(newParent.file.chain), old(source.file.chain),
           old(oldParent.file.chain), old(newParent.file.chain), from.utf16, to.utf16, now, old(source.MetaNow()),
             source.file.isDir)
    ensures r == Done && source == target && old(Lookup(newParent.Log(), to)).Some? ==>
      Destroyed(gbkOf, source.file.fat.bpb, old(source.file.fat.device.sectors), source.file.fat.device.sectors,
      chains, others, ids, old(oldParent.file.chain), from.utf16)
  {
    hide CountOfClusters, FirstDataSector, Tables, IsChain, FileData.FileBytes, WellFormed, Groups, Lookup, Renamed;
    hide Destroyed, WalkFits, OnVolume, Reserved, Capacity, Apart, Cells, ValidImage, NamesDistinct, Partitioned;
    hide Creatable, NoTerminator, StandsFor, CanHold, NewNameLeads, LogOf, Books, IsSubDir, Node.MetaFits;
    hide RoomNeeded, AllocOutcome;
    r, renamed, now := NameInvalid, null, Group(0, []);
    if flags != 0 {
      return;
    }
    var found, taken := LookUpBoth(oldParent, from, newParent, to, source, target, gbkOf, stem, stamp, parentStamp,
      chains, others, ids);
    if !found {
      r := NoEntry;
      return;
    }
    if taken {
      r, now := RenameTaken(oldParent, newParent, source, target, gbkOf, from.utf16, to.utf16, chains, others, ids);
      renamed := target;
    } else {
      r, renamed := RenameToNew(oldParent, newParent, nameIsValid, to, stem, stamp, parentStamp, source, gbkOf,
      from.utf16, chains, others, ids);
    }
  }
}
