/** Who owns which cluster, before and after the operations on files and directories. */
module Ownership {
  import opened FatTable
  import opened Geometry
  import opened Device
  import opened FatImage
  import opened FatRuns
  import opened FileSteps

  /**
   * `chains` gives each file and directory its clusters. They share none, and every cluster is free, owned
   * by one of them, or among the fixed `others`.
   */
  ghost predicate Partitioned(g: BPB, img: Image, chains: map<nat, seq<nat>>, others: set<nat>)
    requires ValidBPB(g) && ValidImage(g, img)
  {
    var t := Entries(g, img);
    && ChainsApart(t, |t|, chains) && NothingLeaked(t, |t|, chains, others)
    && forall id :: id in chains ==> OnVolume(g, chains[id])
  }

  /** Every cluster of a partitioned table is of exactly one kind; it has one owner, in whose chain it occurs once. */
  lemma PartitionMeans(g: BPB, img: Image, chains: map<nat, seq<nat>>, others: set<nat>, n: nat)
    requires ValidBPB(g) && ValidImage(g, img) && Partitioned(g, img, chains, others) && n < |Entries(g, img)|
    ensures var t, owned := Entries(g, img), exists id :: id in chains && n in chains[id];
      && (n in others || Link(t, n) == 0 || owned)
      && !(n in others && Link(t, n) == 0) && !(n in others && owned) && !(Link(t, n) == 0 && owned)
    ensures forall a, b :: a in chains && b in chains && n in chains[a] && n in chains[b] ==> a == b
    ensures forall a :: a in chains && chains[a] != [] ==> IsChain(Entries(g, img), chains[a]) && Distinct(chains[a])
  {
    hide Tables, CountOfClusters, FirstDataSector, IsChain;
    var t := Entries(g, img);
    assert Owned(chains, n) <==> exists id :: id in chains && n in chains[id];
    if Owned(chains, n) {
      var id :| id in chains && n in chains[id];
      OwnedIsOccupied(t, chains[id], n);
    }
    forall a | a in chains && chains[a] != [] ensures Distinct(chains[a]) {
      ChainIsAcyclic(t, chains[a]);
    }
  }

  /** `c` are the clusters that the files `ids` own. */
  ghost predicate OwnedBy(chains: map<nat, seq<nat>>, ids: set<nat>, c: seq<nat>) {
    forall n :: n in c <==> exists id :: id in ids && id in chains && n in chains[id]
  }

  ghost predicate SameElsewhere(chains: map<nat, seq<nat>>, chains': map<nat, seq<nat>>, ids: set<nat>) {
    forall id :: id !in ids ==> (id in chains <==> id in chains') && (id in chains ==> chains'[id] == chains[id])
  }

  lemma OthersAreKept(g: BPB, a: Image, b: Image, c: seq<nat>, c': seq<nat>, chains: map<nat, seq<nat>>,
                      others: set<nat>, ids: set<nat>, id: nat)
    requires ValidBPB(g) && ValidImage(g, a) && ValidImage(g, b)
    requires Partitioned(g, a, chains, others) && OthersKept(g, a, b, c, c') && OwnedBy(chains, ids, c)
    requires id in chains && id !in ids && chains[id] != []
    ensures KeptApart(g, a, b, chains[id], c')
  {
    hide Tables, CountOfClusters, FirstDataSector, IsChain, Traded;
    var e := chains[id];
    assert Apart(e, c) by {
      forall n | n in e ensures n !in c {
        assert n in chains[id];
      }
    }
  }

  /**
   * An operation that changes the chains of the files `ids` only, and accounts for all clusters they had
   * and have, keeps the partition.
   */
  lemma KeepsPartition(g: BPB, a: Image, b: Image, c: seq<nat>, c': seq<nat>,
                       chains: map<nat, seq<nat>>, chains': map<nat, seq<nat>>, ids: set<nat>, others: set<nat>)
    requires ValidBPB(g) && ValidImage(g, a) && ValidImage(g, b)
    requires Partitioned(g, a, chains, others) && OthersKept(g, a, b, c, c') && SameElsewhere(chains, chains', ids)
    requires OwnedBy(chains, ids, c) && OwnedBy(chains', ids, c')
    requires forall id :: id in ids && id in chains' ==>
      OnVolume(g, chains'[id]) && (chains'[id] == [] || IsChain(Entries(g, b), chains'[id]))
    requires forall i, j, n ::
      i in ids && j in ids && i in chains' && j in chains' && n in chains'[i] && n in chains'[j] ==> i == j
    ensures Partitioned(g, b, chains', others)
  {
    hide Tables, CountOfClusters, FirstDataSector, IsChain, Traded, OthersKept, Partitioned;
    forall id | id in chains' && id !in ids
      ensures OnVolume(g, chains'[id]) && (chains'[id] == [] || IsChain(Entries(g, b), chains'[id]))
      ensures forall n :: n in chains'[id] ==> n !in c'
    {
      VolumeOf(g, a, chains, others, id);
      if chains[id] != [] {
        OthersAreKept(g, a, b, c, c', chains, others, ids, id);
      }
    }
    ChainsStayApart(g, a, b, c', chains, chains', ids, others);
    StillNothingLeaked(g, a, b, c, c', chains, chains', ids, others);
    PartitionedBy(g, b, chains', others);
  }

  lemma VolumeOf(g: BPB, a: Image, chains: map<nat, seq<nat>>, others: set<nat>, id: nat)
    requires ValidBPB(g) && ValidImage(g, a) && Partitioned(g, a, chains, others) && id in chains
    ensures OnVolume(g, chains[id])
  {
  }

  lemma PartitionedBy(g: BPB, b: Image, chains: map<nat, seq<nat>>, others: set<nat>)
    requires ValidBPB(g) && ValidImage(g, b) && forall id :: id in chains ==> OnVolume(g, chains[id])
    requires ChainsApart(Entries(g, b), |Entries(g, b)|, chains)
    requires NothingLeaked(Entries(g, b), |Entries(g, b)|, chains, others)
    ensures Partitioned(g, b, chains, others)
  {
  }

  lemma ChainsStayApart(g: BPB, a: Image, b: Image, c': seq<nat>,
                        chains: map<nat, seq<nat>>, chains': map<nat, seq<nat>>, ids: set<nat>, others: set<nat>)
    requires ValidBPB(g) && ValidImage(g, a) && ValidImage(g, b)
    requires Partitioned(g, a, chains, others) && SameElsewhere(chains, chains', ids) && OwnedBy(chains', ids, c')
    requires forall id :: id in chains' ==>
      OnVolume(g, chains'[id]) && (chains'[id] == [] || IsChain(Entries(g, b), chains'[id]))
    requires forall i, j, n ::
      i in ids && j in ids && i in chains' && j in chains' && n in chains'[i] && n in chains'[j] ==> i == j
    requires forall id, n :: id in chains' && id !in ids && n in chains'[id] ==> n !in c'
    ensures ChainsApart(Entries(g, b), |Entries(g, b)|, chains')
  {
    hide Tables, FirstDataSector, IsChain;
    forall i, j, n | i in chains' && j in chains' && n in chains'[i] && n in chains'[j] ensures i == j {
      assert i in ids ==> n in c';
      assert j in ids ==> n in c';
    }
  }

  lemma StillNothingLeaked(g: BPB, a: Image, b: Image, c: seq<nat>, c': seq<nat>,
                           chains: map<nat, seq<nat>>, chains': map<nat, seq<nat>>, ids: set<nat>, others: set<nat>)
    requires ValidBPB(g) && ValidImage(g, a) && ValidImage(g, b)
    requires Partitioned(g, a, chains, others) && OthersKept(g, a, b, c, c') && SameElsewhere(chains, chains', ids)
    requires OwnedBy(chains, ids, c) && OwnedBy(chains', ids, c')
    ensures NothingLeaked(Entries(g, b), |Entries(g, b)|, chains', others)
  {
    hide Tables, CountOfClusters, FirstDataSector, IsChain, KeptApart, ChainsApart, Link;
    var t, u := Entries(g, a), Entries(g, b);
    forall n | 0 <= n < |u| ensures n in others <==> Link(u, n) != 0 && !Owned(chains', n) {
      assert TradedAt(t, u, c, c', n);
    }
  }

  // ----- instances -----

  ghost predicate Chained(g: BPB, img: Image, c: seq<nat>)
    requires ValidBPB(g) && ValidImage(g, img)
  {
    OnVolume(g, c) && (c == [] || IsChain(Entries(g, img), c))
  }

  /** A write or truncate of one file gives and takes clusters between it and the free space only. */
  lemma FileKeepsPartition(g: BPB, a: Image, b: Image, chains: map<nat, seq<nat>>, others: set<nat>, file: nat,
                           c': seq<nat>)
    requires ValidBPB(g) && ValidImage(g, a) && ValidImage(g, b) && Partitioned(g, a, chains, others)
    requires file in chains && Chained(g, b, c') && OthersKept(g, a, b, chains[file], c')
    ensures Partitioned(g, b, chains[file := c'], others)
    ensures forall n :: n in chains[file] && n !in c' ==> n < |Entries(g, b)| && Link(Entries(g, b), n) == 0
  {
    hide CountOfClusters, FirstDataSector, IsChain, OthersKept, Partitioned, Tables, Traded;
    KeepsPartition(g, a, b, chains[file], c', chains, chains[file := c'], {file}, others);
    AllFreed(g, a, b, chains[file], c', chains, others, file);
  }

  /** After an unlink or rmdir the child's clusters are free and belong to nobody. */
  lemma UnlinkKeepsPartition(g: BPB, a: Image, b: Image, chains: map<nat, seq<nat>>, others: set<nat>,
                             parent: nat, child: nat, p': seq<nat>)
    requires ValidBPB(g) && ValidImage(g, a) && ValidImage(g, b) && Partitioned(g, a, chains, others)
    requires parent in chains && child in chains && parent != child && Chained(g, b, p')
    requires OthersKept(g, a, b, chains[parent] + chains[child], p')
    ensures Partitioned(g, b, chains[parent := p'] - {child}, others)
    ensures forall n :: n in chains[child] && n !in p' ==> n < |Entries(g, b)| && Link(Entries(g, b), n) == 0
  {
    hide CountOfClusters, FirstDataSector, IsChain, OthersKept, Partitioned, Tables, Traded;
    var chains', ids := chains[parent := p'] - {child}, {parent, child};
    KeepsPartition(g, a, b, chains[parent] + chains[child], p', chains, chains', ids, others);
    AllFreed(g, a, b, chains[parent] + chains[child], p', chains, others, child);
  }

  lemma FreedNow(g: BPB, a: Image, b: Image, c: seq<nat>, c': seq<nat>, chains: map<nat, seq<nat>>, others: set<nat>,
                 id: nat, n: nat)
    requires ValidBPB(g) && ValidImage(g, a) && ValidImage(g, b) && Partitioned(g, a, chains, others)
    requires OthersKept(g, a, b, c, c') && id in chains && n in chains[id] && n in c && n !in c'
    ensures n < |Entries(g, b)| && Link(Entries(g, b), n) == 0
  {
    hide CountOfClusters, FirstDataSector, IsChain, Tables;
    assert TradedAt(Entries(g, a), Entries(g, b), c, c', n);
  }

  function ChainOf(chains: map<nat, seq<nat>>, id: nat): seq<nat> {
    if id in chains then chains[id] else []
  }

  /** The chains after a rename: `target` has those of `source`, which is gone; the directories have changed. */
  ghost function RenamedChains(chains: map<nat, seq<nat>>, from: nat, to: nat, source: nat, target: nat, p': seq<nat>,
                               q': seq<nat>)
    : (r: map<nat, seq<nat>>)
    requires source in chains && from !in {source, target} && to !in {source, target} && source != target
    requires from == to ==> p' == q'
    ensures from in r && r[from] == p' && to in r && r[to] == q' && target in r && r[target] == chains[source]
    ensures source !in r && SameElsewhere(chains, r, {from, to, source, target})
  {
    (chains - {source})[from := p'][to := q'][target := chains[source]]
  }

  /**
   * After a rename of `source` to `target`, between the directories `from` and `to`, `target` owns what
   * `source` owned; what `target` owned before, if it existed, is free; `source` is gone.
   */
  lemma RenameKeepsPartition(g: BPB, a: Image, b: Image, chains: map<nat, seq<nat>>, others: set<nat>,
                             from: nat, to: nat, source: nat, target: nat, p': seq<nat>, q': seq<nat>)
    requires ValidBPB(g) && ValidImage(g, a) && ValidImage(g, b) && Partitioned(g, a, chains, others)
    requires from in chains && to in chains && source in chains && source != target
    requires from !in {source, target} && to !in {source, target} && (from == to ==> p' == q')
    requires var c := chains[source];
      && Chained(g, b, p') && Chained(g, b, q') && Chained(g, b, c)
      && Apart(c, p') && Apart(c, q') && (from != to ==> Apart(p', q'))
      && OthersKept(g, a, b, chains[from] + chains[to] + c + ChainOf(chains, target), p' + q' + c)
    ensures Partitioned(g, b, RenamedChains(chains, from, to, source, target, p', q'), others)
    ensures forall n :: n in ChainOf(chains, target) && n !in p' + q' + chains[source] ==>
      n < |Entries(g, b)| && Link(Entries(g, b), n) == 0
  {
    hide CountOfClusters, FirstDataSector, IsChain, OthersKept, Partitioned, Tables, Traded, RenamedChains;
    hide SameElsewhere, OwnedBy, ValidImage;
    var c, d := chains[source], ChainOf(chains, target);
    var chains', ids := RenamedChains(chains, from, to, source, target, p', q'), {from, to, source, target};
    OwnedByFour(chains, from, to, source, target);
    OwnedByThree(chains', ids, from, to, target);
    KeepsPartition(g, a, b, chains[from] + chains[to] + c + d, p' + q' + c, chains, chains', ids, others);
    if target in chains {
      AllFreed(g, a, b, chains[from] + chains[to] + c + d, p' + q' + c, chains, others, target);
    }
  }

  lemma AllFreed(g: BPB, a: Image, b: Image, c: seq<nat>, c': seq<nat>, chains: map<nat, seq<nat>>, others: set<nat>,
                 id: nat)
    requires ValidBPB(g) && ValidImage(g, a) && ValidImage(g, b) && Partitioned(g, a, chains, others)
    requires OthersKept(g, a, b, c, c') && id in chains && forall n :: n in chains[id] ==> n in c
    ensures forall n :: n in chains[id] && n !in c' ==> n < |Entries(g, b)| && Link(Entries(g, b), n) == 0
  {
    hide CountOfClusters, FirstDataSector, IsChain, OthersKept, Partitioned, Tables, Traded, ValidImage;
    forall n | n in chains[id] && n !in c' ensures n < |Entries(g, b)| && Link(Entries(g, b), n) == 0 {
      FreedNow(g, a, b, c, c', chains, others, id, n);
    }
  }

  lemma OwnedByFour(chains: map<nat, seq<nat>>, i: nat, j: nat, k: nat, l: nat)
    requires i in chains && j in chains && k in chains
    ensures OwnedBy(chains, {i, j, k, l}, chains[i] + chains[j] + chains[k] + ChainOf(chains, l))
  {
  }

  lemma OwnedByThree(chains: map<nat, seq<nat>>, ids: set<nat>, i: nat, j: nat, k: nat)
    requires i in chains && j in chains && k in chains && i in ids && j in ids && k in ids
    requires forall id :: id in ids && id in chains ==> id == i || id == j || id == k
    ensures OwnedBy(chains, ids, chains[i] + chains[j] + chains[k])
  {
  }
}
