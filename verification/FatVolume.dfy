/** The steps of a run, performed by the allocator object itself. */
module FatVolume {
  import opened Base
  import opened FatTable
  import opened FirstFit
  import opened Geometry
  import opened Device
  import opened FatImage
  import opened Fat
  import opened FatRuns

  predicate StartsAt(head: nat, c: seq<nat>) {
    if c == [] then head < 2 else head == c[0]
  }

  ghost predicate AreHeads(heads: map<nat, nat>, chains: map<nat, seq<nat>>) {
    heads.Keys == chains.Keys && forall id :: id in chains ==> StartsAt(heads[id], chains[id])
  }

  lemma HeadsStay(heads: map<nat, nat>, chains: map<nat, seq<nat>>, id: nat, head: nat, c: seq<nat>)
    requires AreHeads(heads, chains) && StartsAt(head, c)
    ensures AreHeads(heads[id := head], chains[id := c])
  {
  }

  class OpenVolume {
    const fat: FAT
    /** The first-cluster field of each file. */
    var heads: map<nat, nat>
    ghost var chains: map<nat, seq<nat>>

    /** Opens a volume on which the files with the given first clusters and chains lie. */
    constructor (fat: FAT, heads: map<nat, nat>, ghost chains: map<nat, seq<nat>>)
      requires fat.Valid() && AllAgree(fat.Copies()) && Reserved(fat.Entries()) && AreHeads(heads, chains)
      requires ChainsApart(fat.Entries(), fat.Clusters() + 2, chains)
      requires GoodHint(fat.Entries(), fat.Clusters(), fat.freeCount, 2)
      requires fat.freeCount == NO_HINT || fat.freeCount < fat.Clusters() + 2
      ensures this.fat == fat && this.heads == heads && this.chains == chains
      ensures Valid(Unowned(View(), Count()))
    {
      this.fat, this.heads, this.chains := fat, heads, chains;
      new;
      assert Shaped(View(), Count(), Size());
      OpenedIsInvIff(View(), Count(), Size());
    }

    ghost function Count(): nat
      requires ValidBPB(fat.bpb)
    {
      CountOfClusters(fat.bpb)
    }

    ghost function Size(): nat {
      ENTRIES_PER_SECTOR * fat.bpb.fatSz32
    }

    ghost function View(): Volume
      requires fat.Valid()
      reads this, fat, fat.device
    {
      Volume(fat.Copies(), fat.availClusCnt, chains, fat.freeCount)
    }

    ghost predicate HeadsMatch()
      reads this
    {
      AreHeads(heads, chains)
    }

    ghost predicate Valid(others: set<nat>)
      reads this, fat, fat.device
    {
      && fat.Valid() && HeadsMatch()
      && Inv(View(), Count(), Size(), others)
    }

    /** Performs one operation; `aborted` reports the allocator's failed assertion. */
    method Execute(op: Op, ghost others: set<nat>) returns (aborted: bool)
      requires Valid(others)
      modifies this, fat, fat.device
      ensures fat.Valid() && (aborted <==> old(Step(View(), Count(), Size(), op)).None?)
      ensures !aborted ==>
        && Valid(others) && Some(View()) == old(Step(View(), Count(), Size(), op))
        && SamePayload(fat.bpb, old(fat.device.sectors), fat.device.sectors)
    {
      ghost var v := View();
      aborted := Perform(op);
      if !aborted {
        StepKeepsInv(v, Count(), Size(), others, op);
      }
    }

    method Perform(op: Op) returns (aborted: bool)
      requires Ready() && forall id :: id in chains ==> FileChain(fat.Entries(), heads[id], chains[id])
      modifies this, fat, fat.device
      ensures fat.Valid() && (aborted <==> old(Step(View(), Count(), Size(), op)).None?)
      ensures !aborted ==>
        && HeadsMatch()
        && Some(View()) == old(Step(View(), Count(), Size(), op))
        && SamePayload(fat.bpb, old(fat.device.sectors), fat.device.sectors)
    {
      hide ResizeStep, CountOfClusters, FirstDataSector, FileChain;
      aborted := false;
      match op
      case Create(id, n) =>
        if id !in heads && n != 0 {
          aborted := CreateFile(id, n);
        }
      case Delete(id) =>
        if id in heads {
          DeleteFile(id);
        }
      case Resize(id, n) =>
        if id in heads {
          aborted := ResizeFile(id, n);
        }
    }

    /** The state in which each operation below runs. */
    ghost predicate Ready()
      reads this, fat, fat.device
    {
      && fat.Valid() && HeadsMatch()
      && Shaped(View(), Count(), Size()) && Reserved(fat.Entries())
      && GoodHint(fat.Entries(), Count(), fat.freeCount, 2)
    }

    method CreateFile(id: nat, n: nat) returns (aborted: bool)
      requires Ready() && id !in chains && n > 0
      modifies this, fat, fat.device
      ensures fat.Valid() && (aborted <==> old(ResizeStep(View(), Count(), Size(), id, [], n)).None?)
      ensures !aborted ==>
        && HeadsMatch()
        && Some(View()) == old(ResizeStep(View(), Count(), Size(), id, [], n))
        && SamePayload(fat.bpb, old(fat.device.sectors), fat.device.sectors)
    {
      hide CountOfClusters, FirstDataSector, ValidImage, Tables, SamePayload, Collected, LinkWrites, GrowWrites;
      hide WrittenAll;
      ghost var before := fat.device.sectors;
      var r := fat.AllocClus(n);
      aborted := r.AssertFailed?;
      if r.NoSpace? {
        SamePayloadReflexive(fat.bpb, before);
      }
      if r.Got? {
        GrowFromNothing(r.chain);
        heads := heads[id := r.chain[0]];
        chains := chains[id := [] + r.chain];
      }
    }

    method DeleteFile(id: nat)
      requires Ready() && id in chains && FileChain(fat.Entries(), heads[id], chains[id])
      modifies this, fat, fat.device
      ensures fat.Valid() && HeadsMatch()
      ensures Some(View()) == old(Step(View(), Count(), Size(), Delete(id)))
      ensures SamePayload(fat.bpb, old(fat.device.sectors), fat.device.sectors)
    {
      hide CountOfClusters, FirstDataSector, ValidImage, Tables, SamePayload, ZeroWrites, WrittenAll;
      fat.FreeClus(heads[id], chains[id]);
      heads, chains := heads - {id}, chains - {id};
    }

    lemma AbortsIff(v: Volume, id: nat, c: seq<nat>, n: nat)
      requires fat.Valid() && Shaped(v, Count(), Size()) && Within(c, Size())
      ensures ResizeStep(v, Count(), Size(), id, c, n).None? <==>
              n > |c| && AllocOutcome(v.ts[0], Count(), v.hint, AvailOf(v, Count()), n - |c|) == AssertFailed
    {
      hide CountOfClusters, AllocOutcome, WrittenAll, Shifted;
    }

    lemma ShrunkIsStep(v: Volume, id: nat, c: seq<nat>, n: nat)
      requires fat.Valid() && Shaped(v, Count(), Size()) && Within(c, Size()) && n <= |c|
      requires fat.Copies() == WrittenAll(v.ts, ShrinkWrites(c, n)) && fat.availClusCnt == Shifted(v.memo, n - |c|)
      requires fat.freeCount == v.hint && chains == v.chains[id := c[..n]]
      ensures Some(View()) == ResizeStep(v, Count(), Size(), id, c, n)
    {
      hide CountOfClusters, WrittenAll, ShrinkWrites, Shifted, Tables, AllocOutcome;
    }

    lemma NotGrownIsStep(v: Volume, id: nat, c: seq<nat>, n: nat)
      requires fat.Valid() && Shaped(v, Count(), Size()) && Within(c, Size()) && n > |c|
      requires AllocOutcome(v.ts[0], Count(), v.hint, AvailOf(v, Count()), n - |c|) == NoSpace
      requires fat.Copies() == v.ts && fat.availClusCnt == Some(AvailOf(v, Count()))
      requires fat.freeCount == v.hint && chains == v.chains
      ensures Some(View()) == ResizeStep(v, Count(), Size(), id, c, n)
    {
      hide CountOfClusters, AllocOutcome, Tables;
    }

    lemma GrownIsStep(v: Volume, id: nat, c: seq<nat>, n: nat, d: seq<nat>)
      requires fat.Valid() && Shaped(v, Count(), Size()) && Within(c, Size()) && Within(d, Size()) && n > |c| && |d| > 0
      requires AllocOutcome(v.ts[0], Count(), v.hint, AvailOf(v, Count()), n - |c|) == Got(d)
      requires fat.Copies() == WrittenAll(v.ts, GrowWrites(c, d))
      requires fat.availClusCnt == Some(AvailOf(v, Count()) - (n - |c|))
      requires fat.freeCount == NO_HINT && chains == v.chains[id := c + d]
      ensures Some(View()) == ResizeStep(v, Count(), Size(), id, c, n)
    {
      hide CountOfClusters, WrittenAll, GrowWrites, AllocOutcome, Tables;
    }

    method ResizeFile(id: nat, n: nat) returns (aborted: bool)
      requires Ready() && id in chains && FileChain(fat.Entries(), heads[id], chains[id])
      modifies this, fat, fat.device
      ensures fat.Valid() && (aborted <==> old(ResizeStep(View(), Count(), Size(), id, chains[id], n)).None?)
      ensures !aborted ==>
        && HeadsMatch()
        && Some(View()) == old(ResizeStep(View(), Count(), Size(), id, chains[id], n))
        && SamePayload(fat.bpb, old(fat.device.sectors), fat.device.sectors)
    {
      hide CountOfClusters, FirstDataSector, ValidImage, Tables, SamePayload, Collected, ShrinkWrites, GrowWrites;
      hide WrittenAll, IsChain, Link, AllocOutcome, Written, Shifted, GoodHint, ResizeStep;
      ghost var v, before, c := View(), fat.device.sectors, chains[id];
      HeadOf(id);
      GoodHintIsUsable(fat.Entries(), Count(), fat.freeCount, 2);
      AbortsIff(v, id, c, n);
      var fst, r := fat.Resize(heads[id], n, false, c);
      aborted := r.Aborted?;
      if n <= |c| {
        HeadsStay(heads, chains, id, fst, c[..n]);
        chains := chains[id := c[..n]];
        ShrunkIsStep(v, id, c, n);
      } else if r.NoRoom? {
        HeadsStay(heads, chains, id, fst, c);
        assert chains == chains[id := c];
        SamePayloadReflexive(fat.bpb, before);
        NotGrownIsStep(v, id, c, n);
      } else if r.Resized? {
        ghost var d := old(AllocOutcome(fat.Entries(), Count(), fat.freeCount, fat.Avail(), n - |c|)).chain;
        HeadsStay(heads, chains, id, fst, c + d);
        chains := chains[id := c + d];
        GrownIsStep(v, id, c, n, d);
      }
      heads := heads[id := fst];
    }

    lemma HeadOf(id: nat)
      requires HeadsMatch() && id in chains
      ensures id in heads && StartsAt(heads[id], chains[id])
    {
    }
  }

  /** Allocating any number of clusters and freeing them again restores the device byte for byte. */
  method AllocThenFree(fat: FAT, k: nat) returns (r: AllocResult)
    requires fat.Valid() && Reserved(fat.Entries()) && AllAgree(fat.Copies()) && k >= 1
    requires fat.freeCount == NO_HINT || fat.freeCount < fat.Clusters() + 2
    requires GoodHint(fat.Entries(), fat.Clusters(), fat.freeCount, k)
    modifies fat, fat.device
    ensures !r.AssertFailed? ==> fat.Valid() && fat.device.sectors == old(fat.device.sectors)
  {
    hide CountOfClusters, FirstDataSector, ValidImage, Tables, SamePayload, Collected, GoodHint, LinkWrites;
    hide ZeroWrites, WrittenAll, Written, AllocOutcome;
    ghost var before, t, hint, avail := fat.device.sectors, fat.Entries(), fat.freeCount, fat.Avail();
    r := fat.AllocClus(k);
    if r.Got? {
      var c := r.chain;
      OutcomeIsFirstFit(t, fat.Clusters(), hint, avail, k);
      ghost var linked := fat.device.sectors;
      LinkWritesLink(t, c);
      fat.FreeClus(c[0], c);
      FreeRestores(fat.bpb, before, linked, fat.device.sectors, c);
    }
  }

  lemma FreeRestores(g: BPB, before: Image, linked: Image, after: Image, c: seq<nat>)
    requires ValidBPB(g) && ValidImage(g, before) && ValidImage(g, linked) && ValidImage(g, after)
    requires |c| > 0 && AllAgree(Tables(g, before)) && Fresh(Tables(g, before)[0], c)
    requires SamePayload(g, before, linked) && SamePayload(g, linked, after)
    requires Tables(g, linked) == WrittenAll(Tables(g, before), LinkWrites(c))
    requires Tables(g, after) == WrittenAll(Tables(g, linked), ZeroWrites(c))
    ensures after == before
  {
    hide CountOfClusters, FirstDataSector, ValidImage, Tables, LinkWrites, ZeroWrites, Written;
    var ts := Tables(g, before);
    forall k | 0 <= k < |ts| ensures Tables(g, after)[k] == ts[k] {
      ZeroUndoesLink(ts[0], c);
    }
    TablesDetermineImage(g, before, after);
  }
}
