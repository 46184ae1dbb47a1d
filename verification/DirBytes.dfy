/** A directory's bytes as 32-byte entries. */
module DirBytes {
  import opened Base
  import opened LongName
  import opened DirLog

  function EntriesOf(bytes: seq<byte>): (r: seq<Entry>)
    ensures |r| == |bytes| / ENTRY_SIZE
    ensures forall n :: 0 <= n < |r| ==> r[n] == bytes[ENTRY_SIZE * n..ENTRY_SIZE * n + ENTRY_SIZE]
  {
    seq(|bytes| / ENTRY_SIZE, n requires 0 <= n < |bytes| / ENTRY_SIZE =>
      bytes[ENTRY_SIZE * n..ENTRY_SIZE * n + ENTRY_SIZE])
  }

  /** Replacing the 32 bytes at `32 * n` replaces entry `n`. */
  lemma EntryReplaced(x: seq<byte>, y: seq<byte>, n: nat, e: Entry)
    requires |y| == |x| && ENTRY_SIZE * n + ENTRY_SIZE <= |x|
    requires y[ENTRY_SIZE * n..ENTRY_SIZE * n + ENTRY_SIZE] == e
    requires forall i :: 0 <= i < |x| && !(ENTRY_SIZE * n <= i < ENTRY_SIZE * n + ENTRY_SIZE) ==> y[i] == x[i]
    ensures n < |EntriesOf(x)| && EntriesOf(y) == EntriesOf(x)[n := e]
  {
    forall k | 0 <= k < |EntriesOf(y)| && k != n ensures EntriesOf(y)[k] == EntriesOf(x)[k] {
      assert EntriesOf(y)[k] == EntriesOf(x)[k] by {
        var lo := ENTRY_SIZE * k;
      }
    }
  }

  /** Copying bytes into entry `n` changes that entry only. */
  lemma EntrySpliced(x: seq<byte>, n: nat, off: nat, data: seq<byte>)
    requires ENTRY_SIZE * n + ENTRY_SIZE <= |x| && off + |data| <= ENTRY_SIZE
    ensures n < |EntriesOf(x)|
    ensures EntriesOf(Splice(x, ENTRY_SIZE * n + off, data)) == EntriesOf(x)[n := Splice(EntriesOf(x)[n], off, data)]
  {
    hide EntriesOf, Splice;
    var y := Splice(x, ENTRY_SIZE * n + off, data);
    EntryReplaced(x, y, n, Splice(EntriesOf(x)[n], off, data));
  }

  lemma EntriesOfPrefix(x: seq<byte>, m: nat)
    requires ENTRY_SIZE * m <= |x|
    ensures m <= |EntriesOf(x)| && EntriesOf(x[..ENTRY_SIZE * m]) == EntriesOf(x)[..m]
  {
    var p := x[..ENTRY_SIZE * m];
    forall k | 0 <= k < m ensures EntriesOf(p)[k] == EntriesOf(x)[k] {
      assert ENTRY_SIZE * k + ENTRY_SIZE <= ENTRY_SIZE * m;
    }
  }

  function EndEntries(n: nat): (r: seq<Entry>)
    ensures |r| == n && AllEmpty(r)
  {
    seq(n, _ => END_ENTRY)
  }

  /** Zero bytes read as entries that end the directory. */
  lemma EntriesOfZeros(x: seq<byte>, m: nat)
    requires |x| % ENTRY_SIZE == 0
    ensures EntriesOf(x + Zeros(ENTRY_SIZE * m)) == EntriesOf(x) + EndEntries(m)
  {
    var y := x + Zeros(ENTRY_SIZE * m);
    var a, b := EntriesOf(y), EntriesOf(x) + EndEntries(m);
    forall k | 0 <= k < |a| ensures a[k] == b[k] {
      var lo := ENTRY_SIZE * k;
      if k < |EntriesOf(x)| {
        assert y[lo..lo + ENTRY_SIZE] == x[lo..lo + ENTRY_SIZE];
      } else {
        assert y[lo..lo + ENTRY_SIZE] == END_ENTRY;
      }
    }
  }
}
