/** The fields of a short directory entry: name, attributes, times, first cluster and size. */
module ShortEntry {
  import opened Base
  import opened LongName
  import opened ShortName

  const ATTR_DIRECTORY := 0x10

  /** The part of a short entry that a file object carries and writes back. */
  datatype Meta = Meta(crt: seq<byte>, acc: seq<byte>, wrt: seq<byte>, fstClus: u32, size: u32)

  predicate ValidMeta(m: Meta) {
    |m.crt| == 5 && |m.acc| == 2 && |m.wrt| == 4
  }

  /** `readEntryClusNo`: the high half lies at byte 20, the low half at byte 26. */
  function FstClusOf(e: Entry): u32 {
    (e[20] as int + 0x100 * e[21] as int) * 0x10000 + (e[26] as int + 0x100 * e[27] as int)
  }

  function MetaOf(e: Entry): (m: Meta)
    ensures ValidMeta(m)
  {
    Meta(e[13..18], e[18..20], e[22..26], FstClusOf(e), ReadU32(e, 28))
  }

  /** The entry with a file's metadata written over it; a directory's size field is left alone. */
  function WithMeta(e: Entry, m: Meta, isDir: bool): Entry
    requires ValidMeta(m)
  {
    var clus := U32Bytes(m.fstClus);
    e[..13] + m.crt + m.acc + clus[2..] + m.wrt + clus[..2] + if isDir then e[28..] else U32Bytes(m.size)
  }

  /** Writing metadata back and reading it again gives it, and the entry's name and kind are untouched. */
  lemma MetaRoundTrip(e: Entry, m: Meta, isDir: bool)
    requires ValidMeta(m)
    ensures MetaOf(WithMeta(e, m, isDir)) == if isDir then m.(size := MetaOf(e).size) else m
    ensures WithMeta(e, m, isDir)[..13] == e[..13]
    ensures BasisOf(WithMeta(e, m, isDir)) == BasisOf(e)
  {
    var r, clus := WithMeta(e, m, isDir), U32Bytes(m.fstClus);
    assert r[20] == clus[2] && r[21] == clus[3] && r[26] == clus[0] && r[27] == clus[1];
    assert FstClusOf(r) == m.fstClus;
    assert r[13..18] == m.crt && r[18..20] == m.acc && r[22..26] == m.wrt;
    if !isDir {
      var w := U32Bytes(m.size);
      assert r[28] == w[0] && r[29] == w[1] && r[30] == w[2] && r[31] == w[3];
    }
    assert r[..8] == e[..8] && r[8..11] == e[8..11];
  }

  /** Where the fields lie; the first cluster is split into its halves. */
  lemma MetaLayout(e: Entry, m: Meta, isDir: bool)
    requires ValidMeta(m)
    ensures var r := WithMeta(e, m, isDir);
      && r[..13] == e[..13] && r[13..18] == m.crt && r[18..20] == m.acc && r[22..26] == m.wrt
      && ReadU32(r[26..28] + r[20..22], 0) == m.fstClus
      && if isDir then r[28..32] == e[28..32] else ReadU32(r[28..32], 0) == m.size
  {
    MetaRoundTrip(e, m, isDir);
  }

  /** A short entry that has just been made: no clusters, no size, the three times alike. */
  predicate IsNewShort(e: Entry, b: BasisName, isDir: bool, stamp: seq<byte>)
    requires ValidBasis(b) && |stamp| == 5
  {
    && BasisOf(e) == b && Attr(e) == (if isDir then ATTR_DIRECTORY else 0) && e[12] == 0
    && MetaOf(e) == Meta(stamp, stamp[3..], stamp[1..], 0, 0)
  }

  /** All 32 bytes of a new entry: the dates of its last access and write are parts of the creation stamp. */
  lemma NewShortLayout(e: Entry, b: BasisName, isDir: bool, stamp: seq<byte>)
    requires ValidBasis(b) && |stamp| == 5 && IsNewShort(e, b, isDir, stamp)
    ensures e == b.primary + b.extension + [if isDir then 0x10 else 0x00, 0x00] + stamp + stamp[3..5] + [0x00, 0x00] +
                 stamp[1..5] + Zeros(6)
  {
    assert e[..8] == b.primary && e[8..11] == b.extension;
    assert e[13..18] == stamp && e[18..20] == stamp[3..] && e[22..26] == stamp[1..];
  }

  method MkShortDirEntry(b: BasisName, isDir: bool, stamp: seq<byte>) returns (e: Entry)
    requires ValidBasis(b) && |stamp| == 5
    ensures IsNewShort(e, b, isDir, stamp)
  {
    e := Zeros(32);
    e := Splice(e, 0, b.primary);
    e := Splice(e, 8, b.extension);
    e := e[11 := if isDir then ATTR_DIRECTORY else 0];
    e := Splice(e, 13, stamp);
    e := Splice(e, 18, stamp[3..]);
    e := Splice(e, 22, stamp[1..]);
    assert e[..8] == b.primary && e[8..11] == b.extension;
    assert e[13..18] == stamp && e[18..20] == stamp[3..] && e[22..26] == stamp[1..];
  }
}
