/** Long directory entries: 13 UTF-16 units of a name each, stored last piece first. */
module LongName {
  import opened Base

  const ENTRY_SIZE := 32
  const NAME_BYTES := 26
  const LAST_LONG_ENTRY := 0x40
  const ATTR_LONG_NAME := 0x0F

  /** A 32-byte directory entry. */
  type Entry = e: seq<byte> | |e| == ENTRY_SIZE witness Zeros(32)

  function Ord(e: Entry): byte { e[0] }
  function Attr(e: Entry): byte { e[11] }
  function ChkSumOf(e: Entry): byte { e[13] }

  predicate IsEmpty(e: Entry) {
    Ord(e) == 0x00 || Ord(e) == 0xE5
  }

  predicate IsLastEmpty(e: Entry) {
    Ord(e) == 0x00
  }

  /** `(attr & 0x3F) == 0x0F`. */
  predicate IsLong(e: Entry) {
    Attr(e) % 0x40 == ATTR_LONG_NAME
  }

  predicate IsValidLong(e: Entry, chkSum: byte) {
    IsLong(e) && e[12] == 0 && ChkSumOf(e) == chkSum && e[26] == 0 && e[27] == 0
  }

  /** What an entry is: free if it starts with 0x00 or 0xE5, and long by the low six bits of its attributes. */
  lemma EntryKinds(e: Entry)
    ensures IsEmpty(e) <==> e[0] in {0x00, 0xE5}
    ensures IsLastEmpty(e) <==> e[0] == 0x00
    ensures IsLong(e) <==> e[11] in {0x0F, 0x4F, 0x8F, 0xCF}
    ensures forall sum: byte :: IsValidLong(e, sum) <==> IsLong(e) && e[13] == sum && e[12] == e[26] == e[27] == 0
  {
  }

  /** Where unit `i` of the name lies in an entry: in `name1`, `name2` or `name3`. */
  function UnitPos(i: nat): (p: nat)
    requires i < 13
    ensures p + 1 < ENTRY_SIZE
  {
    if i < 5 then 1 + 2 * i else if i < 11 then 14 + 2 * (i - 5) else 28 + 2 * (i - 11)
  }

  /** `is_lst ? KLastLongEntry | ord : ord`, truncated to a byte. */
  function StoredOrd(isLst: bool, ord: nat): byte {
    var o := ord % 0x100;
    if isLst && o / LAST_LONG_ENTRY % 2 == 0 then o + LAST_LONG_ENTRY else o
  }

  predicate Even(n: nat) {
    n % 2 == 0
  }

  /** Byte `b` of the unit stored at name offset `off`: the name, then one 0x0000, then 0xFFFF. */
  function NameByte(name: seq<byte>, off: nat, b: nat): byte
    requires Even(|name|) && Even(off) && b < 2
  {
    if off < |name| then name[off + b] else if off == |name| then 0x00 else 0xFF
  }

  predicate IsLongEntryFor(e: Entry, isLst: bool, ord: nat, chkSum: byte, name: seq<byte>, off: nat)
    requires Even(|name|) && Even(off)
  {
    && Ord(e) == StoredOrd(isLst, ord) && Attr(e) == ATTR_LONG_NAME && e[12] == 0 && ChkSumOf(e) == chkSum
    && e[26] == 0 && e[27] == 0
    && forall i :: 0 <= i < 13 ==>
         e[UnitPos(i)] == NameByte(name, off + 2 * i, 0) && e[UnitPos(i) + 1] == NameByte(name, off + 2 * i, 1)
  }

  /** Every byte of a long entry is determined by its description. */
  lemma LongEntryIsUnique(e: Entry, f: Entry, isLst: bool, ord: nat, chkSum: byte, name: seq<byte>, off: nat)
    requires Even(|name|) && Even(off)
    requires IsLongEntryFor(e, isLst, ord, chkSum, name, off) && IsLongEntryFor(f, isLst, ord, chkSum, name, off)
    ensures e == f
  {
    forall b | 0 <= b < ENTRY_SIZE ensures e[b] == f[b] {
      if 1 <= b < 11 {
        assert b == UnitPos((b - 1) / 2) + (b - 1) % 2;
      } else if 14 <= b < 26 {
        assert b == UnitPos((b - 14) / 2 + 5) + (b - 14) % 2;
      } else if 28 <= b {
        assert b == UnitPos((b - 28) / 2 + 11) + (b - 28) % 2;
      }
    }
  }

  method MkLongDirEntry(isLst: bool, ord: nat, chkSum: byte, name: seq<byte>, off: nat) returns (e: Entry)
    requires Even(|name|) && Even(off)
    ensures IsLongEntryFor(e, isLst, ord, chkSum, name, off)
  {
    e := Zeros(32);
    e := e[0 := StoredOrd(isLst, ord)];
    e := e[11 := ATTR_LONG_NAME];
    e := e[13 := chkSum];
    var i, ptr, pos := 0, 1, off;
    while i < 13
      invariant i <= 13 && pos == off + 2 * i && (i < 13 ==> ptr == UnitPos(i))
      invariant Ord(e) == StoredOrd(isLst, ord) && Attr(e) == ATTR_LONG_NAME && e[12] == 0 && ChkSumOf(e) == chkSum
      invariant e[26] == 0 && e[27] == 0
      invariant forall k :: 0 <= k < i ==>
        e[UnitPos(k)] == NameByte(name, off + 2 * k, 0) && e[UnitPos(k) + 1] == NameByte(name, off + 2 * k, 1)
    {
      e := e[ptr := NameByte(name, pos, 0)];
      e := e[ptr + 1 := NameByte(name, pos, 1)];
      pos, ptr, i := pos + 2, ptr + 2, i + 1;
      if i == 5 {
        ptr := 14;
      } else if i == 11 {
        ptr := 28;
      }
    }
  }

  predicate IsTerminator(a: byte, b: byte) {
    (a == 0x00 && b == 0x00) || (a == 0xFF && b == 0xFF)
  }

  /** The units of an entry from unit `i` up to the first 0x0000 or 0xFFFF. */
  function UnitsFrom(e: Entry, i: nat): seq<byte>
    requires i <= 13
    decreases 13 - i
  {
    if i == 13 || IsTerminator(e[UnitPos(i)], e[UnitPos(i) + 1]) then []
    else [e[UnitPos(i)], e[UnitPos(i) + 1]] + UnitsFrom(e, i + 1)
  }

  lemma {:induction false} UnitsAreShort(e: Entry, i: nat)
    requires i <= 13
    ensures |UnitsFrom(e, i)| <= 2 * (13 - i)
    decreases 13 - i
  {
    if i < 13 {
      UnitsAreShort(e, i + 1);
    }
  }

  lemma UnitsAt(e: Entry, i: nat)
    requires i <= 13
    ensures UnitsFrom(e, i) ==
            if i == 13 || IsTerminator(e[UnitPos(i)], e[UnitPos(i) + 1]) then []
            else [e[UnitPos(i)], e[UnitPos(i) + 1]] + UnitsFrom(e, i + 1)
  {
  }

  method ReadLongEntryName(e: Entry) returns (name: seq<byte>)
    ensures name == UnitsFrom(e, 0)
  {
    hide UnitsFrom, IsTerminator;
    name := [];
    var i, ptr := 0, 1;
    while i < 13
      invariant i <= 13 && (i < 13 ==> ptr == UnitPos(i))
      invariant name + UnitsFrom(e, i) == UnitsFrom(e, 0)
    {
      UnitsAt(e, i);
      if IsTerminator(e[ptr], e[ptr + 1]) {
        break;
      }
      name := name + [e[ptr], e[ptr + 1]];
      ptr, i := ptr + 2, i + 1;
      if i == 5 {
        ptr := 14;
      } else if i == 11 {
        ptr := 28;
      }
    }
    UnitsAt(e, i);
  }

  // ----- the entries of a whole name -----

  function LongEntryCount(name: seq<byte>): nat
    requires |name| > 0
  {
    (|name| - 1) / NAME_BYTES + 1
  }

  lemma EvenOffset(k: nat)
    ensures Even(NAME_BYTES * k)
  {
    RowColumn(13 * k, 0, 2);
  }

  /** `es` are the long entries of `name` in directory order: the piece with the highest order comes first. */
  predicate HoldsName(es: seq<Entry>, chkSum: byte, name: seq<byte>)
    requires |name| > 0 && Even(|name|)
  {
    && |es| == LongEntryCount(name)
    && forall j :: 0 <= j < |es| ==>
         (EvenOffset(|es| - j - 1); IsLongEntryFor(es[j], j == 0, |es| - j, chkSum, name, NAME_BYTES * (|es| - j - 1)))
  }

  /** The 26 name bytes of an entry. */
  function PieceOf(e: Entry): (r: seq<byte>)
    ensures |r| == 26
  {
    e[1..11] + e[14..26] + e[28..32]
  }

  /** A name as it is cut into pieces: one 0x0000 follows it, then 0xFFFF. */
  function Padded(name: seq<byte>): seq<byte> {
    name + [0x00, 0x00] + seq(26, _ => 0xFF)
  }

  lemma PieceBytes(e: Entry, isLst: bool, ord: nat, chkSum: byte, name: seq<byte>, off: nat)
    requires Even(|name|) && Even(off) && off <= |name| && IsLongEntryFor(e, isLst, ord, chkSum, name, off)
    ensures PieceOf(e) == Padded(name)[off..off + 26]
  {
    var r, p := PieceOf(e), Padded(name);
    forall b | 0 <= b < 26 ensures r[b] == p[off + b] {
      PieceByte(e, isLst, ord, chkSum, name, off, b / 2, b % 2);
    }
  }

  lemma EntryHeader(e: Entry, isLst: bool, ord: nat, chkSum: byte, name: seq<byte>, off: nat)
    requires Even(|name|) && Even(off) && IsLongEntryFor(e, isLst, ord, chkSum, name, off)
    ensures e[0] == StoredOrd(isLst, ord) && e[11] == 0x0F && e[13] == chkSum && e[12] == e[26] == e[27] == 0
  {
  }

  lemma PieceByte(e: Entry, isLst: bool, ord: nat, chkSum: byte, name: seq<byte>, off: nat, i: nat, b: nat)
    requires Even(|name|) && Even(off) && off <= |name| && IsLongEntryFor(e, isLst, ord, chkSum, name, off)
    requires i < 13 && b < 2
    ensures PieceOf(e)[2 * i + b] == Padded(name)[off + 2 * i + b]
  {
    assert e[UnitPos(i)] == NameByte(name, off + 2 * i, 0) && e[UnitPos(i) + 1] == NameByte(name, off + 2 * i, 1);
  }

  lemma LowByteBits(ord: nat)
    ensures var o := ord % 0x100; o % 0x40 == ord % 0x40 && o / 0x40 % 2 == ord / 0x40 % 2 && o / 0x80 == ord / 0x80 % 2
  {
    var q, o := ord / 0x100, ord % 0x100;
    assert ord == 0x100 * q + o;
    assert ord / 0x40 == 4 * q + o / 0x40 && ord / 0x80 == 2 * q + o / 0x80;
  }

  /** Bit 6 of a stored order is set in a marked entry; the other bits are those of the order. */
  lemma StoredOrdBits(isLst: bool, ord: nat)
    ensures StoredOrd(isLst, ord) % 0x40 == ord % 0x40 && StoredOrd(isLst, ord) / 0x80 == ord / 0x80 % 2
    ensures StoredOrd(isLst, ord) / 0x40 % 2 == if isLst then 1 else ord / 0x40 % 2
  {
    LowByteBits(ord);
  }

  /**
   * The bytes of a name's entries: no more entries than the name needs, the last one with the first piece and order 1,
   * the first one marked.
   */
  lemma NameLayout(es: seq<Entry>, chkSum: byte, name: seq<byte>, j: nat)
    requires |name| > 0 && Even(|name|) && HoldsName(es, chkSum, name) && j < |es|
    ensures 26 * (|es| - 1) < |name| <= 26 * |es|
    ensures PieceOf(es[j]) == Padded(name)[26 * (|es| - 1 - j)..26 * (|es| - j)]
    ensures es[j][0] % 0x40 == (|es| - j) % 0x40 && es[j][0] / 0x80 == (|es| - j) / 0x80 % 2
    ensures es[j][0] / 0x40 % 2 == if j == 0 then 1 else (|es| - j) / 0x40 % 2
    ensures es[j][11] == 0x0F && es[j][13] == chkSum && es[j][12] == es[j][26] == es[j][27] == 0
  {
    hide StoredOrd, PieceOf, Padded, NameByte, IsLongEntryFor, Even;
    EvenOffset(|es| - j - 1);
    EntryHeader(es[j], j == 0, |es| - j, chkSum, name, NAME_BYTES * (|es| - j - 1));
    StoredOrdBits(j == 0, |es| - j);
    PieceBytes(es[j], j == 0, |es| - j, chkSum, name, NAME_BYTES * (|es| - j - 1));
  }

  /** Reads entries in directory order, putting each piece in front of those read before. */
  function JoinLong(es: seq<Entry>): seq<byte> {
    if es == [] then [] else UnitsFrom(es[|es| - 1], 0) + JoinLong(es[..|es| - 1])
  }

  /** No unit of the name reads as the end of the name. */
  predicate NoTerminator(name: seq<byte>)
    requires Even(|name|)
  {
    forall k :: 0 <= k < |name| && Even(k) ==> !IsTerminator(name[k], name[k + 1])
  }

  /** The part of the name from `lo` on has no such unit below `hi`. */
  predicate NoTerminatorIn(name: seq<byte>, lo: nat, hi: nat)
    requires Even(|name|)
  {
    forall k :: lo <= k < hi && k < |name| && Even(k) ==> !IsTerminator(name[k], name[k + 1])
  }

  lemma ReadsUnit(e: Entry, isLst: bool, ord: nat, chkSum: byte, name: seq<byte>, off: nat, i: nat)
    requires Even(|name|) && Even(off) && i <= 13 && off + 2 * i <= |name|
    requires IsLongEntryFor(e, isLst, ord, chkSum, name, off)
    ensures var lo := off + 2 * i;
      UnitsFrom(e, i) ==
      if i == 13 || lo == |name| || IsTerminator(name[lo], name[lo + 1]) then []
      else [name[lo], name[lo + 1]] + UnitsFrom(e, i + 1)
  {
  }

  lemma NextUnit(name: seq<byte>, lo: nat, hi: nat)
    requires Even(|name|) && Even(lo) && lo < hi && lo < |name|
    ensures NoTerminatorIn(name, lo, hi) <==> !IsTerminator(name[lo], name[lo + 1]) && NoTerminatorIn(name, lo + 2, hi)
  {
  }

  /** A piece reads back whole if it has no terminating unit, and shorter otherwise. */
  lemma {:induction false} ReadsPiece(e: Entry, isLst: bool, ord: nat, chkSum: byte, name: seq<byte>, off: nat, i: nat)
    requires Even(|name|) && Even(off) && i <= 13 && off + 2 * i <= |name|
    requires IsLongEntryFor(e, isLst, ord, chkSum, name, off)
    ensures var lo, hi := off + 2 * i, Min(off + NAME_BYTES, |name|);
      if NoTerminatorIn(name, lo, hi) then UnitsFrom(e, i) == name[lo..hi] else |UnitsFrom(e, i)| < hi - lo
    decreases 13 - i
  {
    hide UnitsFrom, IsLongEntryFor, IsTerminator;
    var lo, hi := off + 2 * i, Min(off + NAME_BYTES, |name|);
    ReadsUnit(e, isLst, ord, chkSum, name, off, i);
    if i < 13 && lo < |name| {
      ReadsPiece(e, isLst, ord, chkSum, name, off, i + 1);
      NextUnit(name, lo, hi);
    }
  }

  lemma PieceFits(last: nat, k: nat)
    requires k <= last / NAME_BYTES
    ensures NAME_BYTES * (last / NAME_BYTES - k) <= last && Even(NAME_BYTES * (last / NAME_BYTES - k))
  {
    EvenOffset(last / NAME_BYTES - k);
  }

  /** Offset of the piece that ends up `k`th in directory order. */
  function PieceOffset(name: seq<byte>, k: nat): (off: nat)
    requires |name| > 0 && k < LongEntryCount(name)
    ensures Even(off) && off < |name|
  {
    PieceFits(|name| - 1, k);
    NAME_BYTES * (LongEntryCount(name) - 1 - k)
  }

  /** The first `k` entries in directory order, joined by prepending, give the name from the cut on. */
  lemma {:induction false} JoinsSuffix(es: seq<Entry>, chkSum: byte, name: seq<byte>, k: nat)
    requires |name| > 0 && Even(|name|) && HoldsName(es, chkSum, name) && k <= |es|
    ensures var cut := if k == 0 then |name| else PieceOffset(name, k - 1);
      if NoTerminatorIn(name, cut, |name|) then JoinLong(es[..k]) == name[cut..] else |JoinLong(es[..k])| < |name| - cut
  {
    hide UnitsFrom, IsLongEntryFor;
    if k > 0 {
      JoinsSuffix(es, chkSum, name, k - 1);
      var e, off := es[k - 1], PieceOffset(name, k - 1);
      var cut := if k == 1 then |name| else PieceOffset(name, k - 2);
      assert cut == Min(off + NAME_BYTES, |name|);
      ReadsPiece(e, k - 1 == 0, |es| - (k - 1), chkSum, name, off, 0);
      assert es[..k][..k - 1] == es[..k - 1] && es[..k][k - 1] == e;
      SplitRange(name, off, cut);
    }
  }

  lemma SplitRange(name: seq<byte>, lo: nat, mid: nat)
    requires Even(|name|) && lo <= mid <= |name|
    ensures NoTerminatorIn(name, lo, |name|) <==> NoTerminatorIn(name, lo, mid) && NoTerminatorIn(name, mid, |name|)
  {
  }

  /**
   * Splitting a name into long entries and reading them back gives the name, for every length, exactly
   * when no unit of it is 0x0000 or 0xFFFF.
   */
  lemma LongNameRoundTripIff(es: seq<Entry>, chkSum: byte, name: seq<byte>)
    requires |name| > 0 && Even(|name|) && HoldsName(es, chkSum, name)
    ensures JoinLong(es) == name <==> NoTerminator(name)
    ensures NoTerminator(name) <==>
            forall i :: 0 <= i < |name| && i % 2 == 0 ==>
              (name[i], name[i + 1]) != (0x00, 0x00) && (name[i], name[i + 1]) != (0xFF, 0xFF)
  {
    JoinsSuffix(es, chkSum, name, |es|);
    assert es[..|es|] == es;
  }

  /** Whether the `n` long entries of a name all look live: no stored order may read as a free entry. */
  predicate OrdersFit(n: nat) {
    n <= 228 && n != 165
  }

  lemma OrderLiveIff(isLst: bool, ord: nat)
    requires 1 <= ord
    ensures StoredOrd(isLst, ord) == 0x00 || StoredOrd(isLst, ord) == 0xE5 <==>
      var o := ord % 0x100; (o == 0 && !isLst) || o == 0xE5 || (isLst && o == 0xA5)
  {
  }

  /** The orders of a name's entries all fit exactly when there are at most 228 of them, but not 165. */
  lemma LongEntriesLiveIff(es: seq<Entry>, chkSum: byte, name: seq<byte>)
    requires |name| > 0 && Even(|name|) && HoldsName(es, chkSum, name)
    ensures (forall j :: 0 <= j < |es| ==> !IsEmpty(es[j])) <==> OrdersFit(|es|)
  {
    forall j | 0 <= j < |es|
      ensures IsEmpty(es[j]) <==>
        var o := (|es| - j) % 0x100; (o == 0 && j != 0) || o == 0xE5 || (j == 0 && o == 0xA5)
    {
      OrderLiveIff(j == 0, |es| - j);
    }
    if |es| >= 229 {
      assert (|es| - (|es| - 229)) % 0x100 == 0xE5;
      assert IsEmpty(es[|es| - 229]);
    } else if |es| == 165 {
      assert IsEmpty(es[0]);
    }
  }
}
