/** Short (8.3) names: the codec between entry bytes and dotted names, and the checksum over the entry bytes. */
module ShortName {
  import opened Base
  import opened LongName

  const SPACE: byte := 0x20
  const DOT: byte := 0x2E

  datatype BasisName = BasisName(primary: seq<byte>, extension: seq<byte>)

  predicate ValidBasis(b: BasisName) {
    |b.primary| == 8 && |b.extension| == 3
  }

  function Spaces(n: nat): (r: seq<byte>)
    ensures |r| == n && forall i :: 0 <= i < n ==> r[i] == SPACE
  {
    seq(n, _ => SPACE)
  }

  function Pad(s: seq<byte>, n: nat): (r: seq<byte>)
    requires |s| <= n
    ensures |r| == n
  {
    s + Spaces(n - |s|)
  }

  // ----- checksum -----

  function Rotate(sum: byte): byte {
    (if sum % 2 == 1 then 0x80 else 0) + sum / 2
  }

  /** The lowest bit becomes the highest, and the others move down by one. */
  lemma RotateMovesBits(sum: byte)
    ensures Rotate(sum) / 0x80 == sum % 2 && Rotate(sum) % 0x80 == sum / 2
  {
  }

  function Sum(s: seq<byte>): byte {
    if s == [] then 0 else (Rotate(Sum(s[..|s| - 1])) + s[|s| - 1]) % 0x100
  }

  function BytesOf(b: BasisName): seq<byte> {
    b.primary + b.extension
  }

  method ChkSum(b: BasisName) returns (sum: byte)
    requires ValidBasis(b)
    ensures sum == Sum(BytesOf(b))
  {
    sum := 0;
    var n, inExtension, ptr := 0, false, 0;
    while n < 11
      invariant n <= 11 && inExtension == (n >= 8) && ptr == (if inExtension then n - 8 else n)
      invariant sum == Sum(BytesOf(b)[..n])
    {
      var c := if inExtension then b.extension[ptr] else b.primary[ptr];
      assert BytesOf(b)[..n + 1][..n] == BytesOf(b)[..n] && BytesOf(b)[..n + 1][n] == c;
      sum := (Rotate(sum) + c) % 0x100;
      n, ptr := n + 1, ptr + 1;
      if !inExtension && ptr == 8 {
        inExtension, ptr := true, 0;
      }
    }
    assert BytesOf(b)[..11] == BytesOf(b);
  }

  /** Names that differ in a single byte have different checksums. */
  lemma {:induction false} SumSeesOneByte(a: seq<byte>, b: seq<byte>, i: nat)
    requires |a| == |b| && i < |a| && a[i] != b[i] && forall j :: 0 <= j < |a| && j != i ==> a[j] == b[j]
    ensures Sum(a) != Sum(b)
    decreases |a|
  {
    var n := |a| - 1;
    if i < n {
      SumSeesOneByte(a[..n], b[..n], i);
    } else {
      assert a[..n] == b[..n];
    }
    SumStepInjective(Sum(a[..n]), Sum(b[..n]), a[n], b[n]);
  }

  lemma SumStepInjective(x: byte, y: byte, c: byte, d: byte)
    ensures x != y && c == d ==> (Rotate(x) + c) % 0x100 != (Rotate(y) + d) % 0x100
    ensures x == y && c != d ==> (Rotate(x) + c) % 0x100 != (Rotate(y) + d) % 0x100
  {
    hide Rotate;
    RotateMovesBits(x);
    RotateMovesBits(y);
  }

  /** "README.TXT" as it is stored. */
  const README: seq<byte> := [0x52, 0x45, 0x41, 0x44, 0x4D, 0x45, 0x20, 0x20, 0x54, 0x58, 0x54]

  /** The checksum of "README.TXT" is 73, and these are the sums on the way. */
  lemma SumExample()
    ensures Sum(README) == 0x73
  {
    hide Sum;
    SumMore(README, 0, 0x00, 0x52);
    SumMore(README, 1, 0x52, 0x6E);
    SumMore(README, 2, 0x6E, 0x78);
    SumMore(README, 3, 0x78, 0x80);
    SumMore(README, 4, 0x80, 0x8D);
    SumMore(README, 5, 0x8D, 0x0B);
    SumMore(README, 6, 0x0B, 0xA5);
    SumMore(README, 7, 0xA5, 0xF2);
    SumMore(README, 8, 0xF2, 0xCD);
    SumMore(README, 9, 0xCD, 0x3E);
    SumMore(README, 10, 0x3E, 0x73);
    assert README[..11] == README;
  }

  lemma SumMore(s: seq<byte>, n: nat, sum: byte, more: byte)
    requires n < |s| && (if n == 0 then sum == 0 else Sum(s[..n]) == sum)
    requires more == (Rotate(sum) + s[n]) % 0x100
    ensures Sum(s[..n + 1]) == more
  {
    assert s[..n + 1][..n] == s[..n];
  }

  // ----- entry bytes to dotted name -----

  function FirstSpace(s: seq<byte>): (k: nat)
    ensures k <= |s| && (k < |s| ==> s[k] == SPACE) && forall i :: 0 <= i < k ==> s[i] != SPACE
  {
    if s == [] || s[0] == SPACE then 0 else FirstSpace(s[1..]) + 1
  }

  function UpToSpace(s: seq<byte>): seq<byte> {
    s[..FirstSpace(s)]
  }

  /** A leading 0x05 stands for 0xE5, which would read as a free entry. */
  function Unescape(s: seq<byte>): seq<byte> {
    if s != [] && s[0] == 0x05 then [0xE5] + s[1..] else s
  }

  function DottedName(b: BasisName): seq<byte> {
    var x := UpToSpace(b.extension);
    Unescape(UpToSpace(b.primary)) + if x == [] then [] else [DOT] + x
  }

  function BasisOf(e: Entry): (b: BasisName)
    ensures ValidBasis(b)
  {
    BasisName(e[..8], e[8..11])
  }

  /** Both parts up to their first space, `p` and `x` bytes long; a leading 0x05 reads as 0xE5. */
  lemma DottedNameBytes(b: BasisName, p: nat, x: nat)
    requires ValidBasis(b) && p <= 8 && x <= 3
    requires 0x20 !in b.primary[..p] && (p < 8 ==> b.primary[p] == 0x20)
    requires 0x20 !in b.extension[..x] && (x < 3 ==> b.extension[x] == 0x20)
    ensures |DottedName(b)| == p + if x == 0 then 0 else 1 + x
    ensures forall i :: 0 <= i < p ==>
      DottedName(b)[i] == if i == 0 && b.primary[0] == 0x05 then 0xE5 else b.primary[i]
    ensures x > 0 ==> DottedName(b)[p] == 0x2E
    ensures forall i :: 0 <= i < x ==> DottedName(b)[p + 1 + i] == b.extension[i]
  {
    hide FirstSpace;
    assert forall i :: 0 <= i < p ==> b.primary[..p][i] == b.primary[i];
    assert forall i :: 0 <= i < x ==> b.extension[..x][i] == b.extension[i];
    SpaceIsFirst(b.primary, p);
    SpaceIsFirst(b.extension, x);
  }

  method ReadShortEntryName(e: Entry) returns (name: seq<byte>)
    ensures name == DottedName(BasisOf(e))
  {
    hide FirstSpace;
    name := ReadPrimary(e);
    ghost var head, x := name, e[8..11];
    var i := 8;
    while i < 11 && e[i] != SPACE
      invariant 8 <= i <= 11 && name == head + (if i == 8 then [] else [DOT] + x[..i - 8])
      invariant forall j :: 0 <= j < i - 8 ==> x[j] != SPACE
    {
      if i == 8 {
        name := name + [DOT];
      }
      name := name + [e[i]];
      i := i + 1;
    }
    SpaceIsFirst(x, i - 8);
  }

  method ReadPrimary(e: Entry) returns (name: seq<byte>)
    ensures name == Unescape(UpToSpace(e[..8]))
  {
    hide FirstSpace;
    ghost var p := e[..8];
    name := [];
    var i := 0;
    while i < 8 && e[i] != SPACE
      invariant i <= 8 && name == Unescape(p[..i]) && forall j :: 0 <= j < i ==> p[j] != SPACE
    {
      assert p[..i + 1] == p[..i] + [e[i]];
      name := name + [if i == 0 && e[i] == 0x05 then 0xE5 else e[i]];
      i := i + 1;
    }
    SpaceIsFirst(p, i);
  }

  lemma SpaceIsFirst(s: seq<byte>, i: nat)
    requires i <= |s| && (i < |s| ==> s[i] == SPACE) && forall j :: 0 <= j < i ==> s[j] != SPACE
    ensures FirstSpace(s) == i
  {
  }

  // ----- dotted name to entry bytes -----

  /** How many bytes of a name go into the primary part: up to a dot, and at most eight. */
  function PrimaryLength(s: seq<byte>): (k: nat)
    ensures k <= |s| && k <= 8 && (k < |s| && k < 8 ==> s[k] == DOT)
    ensures forall i :: 0 <= i < k ==> s[i] != DOT
  {
    if s == [] || s[0] == DOT then 0 else Min(PrimaryLength(s[1..]) + 1, 8)
  }

  function BasisFromShort(s: seq<byte>): (b: BasisName)
    ensures ValidBasis(b)
  {
    var k := PrimaryLength(s);
    BasisName(Pad(s[..k], 8), if k >= |s| then Spaces(3) else Pad(s[k + 1..Min(k + 4, |s|)], 3))
  }

  lemma PrimaryStops(s: seq<byte>, i: nat)
    requires i <= |s| && i <= 8 && forall j :: 0 <= j < i ==> s[j] != DOT
    requires i == |s| || i == 8 || s[i] == DOT
    ensures PrimaryLength(s) == i
  {
  }

  /**
   * The bytes before a dot go into the primary part, at most eight; what follows the dot, or any ninth byte, is the
   * extension.
   */
  lemma ShortNameBytes(s: seq<byte>, k: nat)
    requires k <= |s| && k <= 8 && 0x2E !in s[..k] && (k == |s| || k == 8 || s[k] == 0x2E)
    ensures var b := BasisFromShort(s);
      && |b.primary| == 8 && (forall i :: 0 <= i < 8 ==> b.primary[i] == if i < k then s[i] else 0x20)
      && |b.extension| == 3
      && (forall i :: 0 <= i < 3 ==> b.extension[i] == if k + 1 + i < |s| then s[k + 1 + i] else 0x20)
  {
    hide PrimaryLength;
    assert forall i :: 0 <= i < k ==> s[..k][i] == s[i];
    PrimaryStops(s, k);
  }

  method GenBasisNameFromShort(s: seq<byte>) returns (b: BasisName)
    ensures b == BasisFromShort(s)
  {
    hide PrimaryLength, Spaces;
    b := BasisName(Spaces(8), Spaces(3));
    var i := 0;
    while i < 8 && i < |s| && s[i] != DOT
      invariant i <= 8 && i <= |s| && b == BasisName(Pad(s[..i], 8), Spaces(3))
      invariant forall j :: 0 <= j < i ==> s[j] != DOT
    {
      b := b.(primary := b.primary[i := s[i]]);
      i := i + 1;
    }
    if i >= |s| {
      return;
    }

    ghost var k := i;
    var j := 0;
    i := i + 1;
    while j < 3 && i < |s|
      invariant j <= 3 && i == k + 1 + j && i <= |s| && b == BasisName(Pad(s[..k], 8), Pad(s[k + 1..i], 3))
    {
      b := b.(extension := b.extension[j := s[i]]);
      i, j := i + 1, j + 1;
    }
  }

  // ----- round trip -----

  /** Spaces only at the end. */
  predicate SpacesTrail(s: seq<byte>) {
    forall i, j :: 0 <= i < j < |s| && s[i] == SPACE ==> s[j] == SPACE
  }

  lemma TrailingIff(s: seq<byte>)
    ensures Pad(UpToSpace(s), |s|) == s <==> SpacesTrail(s)
  {
  }

  /** What a short name must look like for its bytes to survive reading and encoding. */
  predicate Codable(b: BasisName)
    requires ValidBasis(b)
  {
    SpacesTrail(b.primary) && SpacesTrail(b.extension) && DOT !in b.primary && b.primary[0] != 0x05
  }

  /** Encoding the dotted name that an entry reads as gives the entry's bytes exactly for codable names. */
  lemma ShortNameRoundTripIff(b: BasisName)
    requires ValidBasis(b)
    ensures BasisFromShort(DottedName(b)) == b <==> Codable(b)
    ensures |DottedName(b)| <= 12
  {
    hide FirstSpace, PrimaryLength, UpToSpace, Pad, Unescape, BasisFromShort, SpacesTrail;
    TrailingIff(b.primary);
    TrailingIff(b.extension);
    DottedIsShort(b);
    var p := UpToSpace(b.primary);
    if DOT !in p {
      EncodesParts(b);
      UnescapeChanges(p, b.primary);
      UpToSpaceKeeps(b.primary);
    } else {
      DotCutsPrimary(b, p, DottedName(b));
      DotStays(b.primary);
    }
  }

  lemma DottedIsShort(b: BasisName)
    requires ValidBasis(b)
    ensures |DottedName(b)| <= 12
  {
    hide FirstSpace;
  }

  /** Only spaces follow a name that is padded to its whole. */
  lemma UpToSpaceKeeps(whole: seq<byte>)
    ensures |UpToSpace(whole)| <= |whole|
    ensures Pad(UpToSpace(whole), |whole|) == whole && DOT !in UpToSpace(whole) ==> DOT !in whole
  {
    hide FirstSpace;
  }

  lemma DotStays(whole: seq<byte>)
    ensures DOT in UpToSpace(whole) ==> DOT in whole
  {
    hide FirstSpace;
  }

  /** Encoding a dotted name without a dot in its first part pads the two parts. */
  lemma EncodesParts(b: BasisName)
    requires ValidBasis(b) && DOT !in UpToSpace(b.primary)
    ensures |UpToSpace(b.primary)| <= 8 && |UpToSpace(b.extension)| <= 3
    ensures BasisFromShort(DottedName(b)) == BasisName(Pad(Unescape(UpToSpace(b.primary)), 8),
      Pad(UpToSpace(b.extension), 3))
  {
    hide FirstSpace, PrimaryLength;
    var p, x, s := UpToSpace(b.primary), UpToSpace(b.extension), DottedName(b);
    PrimaryStops(s, |p|);
    assert s[..|p|] == Unescape(p);
    if x != [] {
      assert s[|p| + 1..Min(|p| + 4, |s|)] == x;
    }
  }

  lemma UnescapeChanges(p: seq<byte>, whole: seq<byte>)
    requires |whole| == 8 && p == UpToSpace(whole)
    ensures Pad(Unescape(p), 8) == whole <==> Pad(p, 8) == whole && whole[0] != 0x05
  {
  }

  lemma DotCutsPrimary(b: BasisName, p: seq<byte>, s: seq<byte>)
    requires ValidBasis(b) && p == UpToSpace(b.primary) && DOT in p && s == DottedName(b)
    ensures BasisFromShort(s) != b
  {
    hide FirstSpace, PrimaryLength;
    var k := PrimaryLength(s);
    var d :| 0 <= d < |p| && p[d] == DOT;
    assert Unescape(p)[d] == DOT && s[d] == DOT;
  }

  // ----- from a long name -----

  const INVALID_SHORT: seq<byte> :=
    [0x22, 0x2A, 0x2B, 0x2C, 0x2E, 0x2F, 0x3A, 0x3B, 0x3C, 0x3D, 0x3E, 0x3F, 0x5B, 0x5C, 0x5D, 0x7C]

  predicate IsInvalidShort(c: byte) {
    (c < 0x20 && c != 0x05) || c in INVALID_SHORT
  }

  function Sanitized(c: byte): byte {
    if IsInvalidShort(c) then 0x5F else c
  }

  function SanitizedAll(s: seq<byte>): (r: seq<byte>)
    ensures |r| == |s| && forall i :: 0 <= i < |r| ==> r[i] == Sanitized(s[i])
  {
    seq(|s|, i requires 0 <= i < |s| => Sanitized(s[i]))
  }

  /** Where the extension of a name starts: after its last dot. */
  function ExtensionStart(s: seq<byte>): (k: nat)
    ensures k <= |s| + 1 && (k <= |s| ==> k > 0 && s[k - 1] == DOT)
    ensures forall i :: k <= i < |s| ==> s[i] != DOT
    ensures k == |s| + 1 ==> DOT !in s
  {
    if s == [] then 1
    else if s[|s| - 1] == DOT then |s|
    else
      var k := ExtensionStart(s[..|s| - 1]);
      if k == |s| then |s| + 1 else k
  }

  /** The short name made from the upper-cased and stripped GBK form of a long name. */
  function BasisFromLong(s: seq<byte>): (b: BasisName)
    ensures ValidBasis(b)
  {
    var k, x := PrimaryLength(s), ExtensionStart(s);
    BasisName(
      Pad(SanitizedAll(s[..k]), 8),
      if x >= |s| then Spaces(3) else Pad(SanitizedAll(s[x..Min(x + 3, |s|)]), 3))
  }

  /** Control bytes but 0x05, and the sixteen bytes of the list, become underscores. */
  lemma SanitizedIff(c: byte)
    ensures Sanitized(c) ==
            if (c < 0x20 && c != 0x05) || c == 0x22 || 0x2A <= c <= 0x2C || 0x2E <= c <= 0x2F || 0x3A <= c <= 0x3F ||
               0x5B <= c <= 0x5D || c == 0x7C
            then 0x5F else c
  {
  }

  /**
   * The primary part is cut at the `first` dot and after eight bytes; the extension holds up to three bytes past the
   * `last` dot. Without a dot both stand at the end of the name.
   */
  lemma MadeNameBytes(s: seq<byte>, first: nat, last: nat)
    requires first <= |s| && 0x2E !in s[..first] && (first < |s| ==> s[first] == 0x2E)
    requires last <= |s| && (if last < |s| then s[last] == 0x2E && 0x2E !in s[last + 1..] else 0x2E !in s)
    ensures var b := BasisFromLong(s);
      && |b.primary| == 8 && (forall i :: 0 <= i < 8 ==> b.primary[i] == if i < first then Sanitized(s[i]) else 0x20)
      && |b.extension| == 3
      && (forall i :: 0 <= i < 3 ==>
        b.extension[i] == if last + 1 + i < |s| then Sanitized(s[last + 1 + i]) else 0x20)
  {
    hide PrimaryLength, ExtensionStart, IsInvalidShort;
    assert forall i :: 0 <= i < first ==> s[..first][i] == s[i];
    assert forall i :: last < i < |s| ==> s[last + 1..][i - last - 1] == s[i];
    PrimaryStops(s, Min(first, 8));
    ExtensionStarts(s, last);
  }

  /** "README.TXT" is stored in its eleven bytes. */
  lemma MadeNameExample()
    ensures BytesOf(BasisFromLong([0x52, 0x45, 0x41, 0x44, 0x4D, 0x45, 0x2E, 0x54, 0x58, 0x54])) == README
  {
    hide BasisFromLong;
    MadeNameBytes([0x52, 0x45, 0x41, 0x44, 0x4D, 0x45, 0x2E, 0x54, 0x58, 0x54], 6, 6);
  }

  /** Of "A+B.TAR.GZ" the first and the last part are stored. */
  lemma TwoDotsExample()
    ensures BytesOf(BasisFromLong([0x41, 0x2B, 0x42, 0x2E, 0x54, 0x41, 0x52, 0x2E, 0x47, 0x5A])) ==
            [0x41, 0x5F, 0x42, 0x20, 0x20, 0x20, 0x20, 0x20, 0x47, 0x5A, 0x20]
  {
    hide BasisFromLong;
    MadeNameBytes([0x41, 0x2B, 0x42, 0x2E, 0x54, 0x41, 0x52, 0x2E, 0x47, 0x5A], 3, 7);
  }

  method GenBasisNameFromLong(s: seq<byte>) returns (b: BasisName)
    ensures b == BasisFromLong(s)
  {
    hide PrimaryLength, ExtensionStart, IsInvalidShort;
    b := BasisName(Spaces(8), Spaces(3));
    var i := 0;
    while i < 8 && i < |s| && s[i] != DOT
      invariant i <= 8 && i <= |s| && b == BasisName(Pad(SanitizedAll(s[..i]), 8), Spaces(3))
      invariant forall j :: 0 <= j < i ==> s[j] != DOT
    {
      b := b.(primary := b.primary[i := if IsInvalidShort(s[i]) then 0x5F else s[i]]);
      i := i + 1;
    }
    PrimaryStops(s, i);
    var x := ExtensionFromLong(s);
    b := b.(extension := x);
  }

  /** The second half of `genBasisNameFromLong`. */
  method ExtensionFromLong(s: seq<byte>) returns (x: seq<byte>)
    ensures x == BasisFromLong(s).extension
  {
    hide PrimaryLength, ExtensionStart, IsInvalidShort;
    var lastDot := |s|;
    var j: int := |s| - 1;
    while j >= 0
      invariant -1 <= j < |s| && lastDot == |s| && forall k :: j < k < |s| ==> s[k] != DOT
      decreases j
    {
      if s[j] == DOT {
        lastDot := j;
        break;
      }
      j := j - 1;
    }
    ExtensionStarts(s, lastDot);
    x := Spaces(3);
    var n, cnt := lastDot + 1, 0;
    while cnt < 3 && n < |s|
      invariant cnt <= 3 && n == lastDot + 1 + cnt && (n <= |s| || cnt == 0)
      invariant x == if cnt == 0 then Spaces(3) else Pad(SanitizedAll(s[lastDot + 1..n]), 3)
    {
      x := x[cnt := if IsInvalidShort(s[n]) then 0x5F else s[n]];
      n, cnt := n + 1, cnt + 1;
    }
  }

  lemma ExtensionStarts(s: seq<byte>, lastDot: nat)
    requires lastDot <= |s| && (lastDot < |s| ==> s[lastDot] == DOT)
    requires forall k :: lastDot < k < |s| ==> s[k] != DOT
    requires lastDot == |s| ==> DOT !in s
    ensures ExtensionStart(s) == lastDot + 1
  {
    hide ExtensionStart;
  }

  /**
   * A short name made from a long one reads and encodes back to itself exactly when it has no space
   * before its padding and does not start with 0x05.
   */
  lemma MadeNameRoundTripIff(s: seq<byte>)
    ensures var b := BasisFromLong(s);
      BasisFromShort(DottedName(b)) == b <==>
      SpacesTrail(b.primary) && SpacesTrail(b.extension) && b.primary[0] != 0x05
  {
    hide PrimaryLength, ExtensionStart, IsInvalidShort;
    var b := BasisFromLong(s);
    ShortNameRoundTripIff(b);
    NoDotMade(s);
  }

  lemma NoDotMade(s: seq<byte>)
    ensures DOT !in BasisFromLong(s).primary
    ensures BasisFromLong(s).primary[0] != 0x00
  {
    hide PrimaryLength, IsInvalidShort, ExtensionStart;
    forall i | 0 <= i < |s| ensures Sanitized(s[i]) !in {DOT, 0x00} {
      SanitizedIff(s[i]);
    }
  }

  /** "A B": the short entry reads as "A", whose checksum is not the one stored in the long entries. */
  lemma InnerSpaceExample()
    ensures var b := BasisFromLong([0x41, 0x20, 0x42]);
      && b == BasisName([0x41, 0x20, 0x42, 0x20, 0x20, 0x20, 0x20, 0x20], Spaces(3))
      && DottedName(b) == [0x41]
      && Sum(BytesOf(BasisFromShort(DottedName(b)))) != Sum(BytesOf(b))
  {
    hide FirstSpace, PrimaryLength, ExtensionStart, Sum;
    var s: seq<byte> := [0x41, 0x20, 0x42];
    var b := BasisName([0x41, 0x20, 0x42, 0x20, 0x20, 0x20, 0x20, 0x20], Spaces(3));
    ExtensionStarts(s, 3);
    assert SanitizedAll(s[..3]) == s;
    assert BasisFromLong(s) == b;
    SpaceIsFirst(b.primary, 1);
    SpaceIsFirst(b.extension, 0);
    assert DottedName(b) == [0x41];
    SumSeesOneByte(BytesOf(BasisFromShort([0x41])), BytesOf(b), 2);
  }
}
