/** Splitting an object of `fileSize` bytes into numbered parts: the part size,
    the number of parts, and the byte range each part covers. */
module PartPlanner {

  const MiB: nat := 1024 * 1024
  /** Smallest part size the uploader chooses. */
  const MinPartSize: nat := 5 * MiB
  /** Largest part size the uploader chooses. */
  const MaxPartSize: nat := 100 * MiB
  /** The part count the uploader aims to stay within (the service's maximum). */
  const MaxParts: nat := 10000

  function Min(a: int, b: int): int { if a <= b then a else b }
  function Max(a: int, b: int): int { if a >= b then a else b }

  /** Integer ceiling of `a / b`: the value `Math.ceil(a / b)` takes on
      non-negative integers. */
  function CeilDiv(a: nat, b: nat): nat
    requires b > 0
  {
    (a + b - 1) / b
  }

  /** `CeilDiv(a, b)` is the least count of `b`-sized pieces that hold `a`. */
  lemma CeilDivIsCeiling(a: nat, b: nat)
    requires b > 0
    ensures CeilDiv(a, b) * b >= a
    ensures CeilDiv(a, b) == 0 || (CeilDiv(a, b) - 1) * b < a
  {
    var q := (a + b - 1) / b;
    var r := (a + b - 1) % b;
    assert q * b + r == a + b - 1;
  }

  /** The size of every part but the last. */
  function PartSize(fileSize: nat): (ps: nat)
    ensures MinPartSize <= ps <= MaxPartSize
  {
    var wanted := Max(MinPartSize, CeilDiv(fileSize, MaxParts));
    Min(wanted, MaxPartSize)
  }

  /** Unless capped at the maximum, the part size is the least size at or
      above the minimum with which MaxParts parts hold the whole file. */
  lemma PartSizeIsLeastSufficient(fileSize: nat)
    ensures PartSize(fileSize) == MaxPartSize || fileSize <= PartSize(fileSize) * MaxParts
    ensures PartSize(fileSize) == MinPartSize || (PartSize(fileSize) - 1) * MaxParts < fileSize
  {
    CeilDivIsCeiling(fileSize, MaxParts);
  }

  /** How many parts the file is cut into. A zero-byte file has none: the
      upload loop never runs. */
  function NumberOfParts(fileSize: nat): (n: nat)
    ensures n == 0 <==> fileSize == 0
  {
    CeilDivIsCeiling(fileSize, PartSize(fileSize));
    CeilDiv(fileSize, PartSize(fileSize))
  }

  /** The part count is the least count of part-size pieces that hold the file. */
  lemma NumberOfPartsIsCeiling(fileSize: nat)
    ensures NumberOfParts(fileSize) * PartSize(fileSize) >= fileSize
    ensures NumberOfParts(fileSize) == 0 || (NumberOfParts(fileSize) - 1) * PartSize(fileSize) < fileSize
  {
    CeilDivIsCeiling(fileSize, PartSize(fileSize));
  }

  /** Part `partNumber` (numbered from 1) covers bytes `start <= b < end`. */
  datatype PartRange = PartRange(partNumber: nat, start: nat, end: nat) {
    predicate Contains(b: int) { start <= b < end }
  }

  /** The window handed to the file reader: both bounds inclusive. */
  datatype ReadWindow = ReadWindow(first: nat, last: int) {
    predicate Contains(b: int) { first <= b <= last }
  }

  lemma MulMonotone(a: int, b: int, c: nat)
    requires a <= b
    ensures a * c <= b * c
  {
    assert (b - a) * c >= 0;
  }

  lemma MulCancelLess(a: int, b: int, c: nat)
    requires a * c < b * c
    ensures a < b
  {
    if a >= b {
      MulMonotone(b, a, c);
    }
  }

  /** The byte range of one part, as the upload loop computes it. */
  function RangeOf(fileSize: nat, partNumber: nat): (r: PartRange)
    requires 1 <= partNumber <= NumberOfParts(fileSize)
    ensures r.partNumber == partNumber
    ensures r.start == (partNumber - 1) * PartSize(fileSize)
    ensures r.start < r.end <= fileSize
    ensures r.end - r.start <= PartSize(fileSize)
    ensures partNumber < NumberOfParts(fileSize) ==> r.end - r.start == PartSize(fileSize)
    ensures partNumber == NumberOfParts(fileSize) ==> r.end == fileSize
  {
    var ps := PartSize(fileSize);
    var n := NumberOfParts(fileSize);
    NumberOfPartsIsCeiling(fileSize);
    StrideInside(fileSize, ps, n, partNumber);
    var start := (partNumber - 1) * ps;
    PartRange(partNumber, start, Min(start + ps, fileSize))
  }

  /** With `n` parts of size `ps` holding `size` bytes and no fewer doing so,
      part `p` starts inside, and every part before the last ends inside. */
  lemma StrideInside(size: nat, ps: nat, n: nat, p: nat)
    requires n * ps >= size && (n - 1) * ps < size
    requires 1 <= p <= n
    ensures 0 <= (p - 1) * ps < size
    ensures p < n ==> p * ps < size
  {
    MulMonotone(0, p - 1, ps);
    MulMonotone(p - 1, n - 1, ps);
    if p < n {
      MulMonotone(p, n - 1, ps);
    }
  }

  /** The reader window for a part: its last byte is `end - 1`, inclusive. */
  function WindowOf(r: PartRange): (w: ReadWindow)
    requires r.start < r.end
    ensures w.first <= w.last
    ensures forall b :: w.Contains(b) <==> r.Contains(b)
  {
    ReadWindow(r.start, r.end - 1)
  }

  /** `parts` cuts `[0, size)` into consecutive non-empty ranges numbered
      1, 2, ..., all but the last exactly `partSize` long. */
  ghost predicate Tiles(parts: seq<PartRange>, size: nat, partSize: nat) {
    && (forall i :: 0 <= i < |parts| ==> parts[i].partNumber == i + 1)
    && (forall i :: 0 <= i < |parts| ==> parts[i].start < parts[i].end)
    && (|parts| == 0 ==> size == 0)
    && (|parts| > 0 ==> parts[0].start == 0 && parts[|parts| - 1].end == size)
    && (forall i, j :: 0 <= i && j == i + 1 && j < |parts| ==> parts[i].end == parts[j].start)
    && (forall i :: 0 <= i < |parts| - 1 ==> parts[i].end - parts[i].start == partSize)
    && (|parts| > 0 ==> parts[|parts| - 1].end - parts[|parts| - 1].start <= partSize)
  }

  /** The parts of a file, in part-number order. */
  function Plan(fileSize: nat): (parts: seq<PartRange>)
    ensures |parts| == NumberOfParts(fileSize)
    ensures Tiles(parts, fileSize, PartSize(fileSize))
  {
    var n := NumberOfParts(fileSize);
    var parts := seq(n, i requires 0 <= i < n => RangeOf(fileSize, i + 1));
    RangesTile(fileSize, parts);
    parts
  }

  lemma RangesTile(fileSize: nat, parts: seq<PartRange>)
    requires |parts| == NumberOfParts(fileSize)
    requires forall i :: 0 <= i < |parts| ==> parts[i] == RangeOf(fileSize, i + 1)
    ensures Tiles(parts, fileSize, PartSize(fileSize))
  {
    var ps := PartSize(fileSize);
    forall i, j | 0 <= i && j == i + 1 && j < |parts|
      ensures parts[i].end == parts[j].start
    {
      assert parts[i] == RangeOf(fileSize, i + 1);
      assert parts[j] == RangeOf(fileSize, i + 2);
    }
    forall i | 0 <= i < |parts| - 1
      ensures parts[i].end - parts[i].start == ps
    {
      assert parts[i] == RangeOf(fileSize, i + 1);
    }
    if |parts| > 0 {
      assert parts[0] == RangeOf(fileSize, 1);
      assert parts[|parts| - 1] == RangeOf(fileSize, |parts|);
    } else {
      assert NumberOfParts(fileSize) == 0;
    }
  }

  /** Byte `b` lies in some part of `parts`. */
  ghost predicate Covered(parts: seq<PartRange>, b: int) {
    exists i :: 0 <= i < |parts| && parts[i].Contains(b)
  }

  function SumLengths(parts: seq<PartRange>): int {
    if |parts| == 0 then 0
    else SumLengths(parts[..|parts| - 1]) + (parts[|parts| - 1].end - parts[|parts| - 1].start)
  }

  /** In a tiling, an earlier part ends no later than a later one starts. */
  lemma {:induction false} TilesOrdered(parts: seq<PartRange>, size: nat, partSize: nat, i: nat, j: nat)
    requires Tiles(parts, size, partSize)
    requires i < j < |parts|
    ensures parts[i].end <= parts[j].start
    decreases j - i
  {
    if j > i + 1 {
      TilesOrdered(parts, size, partSize, i, j - 1);
      assert parts[j - 1].end == parts[j].start;
    } else {
      assert parts[i].end == parts[j].start;
    }
  }

  /** No byte belongs to two different parts of a tiling. */
  lemma TilesDisjoint(parts: seq<PartRange>, size: nat, partSize: nat, i: nat, j: nat, b: int)
    requires Tiles(parts, size, partSize)
    requires i < |parts| && j < |parts| && i != j
    ensures !(parts[i].Contains(b) && parts[j].Contains(b))
  {
    if i < j {
      TilesOrdered(parts, size, partSize, i, j);
    } else {
      TilesOrdered(parts, size, partSize, j, i);
    }
  }

  lemma {:induction false} CoverPrefix(parts: seq<PartRange>, size: nat, partSize: nat, k: nat, b: int)
    requires Tiles(parts, size, partSize)
    requires 1 <= k <= |parts|
    requires 0 <= b < parts[k - 1].end
    ensures exists i :: 0 <= i < k && parts[i].Contains(b)
  {
    if b >= parts[k - 1].start {
      assert parts[k - 1].Contains(b);
    } else {
      assert k > 1;
      assert parts[k - 2].end == parts[k - 1].start;
      CoverPrefix(parts, size, partSize, k - 1, b);
    }
  }

  /** A tiling covers exactly the bytes `0 <= b < size`. */
  lemma TilesCover(parts: seq<PartRange>, size: nat, partSize: nat)
    requires Tiles(parts, size, partSize)
    ensures forall b :: 0 <= b < size <==> Covered(parts, b)
  {
    forall b | 0 <= b < size
      ensures Covered(parts, b)
    {
      CoverPrefix(parts, size, partSize, |parts|, b);
    }
    forall b | Covered(parts, b)
      ensures 0 <= b < size
    {
      var i :| 0 <= i < |parts| && parts[i].Contains(b);
      if i < |parts| - 1 {
        TilesOrdered(parts, size, partSize, i, |parts| - 1);
      }
    }
  }

  lemma {:induction false} SumLengthsPrefix(parts: seq<PartRange>, size: nat, partSize: nat, k: nat)
    requires Tiles(parts, size, partSize)
    requires 1 <= k <= |parts|
    ensures SumLengths(parts[..k]) == parts[k - 1].end
  {
    var p := parts[..k];
    assert p[..k - 1] == parts[..k - 1];
    if k > 1 {
      SumLengthsPrefix(parts, size, partSize, k - 1);
      assert parts[k - 2].end == parts[k - 1].start;
    } else {
      assert p[..0] == [];
    }
  }

  /** The lengths of the parts of a tiling add up to the size it tiles. */
  lemma TilesLengthsSum(parts: seq<PartRange>, size: nat, partSize: nat)
    requires Tiles(parts, size, partSize)
    ensures SumLengths(parts) == size
  {
    if |parts| > 0 {
      SumLengthsPrefix(parts, size, partSize, |parts|);
      assert parts[..|parts|] == parts;
    }
  }

  /** The plan's parts cover exactly the bytes of the file, each byte once, and
      their lengths add up to the file size. */
  lemma PlanCoversFileOnce(fileSize: nat)
    ensures forall b :: 0 <= b < fileSize <==> Covered(Plan(fileSize), b)
    ensures forall i, j, b :: 0 <= i < j < |Plan(fileSize)| && Plan(fileSize)[i].Contains(b)
              ==> !Plan(fileSize)[j].Contains(b)
    ensures SumLengths(Plan(fileSize)) == fileSize
  {
    var parts := Plan(fileSize);
    var ps := PartSize(fileSize);
    TilesCover(parts, fileSize, ps);
    TilesLengthsSum(parts, fileSize, ps);
    forall i, j, b | 0 <= i < j < |parts| && parts[i].Contains(b)
      ensures !parts[j].Contains(b)
    {
      TilesDisjoint(parts, fileSize, ps, i, j, b);
    }
  }

  /** Any file of 1 byte up to the minimum part size is one part. */
  lemma SmallFileSinglePart(fileSize: nat)
    requires 0 < fileSize <= MinPartSize
    ensures NumberOfParts(fileSize) == 1
    ensures Plan(fileSize) == [PartRange(1, 0, fileSize)]
  {
    var n := NumberOfParts(fileSize);
    var ps := PartSize(fileSize);
    NumberOfPartsIsCeiling(fileSize);
    PartSizeIsLeastSufficient(fileSize);
    assert ps == MinPartSize;
    MulCancelLess(n - 1, 1, ps);
  }

  /** Files up to MaxParts parts of the largest size stay within MaxParts parts. */
  lemma PartCountWithinLimit(fileSize: nat)
    requires fileSize <= MaxParts * MaxPartSize
    ensures NumberOfParts(fileSize) <= MaxParts
  {
    var n := NumberOfParts(fileSize);
    var ps := PartSize(fileSize);
    NumberOfPartsIsCeiling(fileSize);
    PartSizeIsLeastSufficient(fileSize);
    if n > 0 {
      if ps == MaxPartSize {
        MulCancelLess(n - 1, MaxParts, ps);
      } else {
        assert fileSize <= ps * MaxParts;
        MulCancelLess(n - 1, MaxParts, ps);
      }
    }
  }

  /** One byte beyond that, the count exceeds MaxParts: nothing caps it. */
  lemma PartCountExceedsLimitPastCap()
    ensures NumberOfParts(MaxParts * MaxPartSize + 1) == MaxParts + 1
  {
    var f := MaxParts * MaxPartSize + 1;
    assert PartSize(f) == MaxPartSize;
    var n := NumberOfParts(f);
    NumberOfPartsIsCeiling(f);
    if n <= MaxParts {
      MulMonotone(n, MaxParts, MaxPartSize);
    } else if n > MaxParts + 1 {
      MulMonotone(MaxParts + 1, n - 1, MaxPartSize);
    }
  }

  /** Worked example: a 60 MiB file is twelve parts of exactly 5 MiB. */
  lemma SixtyMiBFile()
    ensures NumberOfParts(60 * MiB) == 12
    ensures forall i :: 0 <= i < 12 ==> Plan(60 * MiB)[i].end - Plan(60 * MiB)[i].start == 5 * MiB
  {
    assert PartSize(60 * MiB) == MinPartSize;
  }

  /** Worked example: a 12 MiB file is three parts, the last of 2 MiB. */
  lemma TwelveMiBFile()
    ensures NumberOfParts(12 * MiB) == 3
    ensures Plan(12 * MiB)[2] == PartRange(3, 10 * MiB, 12 * MiB)
  {
    assert PartSize(12 * MiB) == MinPartSize;
  }
}
