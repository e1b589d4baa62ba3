/** The completion manifest: one entry per uploaded part, pushed in the order
    the part uploads settle and sorted by part number before completion. */
module Manifest {

  /** Opaque entity tag the service returns for an uploaded part. */
  type ETag = string

  /** One manifest entry: the entity tag the service returned for a part,
      paired with that part's number. */
  datatype CompletedPart = CompletedPart(etag: ETag, partNumber: nat)

  ghost predicate SortedInts(s: seq<nat>) {
    forall i, j :: 0 <= i < j < |s| ==> s[i] <= s[j]
  }

  /** The part numbers of a manifest, in manifest order. */
  function PartNumbers(m: seq<CompletedPart>): seq<nat> {
    seq(|m|, i requires 0 <= i < |m| => m[i].partNumber)
  }

  /** Ascending by part number (ties allowed). */
  ghost predicate SortedByPartNumber(m: seq<CompletedPart>) {
    SortedInts(PartNumbers(m))
  }

  /** Sortedness read entry by entry. */
  lemma SortedByPartNumberEntries(m: seq<CompletedPart>)
    ensures SortedByPartNumber(m) <==>
              forall i, j :: 0 <= i < j < |m| ==> m[i].partNumber <= m[j].partNumber
  {
    var ns := PartNumbers(m);
    assert forall i :: 0 <= i < |m| ==> ns[i] == m[i].partNumber;
  }

  /** The part numbers 1, 2, ..., n. */
  function Consecutive(n: nat): seq<nat> {
    seq(n, i requires 0 <= i < n => i + 1)
  }

  /** Places `x` before the first entry whose part number is not smaller. */
  function Insert(x: CompletedPart, m: seq<CompletedPart>): (r: seq<CompletedPart>)
    requires SortedByPartNumber(m)
    ensures SortedByPartNumber(r)
    ensures multiset(r) == multiset(m) + multiset{x}
    ensures multiset(PartNumbers(r)) == multiset(PartNumbers(m)) + multiset{x.partNumber}
    ensures |r| == |m| + 1
  {
    if |m| == 0 then
      [x]
    else if x.partNumber <= m[0].partNumber then
      var r := [x] + m;
      assert PartNumbers(r) == [x.partNumber] + PartNumbers(m);
      SortedByPartNumberEntries(m);
      SortedByPartNumberEntries(r);
      r
    else
      assert PartNumbers(m[1..]) == PartNumbers(m)[1..];
      var rest := Insert(x, m[1..]);
      InsertBehindHead(x, m, rest);
      [m[0]] + rest
  }

  /** Putting the head of `m` back in front of `x` inserted into its tail
      keeps order and contents. */
  lemma InsertBehindHead(x: CompletedPart, m: seq<CompletedPart>, rest: seq<CompletedPart>)
    requires SortedByPartNumber(m) && |m| > 0 && x.partNumber > m[0].partNumber
    requires SortedByPartNumber(rest)
    requires multiset(rest) == multiset(m[1..]) + multiset{x}
    requires multiset(PartNumbers(rest)) == multiset(PartNumbers(m[1..])) + multiset{x.partNumber}
    ensures SortedByPartNumber([m[0]] + rest)
    ensures multiset([m[0]] + rest) == multiset(m) + multiset{x}
    ensures multiset(PartNumbers([m[0]] + rest)) == multiset(PartNumbers(m)) + multiset{x.partNumber}
  {
    HeadBelowRest(x, m, rest);
    assert m == [m[0]] + m[1..];
    assert PartNumbers(m) == [m[0].partNumber] + PartNumbers(m[1..]);
    assert PartNumbers([m[0]] + rest) == [m[0].partNumber] + PartNumbers(rest);
  }

  lemma HeadBelowRest(x: CompletedPart, m: seq<CompletedPart>, rest: seq<CompletedPart>)
    requires SortedByPartNumber(m) && |m| > 0 && x.partNumber > m[0].partNumber
    requires SortedByPartNumber(rest)
    requires multiset(rest) == multiset(m[1..]) + multiset{x}
    ensures SortedByPartNumber([m[0]] + rest)
  {
    var r := [m[0]] + rest;
    SortedByPartNumberEntries(m);
    SortedByPartNumberEntries(rest);
    SortedByPartNumberEntries(r);
    forall j | 0 <= j < |rest|
      ensures m[0].partNumber <= rest[j].partNumber
    {
      assert rest[j] in multiset(rest);
      if rest[j] != x {
        assert rest[j] in multiset(m[1..]);
        var k :| 0 <= k < |m[1..]| && m[1..][k] == rest[j];
        assert m[k + 1] == rest[j];
      }
    }
    forall i, j | 0 <= i < j < |r|
      ensures r[i].partNumber <= r[j].partNumber
    {
      assert r[j] == rest[j - 1];
      if i > 0 {
        assert r[i] == rest[i - 1];
      }
    }
  }

  /** The sort applied to the collected entries before completion: ascending
      by part number. */
  function SortByPartNumber(m: seq<CompletedPart>): (r: seq<CompletedPart>)
    ensures SortedByPartNumber(r)
    ensures multiset(r) == multiset(m)
    ensures multiset(PartNumbers(r)) == multiset(PartNumbers(m))
    ensures |r| == |m|
  {
    if |m| == 0 then
      []
    else
      assert m == [m[0]] + m[1..];
      assert PartNumbers(m) == [m[0].partNumber] + PartNumbers(m[1..]);
      Insert(m[0], SortByPartNumber(m[1..]))
  }

  /** The least element of a sorted sequence comes first. */
  lemma SortedHeadIsLeast(s: seq<nat>, x: nat)
    requires SortedInts(s) && x in multiset(s)
    ensures s[0] <= x
  {
    var k :| 0 <= k < |s| && s[k] == x;
  }

  /** Two sorted sequences holding the same multiset are equal. */
  lemma {:induction false} SortedUnique(a: seq<nat>, b: seq<nat>)
    requires SortedInts(a) && SortedInts(b)
    requires multiset(a) == multiset(b)
    ensures a == b
    decreases |a|
  {
    if |a| > 0 {
      assert |b| == |multiset(b)| == |a|;
      assert a[0] in multiset(b);
      assert b[0] in multiset(a);
      SortedHeadIsLeast(b, a[0]);
      SortedHeadIsLeast(a, b[0]);
      assert a[0] == b[0];
      assert a == [a[0]] + a[1..];
      assert b == [b[0]] + b[1..];
      assert multiset(a[1..]) == multiset(a) - multiset{a[0]};
      assert multiset(b[1..]) == multiset(b) - multiset{b[0]};
      SortedUnique(a[1..], b[1..]);
    } else {
      assert |b| == |multiset(b)| == 0;
    }
  }

  /** Sorting a manifest whose part numbers are some arrival order of
      1, ..., n puts part i + 1 at position i, whatever that order was. */
  lemma SortedManifestIsConsecutive(m: seq<CompletedPart>, n: nat)
    requires multiset(PartNumbers(m)) == multiset(Consecutive(n))
    ensures PartNumbers(SortByPartNumber(m)) == Consecutive(n)
  {
    var r := SortByPartNumber(m);
    SortedUnique(PartNumbers(r), Consecutive(n));
  }
}
