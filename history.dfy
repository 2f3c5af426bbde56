/** The release history of one package: the registry document's versions
    that have at least one artifact, each timestamped by its first artifact,
    sorted as (timestamp, version) tuples. */
module History {
  import opened Timestamps
  import opened VersionOrder
  import opened Sequences

  /** One key of the document's "releases" object: a version string and the
      upload times of its artifacts, in the order the registry lists them. */
  datatype Entry = Entry(version: string, uploads: seq<DateTime>)

  /** The decoded "releases" object, keys in document order. */
  type Document = seq<Entry>

  /** A JSON object read into a dictionary holds each key once. */
  predicate UniqueVersions(doc: Document) {
    forall i, j :: 0 <= i < j < |doc| ==> doc[i].version != doc[j].version
  }

  /** A (timestamp, version) pair of the history. */
  datatype Release = Release(uploaded: DateTime, version: string)

  /** A version counts only when its artifact list is non-empty. */
  predicate Eligible(e: Entry) {
    e.uploads != []
  }

  /** The pair for an eligible version: its first artifact's upload time. */
  function ReleaseOf(e: Entry): Release
    requires Eligible(e)
  {
    Release(e.uploads[0], e.version)
  }

  /** What one entry contributes: its pair when it is eligible, nothing
      otherwise. */
  function PairOf(e: Entry): seq<Release> {
    if Eligible(e) then [ReleaseOf(e)] else []
  }

  /** The filter over the keys and the zip of first-artifact times with
      versions, in document order, before sorting. */
  function Pairs(doc: Document): seq<Release> {
    FlatMap(doc, PairOf)
  }

  /** The pairs are exactly those of the eligible entries. */
  lemma {:induction false} PairsMembership(doc: Document, r: Release)
    ensures r in Pairs(doc) <==> exists i :: 0 <= i < |doc| && Eligible(doc[i]) && r == ReleaseOf(doc[i])
  {
    FlatMapMembership(doc, PairOf, r);
  }

  /** Reordering the document's keys reorders the pairs and nothing else. */
  lemma {:induction false} PairsPermutation(a: Document, b: Document)
    requires multiset(a) == multiset(b)
    ensures multiset(Pairs(a)) == multiset(Pairs(b))
  {
    FlatMapPermutation(a, b, PairOf);
  }

  /** Python's `<` on (datetime, str) tuples. */
  predicate Less(a: Release, b: Release) {
    Before(a.uploaded, b.uploaded) || (a.uploaded == b.uploaded && StrLess(a.version, b.version))
  }

  /** `Less` is a strict total order on pairs. */
  lemma {:induction false} LessIsStrictTotalOrder(a: Release, b: Release, c: Release)
    ensures !Less(a, a)
    ensures Less(a, b) ==> !Less(b, a)
    ensures Less(a, b) && Less(b, c) ==> Less(a, c)
    ensures a == b || Less(a, b) || Less(b, a)
  {
    BeforeIsStrictTotalOrder(a.uploaded, b.uploaded, c.uploaded);
    StrLessIrreflexive(a.version);
    StrLessTotal(a.version, b.version);
    if StrLess(a.version, b.version) {
      StrLessAsymmetric(a.version, b.version);
      if StrLess(b.version, c.version) {
        StrLessTransitive(a.version, b.version, c.version);
      }
    }
  }

  /** Ascending (non-decreasing) tuple order. */
  predicate Sorted(s: seq<Release>) {
    forall i, j {:trigger Less(s[j], s[i])} :: 0 <= i < j < |s| ==> !Less(s[j], s[i])
  }

  /** Places `x` before the first element that is not smaller than it. */
  function Insert(x: Release, s: seq<Release>): (r: seq<Release>)
    ensures multiset(r) == multiset(s) + multiset{x}
  {
    if s == [] || !Less(s[0], x) then [x] + s
    else
      assert s == [s[0]] + s[1..];
      [s[0]] + Insert(x, s[1..])
  }

  lemma {:induction false} InsertSorted(x: Release, s: seq<Release>)
    requires Sorted(s)
    ensures Sorted(Insert(x, s))
  {
    if s == [] || !Less(s[0], x) {
      forall j | 0 <= j < |s|
        ensures !Less(s[j], x)
      {
        LessIsStrictTotalOrder(s[j], x, s[0]);
        LessIsStrictTotalOrder(s[0], x, s[j]);
      }
    } else {
      InsertSorted(x, s[1..]);
      var t := Insert(x, s[1..]);
      assert s == [s[0]] + s[1..];
      forall k | 0 <= k < |t|
        ensures !Less(t[k], s[0])
      {
        assert t[k] in multiset(t);
        if t[k] != x {
          assert t[k] in multiset(s[1..]);
          var i :| 0 <= i < |s[1..]| && s[1..][i] == t[k];
          assert s[i + 1] == t[k];
        } else {
          LessIsStrictTotalOrder(s[0], x, x);
        }
      }
    }
  }

  /** Python's `sorted` on the pairs: an ascending permutation of them. Any
      sorting algorithm gives this same sequence (`SortedPermutationUnique`),
      so insertion sort stands in for the library's merge sort. */
  function SortReleases(s: seq<Release>): (r: seq<Release>)
    ensures Sorted(r)
    ensures multiset(r) == multiset(s)
  {
    if s == [] then []
    else
      var t := SortReleases(s[1..]);
      assert s == [s[0]] + s[1..];
      InsertSorted(s[0], t);
      Insert(s[0], t)
  }

  lemma {:induction false} SortedTail(s: seq<Release>)
    requires Sorted(s) && s != []
    ensures Sorted(s[1..])
  {
    forall i, j | 0 <= i < j < |s[1..]|
      ensures !Less(s[1..][j], s[1..][i])
    {
      assert !Less(s[j + 1], s[i + 1]);
    }
  }

  /** Two ascending arrangements of the same pairs start with the same
      pair. */
  lemma {:induction false} SortedSameHead(a: seq<Release>, b: seq<Release>)
    requires Sorted(a) && Sorted(b) && multiset(a) == multiset(b) && a != []
    ensures b != [] && a[0] == b[0]
  {
    assert |b| == |multiset(b)| == |a|;
    assert a[0] in multiset(b);
    assert b[0] in multiset(a);
    var i :| 0 <= i < |b| && b[i] == a[0];
    var j :| 0 <= j < |a| && a[j] == b[0];
    if i != 0 {
      assert !Less(b[i], b[0]);
    }
    if j != 0 {
      assert !Less(a[j], a[0]);
    }
    LessIsStrictTotalOrder(a[0], b[0], a[0]);
  }

  /** Two ascending arrangements of the same pairs are the same sequence. */
  lemma {:induction false} SortedPermutationUnique(a: seq<Release>, b: seq<Release>)
    requires Sorted(a) && Sorted(b) && multiset(a) == multiset(b)
    ensures a == b
  {
    if a == [] {
      assert |b| == |multiset(b)| == 0;
    } else {
      SortedSameHead(a, b);
      MultisetTail(a, b);
      SortedTail(a);
      SortedTail(b);
      SortedPermutationUnique(a[1..], b[1..]);
      assert a == [a[0]] + a[1..] && b == [b[0]] + b[1..];
    }
  }

  /** `sorted(zip(release_dates, releases))`: the release history. */
  function ReleaseHistory(doc: Document): (h: seq<Release>)
    ensures Sorted(h)
    ensures multiset(h) == multiset(Pairs(doc))
  {
    SortReleases(Pairs(doc))
  }

  /** The history holds exactly the versions with at least one artifact,
      each paired with its first artifact's upload time. */
  lemma {:induction false} HistoryMembership(doc: Document, r: Release)
    ensures r in ReleaseHistory(doc) <==> exists i :: 0 <= i < |doc| && Eligible(doc[i]) && r == ReleaseOf(doc[i])
  {
    var h := ReleaseHistory(doc);
    assert r in h <==> r in multiset(h);
    assert r in Pairs(doc) <==> r in multiset(Pairs(doc));
    PairsMembership(doc, r);
  }

  /** A version whose artifact list is empty never appears in the history. */
  lemma {:induction false} EmptyVersionNotInHistory(doc: Document, i: nat)
    requires UniqueVersions(doc)
    requires i < |doc| && doc[i].uploads == []
    ensures forall r :: r in ReleaseHistory(doc) ==> r.version != doc[i].version
  {
    forall r | r in ReleaseHistory(doc)
      ensures r.version != doc[i].version
    {
      HistoryMembership(doc, r);
    }
  }

  /** The history is empty exactly when no version has an artifact. */
  lemma {:induction false} HistoryEmptyIff(doc: Document)
    ensures ReleaseHistory(doc) == [] <==> forall i :: 0 <= i < |doc| ==> !Eligible(doc[i])
  {
    var h := ReleaseHistory(doc);
    if h != [] {
      HistoryMembership(doc, h[0]);
    } else {
      forall i | 0 <= i < |doc|
        ensures !Eligible(doc[i])
      {
        if Eligible(doc[i]) {
          HistoryMembership(doc, ReleaseOf(doc[i]));
        }
      }
    }
  }

  /** The history does not depend on the order of the document's keys. */
  lemma {:induction false} HistoryIgnoresKeyOrder(a: Document, b: Document)
    requires multiset(a) == multiset(b)
    ensures ReleaseHistory(a) == ReleaseHistory(b)
  {
    PairsPermutation(a, b);
    SortedPermutationUnique(ReleaseHistory(a), ReleaseHistory(b));
  }
}
