/** `get_ver` after the registry fetch: the release in effect at the
    midnight of a target date, chosen by bisection over the release history,
    and the `(version, date)` pair the function hands back. */
module Resolver {
  import opened Wrappers
  import opened Timestamps
  import opened Bisect
  import opened History
  import opened Sequences

  /** `release_dates` as unzipped from the sorted history. */
  function UploadTimes(h: seq<Release>): (ds: seq<DateTime>)
    ensures |ds| == |h|
    ensures forall i :: 0 <= i < |h| ==> ds[i] == h[i].uploaded
  {
    if h == [] then [] else [h[0].uploaded] + UploadTimes(h[1..])
  }

  /** `releases` as unzipped from the sorted history. */
  function VersionNames(h: seq<Release>): (vs: seq<string>)
    ensures |vs| == |h|
    ensures forall i :: 0 <= i < |h| ==> vs[i] == h[i].version
  {
    if h == [] then [] else [h[0].version] + VersionNames(h[1..])
  }

  /** A history sorted as tuples has ascending upload times. */
  lemma {:induction false} SortedUploadTimes(h: seq<Release>)
    requires Sorted(h)
    ensures SortedTimes(UploadTimes(h))
  {
    forall i, j | 0 <= i < j < |h|
      ensures !Before(h[j].uploaded, h[i].uploaded)
    {
      assert !Less(h[j], h[i]);
    }
  }

  /** `fit_index`, the answer of `binary_search(release_dates, date_parsed)`:
      release `i` is uploaded before `m` exactly when `i` comes before the
      answer, or the answer is -1. */
  function FitIndex(h: seq<Release>, m: DateTime): (fit: int)
    requires Sorted(h)
    ensures fit == -1 || 0 <= fit < |h|
    ensures forall i :: 0 <= i < |h| ==> (Before(h[i].uploaded, m) <==> fit == -1 || i < fit)
  {
    SortedUploadTimes(h);
    BinarySearch(UploadTimes(h), m, 0, |h|)
  }

  /** Python's `s[i]`: a negative index counts from the end, so `s[-1]` is
      the last element. */
  function PyIndex<T>(s: seq<T>, i: int): (x: T)
    requires -|s| <= i < |s|
    ensures x in s
  {
    if i < 0 then s[|s| + i] else s[i]
  }

  /** Indexing the unzipped lists at one index reads one release of the
      history. */
  lemma {:induction false} UnzipAt(h: seq<Release>, i: int)
    requires -|h| <= i < |h|
    ensures Release(PyIndex(UploadTimes(h), i), PyIndex(VersionNames(h), i)) == PyIndex(h, i)
  {
  }

  /** pip4date.py:53-60: from bisection's answer, the index into the history and
      whether the "did not exist" warning is raised. */
  function SelectIndex(fit: int): (int, bool) {
    if fit == 0 then (0, true)
    else if fit != -1 then (fit - 1, false)
    else (fit, false)
  }

  /** The chosen release and whether the warning was raised. */
  datatype Resolution = Resolution(version: string, uploaded: DateTime, warned: bool)

  /** The resolution of one decoded document at a target date; `None` where
      unpacking an empty history raises. */
  function Resolve(doc: Document, date: Date): (r: Option<Resolution>)
    ensures r.None? <==> ReleaseHistory(doc) == []
    ensures r.Some? ==> Release(r.value.uploaded, r.value.version) in ReleaseHistory(doc)
    ensures r.Some? ==> (r.value.warned <==> !Before(ReleaseHistory(doc)[0].uploaded, Midnight(date)))
  {
    var h := ReleaseHistory(doc);
    if h == [] then None
    else
      var fit := FitIndex(h, Midnight(date));
      var (vInd, warned) := SelectIndex(fit);
      UnzipAt(h, vInd);
      Some(Resolution(PyIndex(VersionNames(h), vInd), PyIndex(UploadTimes(h), vInd), warned))
  }

  /** The resolution is the history's release at the selected index. */
  lemma {:induction false} ResolveSelects(doc: Document, date: Date)
    requires ReleaseHistory(doc) != []
    ensures var h := ReleaseHistory(doc);
      var (vInd, warned) := SelectIndex(FitIndex(h, Midnight(date)));
      && -|h| <= vInd < |h|
      && Resolve(doc, date) == Some(Resolution(PyIndex(h, vInd).version, PyIndex(h, vInd).uploaded, warned))
  {
    var h := ReleaseHistory(doc);
    UnzipAt(h, SelectIndex(FitIndex(h, Midnight(date))).0);
  }

  /** Bisection answers `k + 1` when release `k` is before `m` and release
      `k + 1` is not. */
  lemma {:induction false} FitBetween(h: seq<Release>, m: DateTime, k: nat)
    requires Sorted(h) && k + 1 < |h|
    requires Before(h[k].uploaded, m) && !Before(h[k + 1].uploaded, m)
    ensures FitIndex(h, m) == k + 1
  {
    var fit := FitIndex(h, m);
    assert Before(h[k].uploaded, m) <==> fit == -1 || k < fit;
    assert Before(h[k + 1].uploaded, m) <==> fit == -1 || k + 1 < fit;
  }

  /** The target date is on or before the first release's day: the first
      release is returned, with the warning. */
  lemma {:induction false} ResolveBeforeFirstRelease(doc: Document, date: Date)
    requires ReleaseHistory(doc) != []
    requires !Before(ReleaseHistory(doc)[0].uploaded, Midnight(date))
    ensures var first := ReleaseHistory(doc)[0];
      Resolve(doc, date) == Some(Resolution(first.version, first.uploaded, true))
  {
    var h := ReleaseHistory(doc);
    assert FitIndex(h, Midnight(date)) == 0;
    ResolveSelects(doc, date);
  }

  /** Every release is before the target midnight: bisection answers -1 and
      the index -1 selects the newest release, without a warning. */
  lemma {:induction false} ResolveAfterLastRelease(doc: Document, date: Date)
    requires ReleaseHistory(doc) != []
    requires Before(ReleaseHistory(doc)[|ReleaseHistory(doc)| - 1].uploaded, Midnight(date))
    ensures FitIndex(ReleaseHistory(doc), Midnight(date)) == -1
    ensures var last := ReleaseHistory(doc)[|ReleaseHistory(doc)| - 1];
      Resolve(doc, date) == Some(Resolution(last.version, last.uploaded, false))
  {
    var h := ReleaseHistory(doc);
    var fit := FitIndex(h, Midnight(date));
    assert Before(h[|h| - 1].uploaded, Midnight(date));
    ResolveSelects(doc, date);
  }

  /** The target midnight falls after release `k` and not after release
      `k + 1`: release `k` is returned, without a warning. */
  lemma {:induction false} ResolveBetweenReleases(doc: Document, date: Date, k: nat)
    requires k + 1 < |ReleaseHistory(doc)|
    requires Before(ReleaseHistory(doc)[k].uploaded, Midnight(date))
    requires !Before(ReleaseHistory(doc)[k + 1].uploaded, Midnight(date))
    ensures var r := ReleaseHistory(doc)[k];
      Resolve(doc, date) == Some(Resolution(r.version, r.uploaded, false))
  {
    var h := ReleaseHistory(doc);
    FitBetween(h, Midnight(date), k);
    assert SelectIndex(k + 1) == (k, false);
    assert PyIndex(h, k) == h[k];
    ResolveSelects(doc, date);
  }

  /** In a sorted history, when no release after `k` is uploaded before `m`,
      no release uploaded before `m` comes after release `k` in tuple order. */
  lemma {:induction false} LatestBefore(h: seq<Release>, m: DateTime, k: nat)
    requires Sorted(h) && k < |h|
    requires forall i :: k < i < |h| ==> !Before(h[i].uploaded, m)
    ensures forall r :: r in h && Before(r.uploaded, m) ==> !Less(h[k], r)
  {
    forall r | r in h && Before(r.uploaded, m)
      ensures !Less(h[k], r)
    {
      var j :| 0 <= j < |h| && h[j] == r;
      if j == k {
        LessIsStrictTotalOrder(r, r, r);
      }
    }
  }

  /** Without the warning, the result is the latest release (in tuple order)
      uploaded strictly before the target midnight. */
  lemma {:induction false} ResolveIsLatestBeforeMidnight(doc: Document, date: Date)
    requires Resolve(doc, date).Some? && !Resolve(doc, date).value.warned
    ensures var res := Resolve(doc, date).value;
      && Before(res.uploaded, Midnight(date))
      && forall r :: r in ReleaseHistory(doc) && Before(r.uploaded, Midnight(date)) ==>
           !Less(Release(res.uploaded, res.version), r)
  {
    var h := ReleaseHistory(doc);
    var m := Midnight(date);
    var fit := FitIndex(h, m);
    ResolveSelects(doc, date);
    assert fit != 0;
    var k := if fit == -1 then |h| - 1 else fit - 1;
    assert SelectIndex(fit).0 == if fit == -1 then -1 else k;
    assert PyIndex(h, SelectIndex(fit).0) == h[k];
    assert Before(h[k].uploaded, m);
    LatestBefore(h, m, k);
  }

  /** A release uploaded at or after the target midnight -- on the target
      date itself or later -- is returned only as the first release, and
      then with the warning. */
  lemma {:induction false} LateReleaseOnlyWithWarning(doc: Document, date: Date)
    requires Resolve(doc, date).Some?
    requires !Before(Resolve(doc, date).value.uploaded, Midnight(date))
    ensures var res := Resolve(doc, date).value;
      res.warned && Release(res.uploaded, res.version) == ReleaseHistory(doc)[0]
  {
    if !Resolve(doc, date).value.warned {
      ResolveIsLatestBeforeMidnight(doc, date);
      assert false;
    }
    ResolveBeforeFirstRelease(doc, date);
  }

  /** A version listed with no artifacts is never the answer. */
  lemma {:induction false} EmptyVersionNeverResolved(doc: Document, date: Date, i: nat)
    requires UniqueVersions(doc)
    requires i < |doc| && doc[i].uploads == []
    ensures Resolve(doc, date).Some? ==> Resolve(doc, date).value.version != doc[i].version
  {
    EmptyVersionNotInHistory(doc, i);
  }

  /** The answer does not depend on the order of the document's keys. */
  lemma {:induction false} ResolveIgnoresKeyOrder(a: Document, b: Document, date: Date)
    requires multiset(a) == multiset(b)
    ensures Resolve(a, date) == Resolve(b, date)
  {
    HistoryIgnoresKeyOrder(a, b);
  }

  /** Three releases a year or so apart: a date between the second and
      the third gives the second, a date before the first gives the first
      with the warning, and a date after the last gives the last. */
  lemma {:induction false} ResolveThreeReleases()
    ensures var doc := [
        Entry("v1", [DateTime(2020, 1, 1, 0, 0, 0)]),
        Entry("v2", [DateTime(2021, 6, 15, 0, 0, 0)]),
        Entry("v3", [DateTime(2022, 3, 10, 0, 0, 0)])];
      && Resolve(doc, Date(2021, 12, 1)) == Some(Resolution("v2", DateTime(2021, 6, 15, 0, 0, 0), false))
      && Resolve(doc, Date(2019, 1, 1)) == Some(Resolution("v1", DateTime(2020, 1, 1, 0, 0, 0), true))
      && Resolve(doc, Date(2023, 1, 1)) == Some(Resolution("v3", DateTime(2022, 3, 10, 0, 0, 0), false))
  {
    var r1 := Release(DateTime(2020, 1, 1, 0, 0, 0), "v1");
    var r2 := Release(DateTime(2021, 6, 15, 0, 0, 0), "v2");
    var r3 := Release(DateTime(2022, 3, 10, 0, 0, 0), "v3");
    var doc := [Entry("v1", [r1.uploaded]), Entry("v2", [r2.uploaded]), Entry("v3", [r3.uploaded])];
    assert Pairs(doc) == [r1, r2, r3] by {
      FlatMapSingle(doc[0], PairOf);
      FlatMapSingle(doc[1], PairOf);
      FlatMapSingle(doc[2], PairOf);
      assert doc == [doc[0]] + [doc[1]] + [doc[2]];
      FlatMapAppend([doc[0]], [doc[1]], PairOf);
      FlatMapAppend([doc[0]] + [doc[1]], [doc[2]], PairOf);
    }
    var h := [r1, r2, r3];
    assert Sorted(h) by {
      forall i, j | 0 <= i < j < 3
        ensures !Less(h[j], h[i])
      {
      }
    }
    SortedPermutationUnique(ReleaseHistory(doc), h);
    ResolveBetweenReleases(doc, Date(2021, 12, 1), 1);
    ResolveBeforeFirstRelease(doc, Date(2019, 1, 1));
    ResolveAfterLastRelease(doc, Date(2023, 1, 1));
  }

  /** The registry answer for one package: a decoded document, or a body
      that is not valid JSON. */
  datatype Fetched = Decoded(doc: Document) | Undecodable

  /** The `(version, date)` tuple `get_ver` returns. */
  datatype VerAndDate = VerAndDate(version: string, date: string)

  /** What a call of `get_ver` ends in: a return (`None` or a tuple) or the
      `ValueError` from unpacking an empty history. */
  datatype Outcome = Returned(value: Option<VerAndDate>) | Raised

  const NoInfo := VerAndDate("No info", "No info")

  /** `get_ver(package_name, package_date, list_show)` with the fetch
      replaced by its result. */
  function GetVer(fetched: Fetched, date: Date, listShow: bool): (o: Outcome)
    ensures o.Raised? <==> fetched.Decoded? && ReleaseHistory(fetched.doc) == []
    ensures fetched.Undecodable? ==> o == Returned(if listShow then Some(NoInfo) else None)
    ensures fetched.Decoded? && o.Returned? ==>
      && o.value.Some?
      && exists r :: r in ReleaseHistory(fetched.doc) && o.value.value == VerAndDate(r.version, Format(r.uploaded))
    ensures fetched.Decoded? && o.Returned? ==>
      && Resolve(fetched.doc, date).Some?
      && o.value == Some(VerAndDate(Resolve(fetched.doc, date).value.version, Format(Resolve(fetched.doc, date).value.uploaded)))
  {
    match fetched
    case Undecodable =>
      if listShow then Returned(Some(NoInfo)) else Returned(None)
    case Decoded(doc) =>
      match Resolve(doc, date)
      case None => Raised
      case Some(res) =>
        assert Release(res.uploaded, res.version) in ReleaseHistory(doc);
        Returned(Some(VerAndDate(res.version, Format(res.uploaded))))
  }
}
