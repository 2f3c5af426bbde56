/** The run over the package list: `get_ver` for each name in turn, the
    rows it keeps, and the `name==version` lines written to an output file. */
module Results {
  import opened Wrappers
  import opened Timestamps
  import opened History
  import opened Resolver
  import opened Requirements

  /** `(p, *ver_and_date)`: package, version, release date text. */
  datatype Row = Row(name: string, version: string, date: string)

  /** The loop either completes with its rows or stops at the first package
      whose `get_ver` raises, which ends the whole run. */
  datatype Run = Completed(rows: seq<Row>) | Aborted(package: string)

  /** pip4date.py:83-87 over a list of packages, the registry answering each
      name with a document or an undecodable body. */
  function Collected(packages: seq<string>, registry: string -> Fetched, date: Date, listShow: bool): (run: Run)
    ensures run.Aborted? ==> run.package in packages
    ensures run.Completed? ==> |run.rows| <= |packages|
  {
    if packages == [] then Completed([])
    else
      var p := packages[|packages| - 1];
      match Collected(packages[..|packages| - 1], registry, date, listShow)
      case Aborted(q) => Aborted(q)
      case Completed(rows) =>
        match GetVer(registry(p), date, listShow)
        case Raised => Aborted(p)
        case Returned(None) => Completed(rows)
        case Returned(Some(vd)) => Completed(rows + [Row(p, vd.version, vd.date)])
  }

  /** Once a package has raised, the rest of the list changes nothing. */
  lemma {:induction false} AbortIsFinal(packages: seq<string>, n: nat, registry: string -> Fetched, date: Date, listShow: bool)
    requires n <= |packages|
    requires Collected(packages[..n], registry, date, listShow).Aborted?
    ensures Collected(packages, registry, date, listShow) == Collected(packages[..n], registry, date, listShow)
    decreases |packages| - n
  {
    if n < |packages| {
      var init := packages[..|packages| - 1];
      assert init[..n] == packages[..n];
      AbortIsFinal(init, n, registry, date, listShow);
    } else {
      assert packages[..n] == packages;
    }
  }

  /** The loop of pip4date.py:83-87. */
  method CollectResults(packages: seq<string>, registry: string -> Fetched, date: Date, listShow: bool)
    returns (run: Run)
    ensures run == Collected(packages, registry, date, listShow)
  {
    var rows: seq<Row> := [];
    var i := 0;
    while i < |packages|
      invariant 0 <= i <= |packages|
      invariant Collected(packages[..i], registry, date, listShow) == Completed(rows)
    {
      var p := packages[i];
      assert packages[..i + 1][..i] == packages[..i];
      var verAndDate := GetVer(registry(p), date, listShow);
      if verAndDate.Raised? {
        AbortIsFinal(packages, i + 1, registry, date, listShow);
        return Aborted(p);
      }
      if verAndDate.value.Some? {
        rows := rows + [Row(p, verAndDate.value.value.version, verAndDate.value.value.date)];
      }
      i := i + 1;
    }
    assert packages[..i] == packages;
    run := Completed(rows);
  }

  /** A package survives into the rows unless its body could not be decoded
      outside list mode. */
  predicate IsKept(fetched: Fetched, listShow: bool) {
    !(fetched.Undecodable? && !listShow)
  }

  function Names(rows: seq<Row>): (names: seq<string>)
    ensures |names| == |rows|
    ensures forall i :: 0 <= i < |rows| ==> names[i] == rows[i].name
  {
    if rows == [] then [] else Names(rows[..|rows| - 1]) + [rows[|rows| - 1].name]
  }

  /** The packages that keep a row, in input order. */
  function KeptPackages(packages: seq<string>, registry: string -> Fetched, listShow: bool): seq<string> {
    if packages == [] then []
    else
      var p := packages[|packages| - 1];
      KeptPackages(packages[..|packages| - 1], registry, listShow) + (if IsKept(registry(p), listShow) then [p] else [])
  }

  /** One step of the loop, when it does not stop: the last package adds a
      row exactly when it is kept. */
  lemma {:induction false} CollectedRowStep(packages: seq<string>, registry: string -> Fetched, date: Date, listShow: bool)
    requires packages != [] && Collected(packages, registry, date, listShow).Completed?
    ensures var p := packages[|packages| - 1];
      var before := Collected(packages[..|packages| - 1], registry, date, listShow);
      && before.Completed?
      && Names(Collected(packages, registry, date, listShow).rows)
         == Names(before.rows) + (if IsKept(registry(p), listShow) then [p] else [])
  {
    var p := packages[|packages| - 1];
    var rows := Collected(packages[..|packages| - 1], registry, date, listShow).rows;
    var o := GetVer(registry(p), date, listShow);
    assert o.Returned? && (o.value.Some? <==> IsKept(registry(p), listShow));
    if o.value.Some? {
      var row := Row(p, o.value.value.version, o.value.value.date);
      assert (rows + [row])[..|rows|] == rows;
    }
  }

  /** A completed run has one row per kept package, in input order: the
      `None` results are the ones dropped. */
  lemma {:induction false} RowsFollowKeptPackages(packages: seq<string>, registry: string -> Fetched, date: Date, listShow: bool)
    requires Collected(packages, registry, date, listShow).Completed?
    ensures Names(Collected(packages, registry, date, listShow).rows) == KeptPackages(packages, registry, listShow)
  {
    if packages != [] {
      CollectedRowStep(packages, registry, date, listShow);
      RowsFollowKeptPackages(packages[..|packages| - 1], registry, date, listShow);
    }
  }

  /** In list mode every package is kept. */
  lemma {:induction false} ListModeKeepsAll(packages: seq<string>, registry: string -> Fetched)
    ensures KeptPackages(packages, registry, true) == packages
  {
    if packages != [] {
      ListModeKeepsAll(packages[..|packages| - 1], registry);
      assert packages[..|packages| - 1] + [packages[|packages| - 1]] == packages;
    }
  }

  /** In list mode no package is dropped: row `i` belongs to package `i`. */
  lemma {:induction false} ListModeRowPerPackage(packages: seq<string>, registry: string -> Fetched, date: Date)
    requires Collected(packages, registry, date, true).Completed?
    ensures var rows := Collected(packages, registry, date, true).rows;
      |rows| == |packages| && forall i :: 0 <= i < |rows| ==> rows[i].name == packages[i]
  {
    RowsFollowKeptPackages(packages, registry, date, true);
    ListModeKeepsAll(packages, registry);
  }

  /** Each row holds what `get_ver` made of its package: "No info" for an
      undecodable body in list mode, otherwise a release of the package's
      history with its printed upload time. */
  lemma {:induction false} RowsComeFromHistories(packages: seq<string>, registry: string -> Fetched, date: Date, listShow: bool)
    requires Collected(packages, registry, date, listShow).Completed?
    ensures forall row :: row in Collected(packages, registry, date, listShow).rows ==>
      && row.name in packages
      && match registry(row.name)
         case Undecodable => listShow && row.version == "No info" && row.date == "No info"
         case Decoded(doc) =>
           && Resolve(doc, date).Some?
           && row.version == Resolve(doc, date).value.version
           && row.date == Format(Resolve(doc, date).value.uploaded)
           && exists r :: r in ReleaseHistory(doc) && row.version == r.version && row.date == Format(r.uploaded)
  {
    if packages != [] {
      var init := packages[..|packages| - 1];
      RowsComeFromHistories(init, registry, date, listShow);
      forall row | row in Collected(init, registry, date, listShow).rows
        ensures row.name in packages
      {
        assert row.name in init;
      }
    }
  }

  /** The document decodes but no version in it has an artifact. */
  predicate HasNoRelease(fetched: Fetched) {
    fetched.Decoded? && ReleaseHistory(fetched.doc) == []
  }

  /** One step of the loop: the run is stopped after the last package
      exactly when it was stopped before it or the last package raises. */
  lemma {:induction false} CollectedStopStep(packages: seq<string>, registry: string -> Fetched, date: Date, listShow: bool)
    requires packages != []
    ensures var before := Collected(packages[..|packages| - 1], registry, date, listShow);
      var after := Collected(packages, registry, date, listShow);
      && (after.Aborted? <==> before.Aborted? || HasNoRelease(registry(packages[|packages| - 1])))
      && (after.Aborted? ==> after.package == if before.Aborted? then before.package else packages[|packages| - 1])
  {
    var p := packages[|packages| - 1];
    var o := GetVer(registry(p), date, listShow);
    assert o.Raised? <==> HasNoRelease(registry(p));
  }

  /** A run completes only when no package's document lacks a release. */
  lemma {:induction false} CompletedOnlyWithoutEmptyHistory(packages: seq<string>, registry: string -> Fetched, date: Date, listShow: bool)
    ensures Collected(packages, registry, date, listShow).Completed? <==>
      forall i :: 0 <= i < |packages| ==> !HasNoRelease(registry(packages[i]))
  {
    if packages != [] {
      var init := packages[..|packages| - 1];
      CompletedOnlyWithoutEmptyHistory(init, registry, date, listShow);
      CollectedStopStep(packages, registry, date, listShow);
      assert forall i :: 0 <= i < |init| ==> init[i] == packages[i];
    }
  }

  /** A stopped run names the first package whose document lacks a release. */
  lemma {:induction false} AbortsAtFirstEmptyHistory(packages: seq<string>, registry: string -> Fetched, date: Date, listShow: bool)
    requires Collected(packages, registry, date, listShow).Aborted?
    ensures exists i ::
      && 0 <= i < |packages| && packages[i] == Collected(packages, registry, date, listShow).package
      && HasNoRelease(registry(packages[i]))
      && forall j :: 0 <= j < i ==> !HasNoRelease(registry(packages[j]))
  {
    var init := packages[..|packages| - 1];
    CollectedStopStep(packages, registry, date, listShow);
    assert forall i :: 0 <= i < |init| ==> init[i] == packages[i];
    if Collected(init, registry, date, listShow).Aborted? {
      AbortsAtFirstEmptyHistory(init, registry, date, listShow);
      var i :|
        && 0 <= i < |init| && init[i] == Collected(init, registry, date, listShow).package
        && HasNoRelease(registry(init[i]))
        && forall j :: 0 <= j < i ==> !HasNoRelease(registry(init[j]));
      assert packages[i] == init[i];
    } else {
      CompletedOnlyWithoutEmptyHistory(init, registry, date, listShow);
      assert packages[|packages| - 1] == Collected(packages, registry, date, listShow).package;
    }
  }

  /** pip4date.py:91: one `name==version` line per row, in row order. */
  function OutputLines(rows: seq<Row>): seq<string> {
    seq(|rows|, i requires 0 <= i < |rows| => rows[i].name + "==" + rows[i].version + "\n")
  }

  /** Text without a line break, which a text file reads back as part of a
      single line. */
  predicate OnOneLine(s: string) {
    '\n' !in s && '\r' !in s
  }

  /** Reading the output file back as a requirements file yields the rows'
      package names, in order, when the names are plain. */
  lemma {:induction false} OutputReadsBackAsRequirements(rows: seq<Row>)
    requires forall i :: 0 <= i < |rows| ==> IsPlainName(rows[i].name)
    requires forall i :: 0 <= i < |rows| ==> OnOneLine(rows[i].name) && OnOneLine(rows[i].version)
    ensures PackageNames(OutputLines(rows)) == Names(rows)
  {
    if rows != [] {
      var init := rows[..|rows| - 1];
      var last := rows[|rows| - 1];
      OutputReadsBackAsRequirements(init);
      var lines := OutputLines(rows);
      assert lines[..|lines| - 1] == OutputLines(init);
      PinnedLineCounts(last.name, last.version);
    }
  }
}
