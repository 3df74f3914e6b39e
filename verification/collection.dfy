/** The collection and summary half of parallel_static_data_check in 3.py:
    per-sheet results arrive in completion order, sheets with findings are
    stored in a dict, and the dict is summarised with a grand total. */
module Collection {
  import opened Basics
  import opened SheetScan

  /** A Python dict from sheet name to references, in insertion order. */
  type Report = seq<SheetResult>

  predicate UniqueNames(d: seq<SheetResult>)
  {
    forall i, j | 0 <= i < j < |d| :: d[i].name != d[j].name
  }

  function Names(d: seq<SheetResult>): set<string>
  {
    set e | e in d :: e.name
  }

  lemma NamesConcat(a: seq<SheetResult>, b: seq<SheetResult>)
    ensures Names(a + b) == Names(a) + Names(b)
  {
    forall n | n in Names(a + b) ensures n in Names(a) + Names(b) {
      var e :| e in a + b && e.name == n;
      if e in a {
        assert n in Names(a);
      } else {
        assert n in Names(b);
      }
    }
    forall n | n in Names(a) + Names(b) ensures n in Names(a + b) {
      if n in Names(a) {
        var e :| e in a && e.name == n;
        assert e in a + b;
      } else {
        var e :| e in b && e.name == n;
        assert e in a + b;
      }
    }
  }

  /** d[k] = v on a dict: the value is replaced in place when k is present
      (StoreInPlace) and appended otherwise. */
  function Store(d: Report, k: string, v: seq<string>): (d': Report)
    ensures Names(d') == Names(d) + {k}
    ensures k !in Names(d) ==> d' == d + [SheetResult(k, v)]
  {
    if |d| == 0 then
      assert Names([SheetResult(k, v)]) == {k} by {
        assert SheetResult(k, v) in [SheetResult(k, v)];
      }
      [SheetResult(k, v)]
    else
      assert d == [d[0]] + d[1..];
      NamesConcat([d[0]], d[1..]);
      assert Names([d[0]]) == {d[0].name} by {
        assert d[0] in [d[0]];
      }
      assert Names([SheetResult(k, v)]) == {k} by {
        assert SheetResult(k, v) in [SheetResult(k, v)];
      }
      if d[0].name == k then
        NamesConcat([SheetResult(k, v)], d[1..]);
        [SheetResult(k, v)] + d[1..]
      else
        var rest := Store(d[1..], k, v);
        NamesConcat([d[0]], rest);
        assert k !in Names(d) ==> [d[0]] + rest == d + [SheetResult(k, v)];
        [d[0]] + rest
  }

  lemma UniqueNamesCons(x: SheetResult, rest: seq<SheetResult>)
    requires UniqueNames(rest) && x.name !in Names(rest)
    ensures UniqueNames([x] + rest)
  {
    var d := [x] + rest;
    forall i, j | 0 <= i < j < |d| ensures d[i].name != d[j].name {
      assert d[j] == rest[j - 1];
      if i == 0 {
        assert rest[j - 1] in rest;
      } else {
        assert d[i] == rest[i - 1];
      }
    }
  }

  /** On a dict (unique names) assignment keeps the names unique. */
  lemma {:induction false} StoreKeepsNamesUnique(d: Report, k: string, v: seq<string>)
    requires UniqueNames(d)
    ensures UniqueNames(Store(d, k, v))
  {
    if |d| > 0 {
      var tail := d[1..];
      assert d == [d[0]] + tail;
      assert forall i | 0 <= i < |tail| :: tail[i] == d[i + 1];
      if d[0].name != k {
        StoreKeepsNamesUnique(tail, k, v);
        NamesConcat([d[0]], tail);
        assert d[0] in [d[0]];
        UniqueNamesCons(d[0], Store(tail, k, v));
      } else {
        assert k !in Names(tail);
        UniqueNamesCons(SheetResult(k, v), tail);
      }
    }
  }

  lemma {:induction false} StoreEntry(d: Report, k: string, v: seq<string>, e: SheetResult)
    requires UniqueNames(d)
    ensures e in Store(d, k, v) <==> e == SheetResult(k, v) || (e in d && e.name != k)
  {
    if |d| > 0 {
      var tail := d[1..];
      assert d == [d[0]] + tail;
      assert e in d <==> e == d[0] || e in tail;
      if d[0].name != k {
        assert UniqueNames(tail) by {
          forall i, j | 0 <= i < j < |tail| ensures tail[i].name != tail[j].name {
            assert tail[i] == d[i + 1] && tail[j] == d[j + 1];
          }
        }
        StoreEntry(tail, k, v, e);
      } else if e in tail {
        var j :| 0 <= j < |tail| && tail[j] == e;
        assert e == d[j + 1];
      }
    }
  }

  /** On a dict (unique names) assignment holds the new entry and keeps
      every entry under another name. */
  lemma StoreEntries(d: Report, k: string, v: seq<string>)
    requires UniqueNames(d)
    ensures forall e :: e in Store(d, k, v) <==> e == SheetResult(k, v) || (e in d && e.name != k)
  {
    forall e ensures e in Store(d, k, v) <==> e == SheetResult(k, v) || (e in d && e.name != k) {
      StoreEntry(d, k, v, e);
    }
  }

  /** On a dict, assigning a key that is present replaces its value in
      place: the length and the order stay, and only that entry changes. */
  lemma {:induction false} StoreInPlace(d: Report, k: string, v: seq<string>)
    requires UniqueNames(d) && k in Names(d)
    ensures |Store(d, k, v)| == |d|
    ensures forall i | 0 <= i < |d| ::
              Store(d, k, v)[i] == (if d[i].name == k then SheetResult(k, v) else d[i])
    decreases |d|
  {
    var e :| e in d && e.name == k;
    var d' := Store(d, k, v);
    var tail := d[1..];
    if d[0].name == k {
      assert d' == [SheetResult(k, v)] + tail;
      forall i | 1 <= i < |d| ensures d'[i] == d[i] && d[i].name != k {
        assert d'[i] == tail[i - 1];
      }
    } else {
      assert e in tail by {
        assert d == [d[0]] + tail;
      }
      assert k in Names(tail);
      assert UniqueNames(tail) by {
        forall i, j | 0 <= i < j < |tail| ensures tail[i].name != tail[j].name {
          assert tail[i] == d[i + 1] && tail[j] == d[j + 1];
        }
      }
      StoreInPlace(tail, k, v);
      assert d' == [d[0]] + Store(tail, k, v);
      forall i | 1 <= i < |d|
        ensures d'[i] == (if d[i].name == k then SheetResult(k, v) else d[i])
      {
        assert d'[i] == Store(tail, k, v)[i - 1] && tail[i - 1] == d[i];
      }
    }
  }

  /** The names of the results that found something. */
  function FindingNames(results: seq<SheetResult>): set<string>
  {
    set r | r in results && r.refs != [] :: r.name
  }

  lemma FindingNamesSnoc(init: seq<SheetResult>, r: SheetResult)
    ensures FindingNames(init + [r])
         == FindingNames(init) + (if r.refs != [] then {r.name} else {})
  {
    var results := init + [r];
    assert forall x | x in results :: x in init || x == r;
    assert forall x | x in init :: x in results;
    assert r in results;
  }

  /** The as_completed loop: every result in completion order, stored under
      its sheet name when its list is non-empty. With one result per sheet
      name every store appends, so the dict keeps arrival order. */
  function Collect(results: seq<SheetResult>): (d: Report)
    ensures UniqueNames(d)
    ensures forall e | e in d :: e.refs != []
    ensures Names(d) == FindingNames(results)
    ensures UniqueNames(results) ==> Subseq(d, results)
  {
    if |results| == 0 then []
    else
      var init := results[..|results| - 1];
      var r := results[|results| - 1];
      var d := Collect(init);
      assert results == init + [r];
      FindingNamesSnoc(init, r);
      if r.refs != [] then
        StoreKeepsNamesUnique(d, r.name, r.refs);
        StoreEntries(d, r.name, r.refs);
        assert UniqueNames(results) ==> Subseq(Store(d, r.name, r.refs), results) by {
          if UniqueNames(results) {
            UniqueLast(results);
            StoreArrival(init, r, d);
          }
        }
        Store(d, r.name, r.refs)
      else
        assert UniqueNames(results) ==> Subseq(d, results) by {
          if UniqueNames(results) {
            UniqueLast(results);
            StoreArrival(init, r, d);
          }
        }
        d
  }

  /** One arrival under a new name: storing it appends, so a dict that kept
      the earlier arrivals' order keeps it with the new one. */
  lemma StoreArrival(init: seq<SheetResult>, r: SheetResult, d: Report)
    requires Subseq(d, init)
    requires forall x | x in init :: x.name != r.name
    ensures Subseq(d, init + [r])
    ensures r.refs != [] ==> Store(d, r.name, r.refs) == d + [r]
    ensures r.refs != [] ==> Subseq(Store(d, r.name, r.refs), init + [r])
  {
    SubseqElements(d, init);
    assert r.name !in Names(d);
    SubseqSnoc(d, init, r);
  }

  /** Under unique names the last result's name is new to the ones before it. */
  lemma UniqueLast(results: seq<SheetResult>)
    requires UniqueNames(results) && |results| > 0
    ensures UniqueNames(results[..|results| - 1])
    ensures forall x | x in results[..|results| - 1] :: x.name != results[|results| - 1].name
  {
    var init := results[..|results| - 1];
    forall x | x in init ensures x.name != results[|results| - 1].name {
      var i :| 0 <= i < |init| && init[i] == x;
      assert results[i] == x;
    }
  }

  /** Results with the same sheet name are the same result: each sheet is
      written with one value. */
  predicate FunctionalNames(results: seq<SheetResult>)
  {
    forall x, y | x in results && y in results :: x.name == y.name ==> x == y
  }

  /** The stored entries are exactly the results with findings. */
  lemma {:induction false} CollectEntries(results: seq<SheetResult>)
    requires FunctionalNames(results)
    ensures forall e :: e in Collect(results) <==> e in results && e.refs != []
  {
    if |results| > 0 {
      var init := results[..|results| - 1];
      var r := results[|results| - 1];
      assert forall x | x in init :: x in results;
      assert forall x | x in results :: x in init || x == r;
      CollectEntries(init);
      if r.refs != [] {
        StoreEntries(Collect(init), r.name, r.refs);
      }
    }
  }

  /** The sum of the list lengths, as the total_empty loop adds them up. */
  function Total(d: seq<SheetResult>): nat
  {
    if |d| == 0 then 0 else Total(d[..|d| - 1]) + |d[|d| - 1].refs|
  }

  /** With one result per sheet, the reported total is the sum of all the
      per-sheet list lengths (sheets without findings add nothing). */
  lemma {:induction false} TotalIsSum(results: seq<SheetResult>)
    requires UniqueNames(results)
    ensures Total(Collect(results)) == Total(results)
  {
    if |results| > 0 {
      var init := results[..|results| - 1];
      var r := results[|results| - 1];
      TotalIsSum(init);
      assert r.name !in Names(Collect(init));
      if r.refs != [] {
        var d := Collect(init);
        assert (d + [r])[..|d|] == d;
      }
    }
  }

  ghost function SumSet(s: set<SheetResult>): nat
  {
    if s == {} then 0 else var x :| x in s; |x.refs| + SumSet(s - {x})
  }

  lemma {:induction false} SumSetRemove(s: set<SheetResult>, x: SheetResult)
    requires x in s
    ensures SumSet(s) == |x.refs| + SumSet(s - {x})
    decreases |s|
  {
    var y :| y in s && SumSet(s) == |y.refs| + SumSet(s - {y});
    if y != x {
      SumSetRemove(s - {y}, x);
      SumSetRemove(s - {x}, y);
      assert s - {y} - {x} == s - {x} - {y};
    }
  }

  /** Total over a duplicate-free sequence depends only on its elements. */
  lemma {:induction false} TotalIsSumSet(d: seq<SheetResult>)
    requires Distinct(d)
    ensures Total(d) == SumSet(Elements(d))
  {
    if |d| > 0 {
      var init := d[..|d| - 1];
      var x := d[|d| - 1];
      assert Distinct(init);
      TotalIsSumSet(init);
      assert Elements(d) - {x} == Elements(init);
      SumSetRemove(Elements(d), x);
    }
  }

  /** dict.get(k): the value stored under k. */
  function Lookup(d: Report, k: string): (v: Option<seq<string>>)
    ensures v.Some? <==> k in Names(d)
    ensures v.Some? ==> SheetResult(k, v.value) in d
  {
    if |d| == 0 then None
    else if d[0].name == k then Some(d[0].refs)
    else
      assert forall e | e in d :: e == d[0] || e in d[1..];
      var v := Lookup(d[1..], k);
      v
  }

  /** Two dicts with the same entries answer every lookup alike. */
  lemma SameEntriesSameLookups(d1: Report, d2: Report, k: string)
    requires UniqueNames(d1) && UniqueNames(d2)
    requires forall e :: e in d1 <==> e in d2
    ensures Lookup(d1, k) == Lookup(d2, k)
  {
    var v1 := Lookup(d1, k);
    var v2 := Lookup(d2, k);
    if v1.Some? {
      assert k in Names(d2);
      var i :| 0 <= i < |d2| && d2[i] == SheetResult(k, v1.value);
      var j :| 0 <= j < |d2| && d2[j] == SheetResult(k, v2.value);
      assert i == j;
    }
  }

  /** The collected dict does not depend on the order in which results
      arrive: any two orders with the same results give the same entries,
      the same lookups and the same total. */
  lemma CollectOrderIndependent(a: seq<SheetResult>, b: seq<SheetResult>)
    requires FunctionalNames(a)
    requires Elements(a) == Elements(b)
    ensures forall e :: e in Collect(a) <==> e in Collect(b)
    ensures forall k :: Lookup(Collect(a), k) == Lookup(Collect(b), k)
    ensures Total(Collect(a)) == Total(Collect(b))
  {
    assert forall x :: x in a <==> x in Elements(a);
    assert forall x :: x in b <==> x in Elements(b);
    assert FunctionalNames(b);
    CollectEntries(a);
    CollectEntries(b);
    var da := Collect(a);
    var db := Collect(b);
    forall k ensures Lookup(da, k) == Lookup(db, k) {
      SameEntriesSameLookups(da, db, k);
    }
    assert Distinct(da) by {
      forall i, j | 0 <= i < j < |da| ensures da[i] != da[j] {
        assert da[i].name != da[j].name;
      }
    }
    assert Distinct(db) by {
      forall i, j | 0 <= i < j < |db| ensures db[i] != db[j] {
        assert db[i].name != db[j].name;
      }
    }
    TotalIsSumSet(da);
    TotalIsSumSet(db);
    assert Elements(da) == Elements(db);
  }

  /** The same sheet name carried by two different results makes the dict
      depend on the order: the later arrival wins. */
  lemma DuplicateNamesDependOnOrder()
    ensures var x := SheetResult("S", ["A1"]);
            var y := SheetResult("S", ["B2"]);
            Collect([x, y]) == [y] && Collect([y, x]) == [x]
  {
    var x := SheetResult("S", ["A1"]);
    var y := SheetResult("S", ["B2"]);
    assert [x, y][..1] == [x] && [y, x][..1] == [y];
    assert [x][..0] == [] && [y][..0] == [];
    assert Collect([x]) == Store([], "S", ["A1"]) == [x];
    assert Collect([y]) == Store([], "S", ["B2"]) == [y];
    assert Store([x], "S", ["B2"]) == [y] + [x][1..];
    assert Store([y], "S", ["A1"]) == [x] + [y][1..];
  }

  /** The references a summary prints on one line. */
  const RefsPerLine: nat := 5

  /** The print loop's slices: consecutive groups of RefsPerLine references,
      the last one possibly shorter. */
  function Groups(s: seq<string>): (groups: seq<seq<string>>)
    ensures Flatten(groups) == s
    ensures forall i | 0 <= i < |groups| :: 1 <= |groups[i]| <= RefsPerLine
    ensures forall i | 0 <= i < |groups| - 1 :: |groups[i]| == RefsPerLine
    ensures |groups| == (|s| + RefsPerLine - 1) / RefsPerLine
    decreases |s|
  {
    if |s| == 0 then []
    else if |s| <= RefsPerLine then
      assert Flatten([s]) == s + Flatten([]);
      [s]
    else
      var rest := Groups(s[RefsPerLine..]);
      assert s == s[..RefsPerLine] + s[RefsPerLine..];
      assert ([s[..RefsPerLine]] + rest)[1..] == rest;
      [s[..RefsPerLine]] + rest
  }

  /** What the summary prints for one sheet. */
  datatype SheetSummary = SheetSummary(name: string, count: nat, lines: seq<seq<string>>)

  datatype Summary = Summary(sheets: seq<SheetSummary>, total: nat)

  function SummarizeSheet(e: SheetResult): SheetSummary
  {
    SheetSummary(e.name, |e.refs|, Groups(e.refs))
  }

  /** The summary in dict order: per sheet its name, its count and its
      references five to a line, then the grand total. */
  function Summarize(d: Report): (s: Summary)
    ensures |s.sheets| == |d|
    ensures forall i | 0 <= i < |d| ::
              && s.sheets[i].name == d[i].name
              && s.sheets[i].count == |d[i].refs|
              && Flatten(s.sheets[i].lines) == d[i].refs
              && (forall j | 0 <= j < |s.sheets[i].lines| :: 1 <= |s.sheets[i].lines[j]| <= RefsPerLine)
              && (forall j | 0 <= j < |s.sheets[i].lines| - 1 :: |s.sheets[i].lines[j]| == RefsPerLine)
    ensures s.total == Total(d)
  {
    Summary(seq(|d|, i requires 0 <= i < |d| => SummarizeSheet(d[i])), Total(d))
  }

  /** What the scan finds about the workbook file before any sheet is read. */
  datatype WorkbookFile =
    | FileMissing                   // os.path.exists is false
    | OpenFailed(reason: string)    // pd.ExcelFile raised
    | Opened(sheets: seq<Sheet>)    // the sheets in workbook order

  /** The order in which as_completed hands back the per-sheet futures:
      every sheet index exactly once. */
  predicate IsPermutation(order: seq<nat>, n: nat)
  {
    && |order| == n
    && (forall i | 0 <= i < |order| :: order[i] < n)
    && Distinct(order)
  }

  lemma PermutationCovers(order: seq<nat>, n: nat)
    requires IsPermutation(order, n)
    ensures forall k | 0 <= k < n :: k in order
  {
    var indices := seq(n, i requires 0 <= i < n => i);
    assert Distinct(indices);
    DistinctCard(indices);
    DistinctCard(order);
    assert forall k | 0 <= k < n :: indices[k] == k;
    forall x | x in Elements(order) ensures x in Elements(indices) {
      assert indices[x] == x;
    }
    SubsetSameCard(Elements(order), Elements(indices));
    forall k | 0 <= k < n ensures k in order {
      assert indices[k] in Elements(indices);
    }
  }

  lemma SubsetSameCard<T>(a: set<T>, b: set<T>)
    requires a <= b && |a| == |b|
    ensures a == b
  {
    assert b == a + (b - a);
    assert a * (b - a) == {};
    assert |b - a| == 0;
  }

  /** The results in the order they complete. */
  function Arrivals(sheets: seq<Sheet>, order: seq<nat>): seq<SheetResult>
    requires forall i | 0 <= i < |order| :: order[i] < |sheets|
  {
    seq(|order|, i requires 0 <= i < |order| => ScanSheet(sheets[order[i]]))
  }

  /** Sheet names within a workbook are unique. */
  predicate DistinctSheetNames(sheets: seq<Sheet>)
  {
    forall i, j | 0 <= i < j < |sheets| :: sheets[i].name != sheets[j].name
  }

  /** What parallel_static_data_check returns and, when it gets that far,
      the summary it prints. */
  datatype CheckOutcome = CheckOutcome(report: Report, summary: Option<Summary>)

  /** parallel_static_data_check for one completion order. A missing file
      returns an empty dict at once, without the summary (only an error is
      logged); a workbook that cannot be opened,
      or has no sheets (a pool of zero workers raises), is summarised as
      empty; otherwise the results are collected as they arrive. */
  function StaticDataCheck(file: WorkbookFile, order: seq<nat>): (out: CheckOutcome)
    requires file.Opened? ==> IsPermutation(order, |file.sheets|)
    ensures file.FileMissing? ==> out == CheckOutcome([], None)
    ensures !file.FileMissing? ==> out.summary == Some(Summarize(out.report))
    ensures file.OpenFailed? ==> out.report == []
    ensures file.Opened? && file.sheets == [] ==> out.report == []
    ensures UniqueNames(out.report)
    ensures forall e | e in out.report :: e.refs != []
  {
    match file
    case FileMissing => CheckOutcome([], None)
    case OpenFailed(_) => CheckOutcome([], Some(Summarize([])))
    case Opened(sheets) =>
      if |sheets| == 0 then CheckOutcome([], Some(Summarize([])))
      else
        var d := Collect(Arrivals(sheets, order));
        CheckOutcome(d, Some(Summarize(d)))
  }

  lemma ArrivalElements(sheets: seq<Sheet>, order: seq<nat>)
    requires IsPermutation(order, |sheets|)
    ensures Elements(Arrivals(sheets, order)) == set s | s in sheets :: ScanSheet(s)
  {
    PermutationCovers(order, |sheets|);
    var a := Arrivals(sheets, order);
    forall s | s in sheets ensures ScanSheet(s) in Elements(a) {
      var k :| 0 <= k < |sheets| && sheets[k] == s;
      assert k in order;
      var i :| 0 <= i < |order| && order[i] == k;
      assert a[i] == ScanSheet(s);
    }
  }

  /** With distinct sheet names, two arrivals with the same name are the
      scan of the same sheet. */
  lemma ArrivalsFunctional(sheets: seq<Sheet>, order: seq<nat>)
    requires IsPermutation(order, |sheets|) && DistinctSheetNames(sheets)
    ensures FunctionalNames(Arrivals(sheets, order))
  {
    var a := Arrivals(sheets, order);
    forall x, y | x in a && y in a && x.name == y.name ensures x == y {
      var i :| 0 <= i < |a| && a[i] == x;
      var j :| 0 <= j < |a| && a[j] == y;
      assert sheets[order[i]].name == x.name && sheets[order[j]].name == y.name;
      SameNameSameSheet(sheets, order[i], order[j]);
    }
  }

  /** Under distinct names a sheet name identifies the sheet's index. */
  lemma SameNameSameSheet(sheets: seq<Sheet>, k: nat, l: nat)
    requires DistinctSheetNames(sheets) && k < |sheets| && l < |sheets|
    ensures sheets[k].name == sheets[l].name <==> k == l
  {
    if k < l {
      assert sheets[k].name != sheets[l].name;
    } else if l < k {
      assert sheets[l].name != sheets[k].name;
    }
  }

  /** A sheet is in the returned dict exactly when its scan found something,
      and then under its own references. */
  lemma StaticDataCheckContents(sheets: seq<Sheet>, order: seq<nat>)
    requires IsPermutation(order, |sheets|) && DistinctSheetNames(sheets)
    ensures forall e :: e in StaticDataCheck(Opened(sheets), order).report <==>
              e.refs != [] && exists s | s in sheets :: ScanSheet(s) == e
  {
    var a := Arrivals(sheets, order);
    ArrivalElements(sheets, order);
    assert forall x | x in a :: x in Elements(a);
    ArrivalsFunctional(sheets, order);
    CollectEntries(a);
    if |sheets| > 0 {
      forall e ensures e in Collect(a) <==> e.refs != [] && exists s | s in sheets :: ScanSheet(s) == e {
        if e.refs != [] && exists s | s in sheets :: ScanSheet(s) == e {
          assert e in Elements(a);
        }
      }
    }
  }

  /** The completion order changes nothing the caller can see: the returned
      dict has the same entries and lookups and the printed total is the
      same, for any two completion orders. */
  lemma StaticDataCheckOrderIndependent(file: WorkbookFile, o1: seq<nat>, o2: seq<nat>)
    requires file.Opened? ==> IsPermutation(o1, |file.sheets|) && IsPermutation(o2, |file.sheets|)
    requires file.Opened? ==> DistinctSheetNames(file.sheets)
    ensures var r1 := StaticDataCheck(file, o1).report;
            var r2 := StaticDataCheck(file, o2).report;
            && (forall e :: e in r1 <==> e in r2)
            && (forall k :: Lookup(r1, k) == Lookup(r2, k))
            && Total(r1) == Total(r2)
  {
    if file.Opened? && |file.sheets| > 0 {
      var sheets := file.sheets;
      var a := Arrivals(sheets, o1);
      var b := Arrivals(sheets, o2);
      ArrivalElements(sheets, o1);
      ArrivalElements(sheets, o2);
      ArrivalsFunctional(sheets, o1);
      CollectOrderIndependent(a, b);
    }
  }

  /** With distinct sheet names the printed total is the number of empty
      references over all sheets. */
  lemma StaticDataCheckTotal(sheets: seq<Sheet>, order: seq<nat>)
    requires IsPermutation(order, |sheets|) && DistinctSheetNames(sheets)
    ensures StaticDataCheck(Opened(sheets), order).summary.value.total
         == Total(Arrivals(sheets, order))
  {
    var a := Arrivals(sheets, order);
    assert UniqueNames(a) by {
      forall i, j | 0 <= i < j < |a| ensures a[i].name != a[j].name {
        assert order[i] != order[j];
      }
    }
    if |sheets| > 0 {
      TotalIsSum(a);
    }
  }
}
