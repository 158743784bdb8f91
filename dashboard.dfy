/**
 * The reporting view (components/Dashboard.tsx): the searched, filtered and
 * newest-first list of records, the summary statistics, the CSV export text
 * and the duration shown in the table.
 */
module Dashboard {
  import opened Types
  import opened Seqs
  import opened Text
  import opened Clock

  /** The status selector: every record, or only those with one status. */
  datatype StatusFilter = All | Only(status: Status)

  /**
   * The search box matches the lower-cased name by substring, or the system
   * number by case-sensitive substring.
   */
  predicate MatchesSearch(r: Record, term: string)
  {
    Contains(Lower(r.studentName), Lower(term)) || Contains(r.systemNumber, term)
  }

  predicate MatchesStatus(r: Record, filter: StatusFilter)
  {
    filter.All? || r.status == filter.status
  }

  predicate Shown(r: Record, term: string, filter: StatusFilter)
  {
    MatchesSearch(r, term) && MatchesStatus(r, filter)
  }

  // ----- Newest first -----

  /** Timestamps never increase along the sequence. */
  predicate NewestFirst(s: seq<Record>)
  {
    forall i, j :: 0 <= i < j < |s| ==> s[i].timestamp >= s[j].timestamp
  }

  /**
   * Puts `x` before the first record that is not newer than it, so that of
   * two records with equal timestamps the earlier-listed one stays first.
   */
  function Insert(x: Record, s: seq<Record>): seq<Record>
    decreases |s|
  {
    if s == [] then [x]
    else if s[0].timestamp <= x.timestamp then [x] + s
    else [s[0]] + Insert(x, s[1..])
  }

  /** Inserting into a newest-first list keeps it newest first and adds exactly `x`. */
  lemma {:induction false} InsertSpec(x: Record, s: seq<Record>)
    requires NewestFirst(s)
    ensures NewestFirst(Insert(x, s))
    ensures multiset(Insert(x, s)) == multiset(s) + multiset{x}
    decreases |s|
  {
    if s == [] {
    } else if s[0].timestamp <= x.timestamp {
      ConsNewestFirst(x, s);
    } else {
      var rest := Insert(x, s[1..]);
      InsertSpec(x, s[1..]);
      assert s == [s[0]] + s[1..];
      assert multiset(s) == multiset{s[0]} + multiset(s[1..]);
      forall k | 0 <= k < |rest| ensures rest[k].timestamp <= s[0].timestamp {
        assert rest[k] in multiset(rest);
        assert rest[k] == x || rest[k] in multiset(s[1..]);
      }
      ConsNewestFirst(s[0], rest);
    }
  }

  /** A record no older than every record of a newest-first list can go in front of it. */
  lemma ConsNewestFirst(y: Record, s: seq<Record>)
    requires NewestFirst(s)
    requires forall k :: 0 <= k < |s| ==> s[k].timestamp <= y.timestamp
    ensures NewestFirst([y] + s)
  {
    var t := [y] + s;
    forall i, j | 0 <= i < j < |t| ensures t[i].timestamp >= t[j].timestamp {
      if i > 0 {
        assert t[i] == s[i - 1] && t[j] == s[j - 1];
      }
    }
  }

  /**
   * `sort((a, b) => b.timestamp - a.timestamp)`: a stable sort putting the
   * newest record first.
   */
  function SortNewestFirst(s: seq<Record>): seq<Record>
    decreases |s|
  {
    if s == [] then [] else Insert(s[0], SortNewestFirst(s[1..]))
  }

  /** The sorted list is newest first and holds exactly the records it was given. */
  lemma {:induction false} SortSpec(s: seq<Record>)
    ensures NewestFirst(SortNewestFirst(s))
    ensures multiset(SortNewestFirst(s)) == multiset(s)
    decreases |s|
  {
    if s != [] {
      var rest := SortNewestFirst(s[1..]);
      assert SortNewestFirst(s) == Insert(s[0], rest);
      SortSpec(s[1..]);
      InsertSpec(s[0], rest);
      assert s == [s[0]] + s[1..];
      assert multiset(s) == multiset(s[1..]) + multiset{s[0]};
    }
  }

  /** `filteredRecords`: the records the search and the status filter let through, newest first. */
  function FilteredRecords(records: seq<Record>, term: string, filter: StatusFilter): seq<Record>
  {
    SortNewestFirst(Filter(records, r => Shown(r, term, filter)))
  }

  /**
   * The list is newest first; it holds every record the search and the
   * filter let through, with all its copies, and no other record.
   */
  lemma FilteredRecordsSpec(records: seq<Record>, term: string, filter: StatusFilter)
    ensures NewestFirst(FilteredRecords(records, term, filter))
    ensures forall r: Record ::
      multiset(FilteredRecords(records, term, filter))[r] == if Shown(r, term, filter) then multiset(records)[r] else 0
    ensures forall i :: 0 <= i < |FilteredRecords(records, term, filter)| ==>
      var r := FilteredRecords(records, term, filter)[i];
      r in records && (filter.All? || r.status == filter.status)
      && (Contains(Lower(r.studentName), Lower(term)) || Contains(r.systemNumber, term))
  {
    var out := FilteredRecords(records, term, filter);
    SortSpec(Filter(records, r => Shown(r, term, filter)));
    forall r: Record ensures multiset(out)[r] ==
      if Shown(r, term, filter) then multiset(records)[r] else 0
    {
      FilterMultiplicity(records, r' => Shown(r', term, filter), r);
    }
    forall i | 0 <= i < |out|
      ensures out[i] in records && Shown(out[i], term, filter)
    {
      assert out[i] in multiset(out);
    }
  }

  /** With no search text and no status filter the list is a reordering of all records. */
  lemma UnfilteredIsPermutation(records: seq<Record>)
    ensures multiset(FilteredRecords(records, [], All)) == multiset(records)
  {
    forall i | 0 <= i < |records| ensures Shown(records[i], [], All) {
      ContainsEmpty(Lower(records[i].studentName));
    }
    FilterKeepsAll(records, r => Shown(r, [], All));
    SortSpec(records);
  }

  // ----- Statistics -----

  /** The three figures on the summary cards. */
  datatype Stats = Stats(total: nat, active: nat, avgDuration: int)

  /** `curr.durationMinutes || 0`. */
  function DurationOrZero(r: Record): int
  {
    match r.durationMinutes
    case None => 0
    case Some(d) => d
  }

  /** `reduce((acc, curr) => acc + (curr.durationMinutes || 0), 0)`. */
  function TotalMinutes(s: seq<Record>): (t: int)
    ensures (forall i :: 0 <= i < |s| ==> DurationOrZero(s[i]) >= 0) ==> t >= 0
    decreases |s|
  {
    if s == [] then 0 else TotalMinutes(s[..|s| - 1]) + DurationOrZero(s[|s| - 1])
  }

  /**
   * `Math.round(sum / n)`: the nearest integer to the mean, halves rounded
   * up; in whole numbers, `floor((2 * sum + n) / (2 * n))`.
   */
  function RoundedMean(sum: int, n: nat): (m: int)
    requires n > 0
    ensures 2 * n * m - n <= 2 * sum < 2 * n * m + n
  {
    (2 * sum + n) / (2 * n)
  }

  /** No other integer is within the same half-open distance of the mean. */
  lemma RoundedMeanUnique(sum: int, n: nat, m: int)
    requires n > 0
    requires 2 * n * m - n <= 2 * sum < 2 * n * m + n
    ensures m == RoundedMean(sum, n)
  {
    var q := RoundedMean(sum, n);
    var a := 2 * sum + n;
    var w := 2 * n;
    assert w * m <= a < w * m + w;
    assert w * q <= a < w * q + w;
    if m < q {
      assert w * q == w * m + w * (q - m);
      MulAtLeast(w, q - m);
    } else if m > q {
      assert w * m == w * q + w * (m - q);
      MulAtLeast(w, m - q);
    }
  }

  lemma MulAtLeast(w: int, k: int)
    requires w > 0 && k >= 1
    ensures w * k >= w
  {
    assert w * k == w * (k - 1) + w;
    assert w * (k - 1) >= 0;
  }

  /** `stats`: the number of records, of open ones, and the rounded mean closed duration. */
  function ComputeStats(records: seq<Record>): (s: Stats)
    ensures s.total == |records| && s.active <= s.total
  {
    var completed := Filter(records, IsCompleted);
    Stats(
      |records|,
      |Filter(records, IsActive)|,
      if |completed| == 0 then 0 else RoundedMean(TotalMinutes(completed), |completed|))
  }

  /**
   * The total counts every record; the open and the closed records together
   * make up the total; the mean is 0 without closed records and otherwise
   * the rounded mean of their durations, missing ones counted as 0.
   */
  lemma StatsSpec(records: seq<Record>)
    ensures var s := ComputeStats(records);
      var completed := Filter(records, IsCompleted);
      && s.total == |records|
      && s.active <= s.total
      && s.active + |completed| == s.total
      && (|completed| == 0 ==> s.avgDuration == 0)
      && (|completed| > 0 ==>
            2 * |completed| * s.avgDuration - |completed| <= 2 * TotalMinutes(completed)
            < 2 * |completed| * s.avgDuration + |completed|)
  {
    FilterSplitsLength(records, IsActive, IsCompleted);
  }

  /** Two closed sessions of 30 and 90 minutes and one open session. */
  lemma StatsExample(a: Record, b: Record, c: Record)
    requires a.status == Completed && a.durationMinutes == Some(30)
    requires b.status == Completed && b.durationMinutes == Some(90)
    requires c.status == Active
    ensures ComputeStats([a, b, c]) == Stats(3, 1, 60)
  {
    var rs := [a, b, c];
    assert rs[1..] == [b, c] && [b, c][1..] == [c] && [c][1..] == [];
    assert Filter([c], IsCompleted) == [];
    assert Filter([b, c], IsCompleted) == [b];
    assert Filter(rs, IsCompleted) == [a, b];
    assert Filter([c], IsActive) == [c];
    assert Filter([b, c], IsActive) == [c];
    assert Filter(rs, IsActive) == [c];
    assert [a, b][..1] == [a] && [a][..0] == [];
    assert TotalMinutes([a]) == 30;
    assert TotalMinutes([a, b]) == 120;
  }

  // ----- CSV export -----

  /** The seven column titles; none of them can break a row or a line. */
  function Header(): (h: seq<string>)
    ensures |h| == 7
    ensures forall k :: 0 <= k < |h| ==> ',' !in h[k] && '\n' !in h[k]
  {
    ["Date", "Student Name", "System #", "Check In", "Check Out", "Duration (mins)", "Status"]
  }

  function StatusText(s: Status): (t: string)
    ensures t != [] && ',' !in t && '\n' !in t
  {
    match s
    case Active => "Active"
    case Completed => "Completed"
  }

  /** `r.durationMinutes || ''`: empty when there is no duration and also when it is 0. */
  function DurationCell(d: Option<int>): (cell: string)
    ensures cell == [] <==> d.None? || d == Some(0)
  {
    match d
    case None => []
    case Some(m) => if m == 0 then [] else IntToDecimal(m)
  }

  /** `r.checkOutTime || ''`. */
  function CheckOutCell(t: Option<string>): (cell: string)
    ensures cell == [] <==> t.None? || t == Some([])
  {
    match t
    case None => []
    case Some(v) => v
  }

  /** The seven cells of a record's row; the name is always put between double quotes, unescaped. */
  function RowCells(r: Record): (cells: seq<string>)
    ensures |cells| == |Header()|
  {
    [r.date, "\"" + r.studentName + "\"", r.systemNumber, r.checkInTime,
     CheckOutCell(r.checkOutTime), DurationCell(r.durationMinutes), StatusText(r.status)]
  }

  function Row(r: Record): string
  {
    Join(RowCells(r), ",")
  }

  /** The header line followed by one row per record, in the given order. */
  function CsvLines(records: seq<Record>): (lines: seq<string>)
    ensures |lines| == 1 + |records|
    ensures lines[0] == Join(Header(), ",")
    ensures forall i :: 0 <= i < |records| ==> lines[i + 1] == Row(records[i])
  {
    [Join(Header(), ",")] + seq(|records|, i requires 0 <= i < |records| => Row(records[i]))
  }

  /** `csvContent`: the lines joined with line breaks. */
  function CsvContent(records: seq<Record>): string
  {
    Join(CsvLines(records), "\n")
  }

  /** The exported text, made from the list as filtered and sorted on screen. */
  function ExportCsv(records: seq<Record>, term: string, filter: StatusFilter): string
  {
    CsvContent(FilteredRecords(records, term, filter))
  }

  /** No text field of the record contains `c`. */
  predicate FieldsAvoid(r: Record, c: char)
  {
    && c !in r.date && c !in r.studentName && c !in r.systemNumber && c !in r.checkInTime
    && (r.checkOutTime.Some? ==> c !in r.checkOutTime.value)
  }

  /** A record whose fields contain no line break gives a row without one. */
  lemma RowWithoutBreak(r: Record)
    requires FieldsAvoid(r, '\n')
    ensures '\n' !in Row(r)
  {
    var cells := RowCells(r);
    if r.durationMinutes.Some? {
      IntToDecimalPlain(r.durationMinutes.value);
    }
    assert forall k :: 0 <= k < |cells| ==> '\n' !in cells[k];
    JoinAvoids(cells, ",", '\n');
  }

  /** A joined text holds a character only if some piece or the separator does. */
  lemma {:induction false} JoinAvoids(parts: seq<string>, sep: string, c: char)
    requires c !in sep
    requires forall k :: 0 <= k < |parts| ==> c !in parts[k]
    ensures c !in Join(parts, sep)
    decreases |parts|
  {
    if |parts| > 1 {
      JoinAvoids(parts[1..], sep, c);
    }
  }

  /**
   * When no field holds a line break, reading the export back line by line
   * gives the header and then exactly one row per record: `1 + |records|` lines.
   */
  lemma CsvLinesRoundTrip(records: seq<Record>)
    requires forall i :: 0 <= i < |records| ==> FieldsAvoid(records[i], '\n')
    ensures Split(CsvContent(records), '\n') == CsvLines(records)
    ensures |Split(CsvContent(records), '\n')| == 1 + |records|
  {
    var lines := CsvLines(records);
    forall k | 0 <= k < |lines| ensures '\n' !in lines[k] {
      if k == 0 {
        JoinAvoids(Header(), ",", '\n');
      } else {
        RowWithoutBreak(records[k - 1]);
      }
    }
    SplitJoin(lines, '\n');
  }

  /**
   * When no field holds a comma, cutting a row at the commas gives back its
   * seven cells: the date, the quoted name, the system, the check-in time,
   * the check-out time (empty when open), the duration (empty when absent or
   * 0) and the status.
   */
  lemma RowRoundTrip(r: Record)
    requires FieldsAvoid(r, ',')
    ensures Split(Row(r), ',') == RowCells(r)
    ensures Split(Row(r), ',')[1] == "\"" + r.studentName + "\""
    ensures Split(Row(r), ',')[4] == [] <==> r.checkOutTime.None? || r.checkOutTime == Some([])
    ensures Split(Row(r), ',')[5] == [] <==> r.durationMinutes.None? || r.durationMinutes == Some(0)
  {
    var cells := RowCells(r);
    if r.durationMinutes.Some? {
      IntToDecimalPlain(r.durationMinutes.value);
    }
    assert ',' !in cells[1] by {
      assert cells[1] == ['"'] + r.studentName + ['"'];
    }
    assert forall k :: 0 <= k < |cells| ==> ',' !in cells[k];
    SplitJoin(cells, ',');
  }

  // ----- Duration column -----

  /** The table's duration: `"<h>h <m>m"`, or `-` when there is none or it is 0. */
  function DurationLabel(d: Option<int>): (shown: string)
    ensures shown == "-" <==> d.None? || d == Some(0)
  {
    match d
    case None => "-"
    case Some(m) =>
      if m == 0 then "-"
      else
        var hm := HoursMinutes(m);
        IntToDecimal(hm.0) + "h " + IntToDecimal(hm.1) + "m"
  }

  /**
   * A positive duration shows as `"<h>h <m>m"`: canonical decimal texts of
   * whole hours and of the remaining minutes, below 60, which together give
   * the duration back.
   */
  lemma DurationLabelSplits(m: nat)
    requires m > 0
    ensures var hs, ms := NatToDecimal(m / 60), NatToDecimal(m % 60);
      && DurationLabel(Some(m)) == hs + "h " + ms + "m"
      && DecimalValue(ms) < 60
      && DecimalValue(hs) * 60 + DecimalValue(ms) == m
  {
    DecimalRoundTrip(m / 60);
    DecimalRoundTrip(m % 60);
  }
}
