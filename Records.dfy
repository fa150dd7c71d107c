/**
 * The article record: how the fetcher renders one search-API document as
 * a line `"<headline> | Published on: <date> <time>"`, how the analysis
 * phase cuts those lines back into `headline`, `pub_date` and `pub_time`
 * columns, and the ordering of the resulting table by `(pub_date, pub_time)`.
 */
module Records {
  import opened Wrappers
  import opened Strings

  /** The literal the fetcher writes between the headline and the timestamp. */
  const Separator: string := " | Published on: "

  /** One document of a search-API page: `headline.main` and `pub_date`. */
  datatype Doc = Doc(headline: string, pubDate: string)

  /**
   * `pub_date.replace('T', ' ').split('+')[0]`: every `T` becomes a space and
   * the text is cut before its first `+`.
   */
  function FormatPubDate(raw: string): (r: string)
    ensures |r| <= |raw|
    ensures forall k :: 0 <= k < |r| ==> r[k] == (if raw[k] == 'T' then ' ' else raw[k])
    ensures |r| == |raw| || raw[|r|] == '+'
    ensures '+' !in r && 'T' !in r
  {
    var replaced := ReplaceChar(raw, 'T', ' ');
    var r := Split(replaced, "+")[0];
    SplitHead(replaced, "+");
    ContainsChar(r, '+');
    assert |r| < |raw| ==> replaced[|r|..|r| + 1] == "+";
    r
  }

  /** Normalising an already normalised timestamp changes nothing. */
  lemma FormatPubDateIdempotent(raw: string)
    ensures FormatPubDate(FormatPubDate(raw)) == FormatPubDate(raw)
  {
    var once := FormatPubDate(raw);
    var twice := FormatPubDate(once);
  }

  /** The API's `YYYY-MM-DDThh:mm:ss+zone` shape becomes `YYYY-MM-DD hh:mm:ss`. */
  lemma {:induction false} FormatIsoTimestamp(date: string, time: string, zone: string)
    requires 'T' !in date && '+' !in date && 'T' !in time && '+' !in time
    ensures FormatPubDate(date + "T" + time + "+" + zone) == date + " " + time
  {
    var raw := date + "T" + time + "+" + zone;
    var expected := date + " " + time;
    var n := |expected|;
    forall k | 0 <= k < n
      ensures raw[k] != '+' && (if raw[k] == 'T' then ' ' else raw[k]) == expected[k]
    {
      if k < |date| {
        assert raw[k] == date[k] && expected[k] == date[k];
      } else if k > |date| {
        assert raw[k] == time[k - |date| - 1] && expected[k] == time[k - |date| - 1];
      }
    }
    assert raw[n] == '+';
    var r := FormatPubDate(raw);
    assert |r| == n;
  }

  /** The line the fetcher appends for one document. */
  function FormatArticle(doc: Doc): string
  {
    doc.headline + Separator + FormatPubDate(doc.pubDate)
  }

  /** A row of the table: pandas leaves a cell empty (NaN) where a split produced no piece. */
  datatype Row = Row(headline: string, pubDate: Option<string>, pubTime: Option<string>)

  /** Why assigning the split pieces to two named columns fails. */
  datatype ColumnError = HeadlineColumns(width: nat) | DateColumns(width: nat)

  /**
   * The pieces of `line` cut at the separator. The source passes the regular
   * expression ` \| Published on: `, which matches only this literal text, so
   * cutting at the literal gives the same pieces.
   */
  function HeadlineCells(line: string): seq<string>
  {
    Split(line, Separator)
  }

  /** The `pub_info` cell: present when the line cut into exactly two pieces. */
  function PubInfo(line: string): Option<string>
  {
    var cells := HeadlineCells(line);
    if |cells| == 2 then Some(cells[1]) else None
  }

  /** The pieces of the `pub_info` cell cut at spaces (none when the cell is empty). */
  function DateCells(line: string): seq<string>
  {
    match PubInfo(line)
    case None => []
    case Some(info) => Split(info, " ")
  }

  /** The row one line becomes once both splits are assigned to their columns. */
  function RowOf(line: string): Row
  {
    var date := DateCells(line);
    Row(HeadlineCells(line)[0],
        if |date| >= 1 then Some(date[0]) else None,
        if |date| == 2 then Some(date[1]) else None)
  }

  /** The line a row stands for: the inverse of the two splits. */
  function RowText(row: Row): string
  {
    row.headline +
    match row.pubDate
    case None => ""
    case Some(date) => Separator + date + (match row.pubTime case None => "" case Some(time) => " " + time)
  }

  /** Number of columns `str.split(..., expand=True)` produces: the most pieces of any row. */
  function Width(cells: seq<seq<string>>): (w: nat)
    ensures forall i :: 0 <= i < |cells| ==> |cells[i]| <= w
    ensures |cells| == 0 ==> w == 0
    ensures |cells| > 0 ==> exists i :: 0 <= i < |cells| && |cells[i]| == w
    decreases |cells|
  {
    if |cells| == 0 then 0
    else
      var rest := Width(cells[1..]);
      assert forall i :: 1 <= i < |cells| ==> cells[i] == cells[1..][i - 1];
      if |cells[0]| >= rest then |cells[0]| else rest
  }

  /**
   * Lines 80-84: split every line at the separator into `headline` and
   * `pub_info`, then `pub_info` at spaces into `pub_date` and `pub_time`.
   * pandas pads short rows with NaN and refuses the assignment when the
   * widest row does not have exactly two pieces.
   */
  function SplitColumns(lines: seq<string>): Result<seq<Row>, ColumnError>
  {
    var heads := seq(|lines|, i requires 0 <= i < |lines| => HeadlineCells(lines[i]));
    var dates := seq(|lines|, i requires 0 <= i < |lines| => DateCells(lines[i]));
    if Width(heads) != 2 then Err(HeadlineColumns(Width(heads)))
    else if Width(dates) != 2 then Err(DateColumns(Width(dates)))
    else Ok(seq(|lines|, i requires 0 <= i < |lines| => RowOf(lines[i])))
  }

  /**
   * When the split succeeds it loses nothing: one row per line, each row
   * rebuilds its line, and a row has no date exactly when its line has no
   * separator.
   */
  lemma SplitColumnsLossless(lines: seq<string>)
    ensures SplitColumns(lines).Ok? ==> |SplitColumns(lines).value| == |lines|
    ensures SplitColumns(lines).Ok? ==> forall i :: 0 <= i < |lines| ==>
      SplitColumns(lines).value[i] == RowOf(lines[i]) && RowText(RowOf(lines[i])) == lines[i]
    ensures SplitColumns(lines).Ok? ==> forall i :: 0 <= i < |lines| ==>
      (RowOf(lines[i]).pubDate.None? <==> !Contains(lines[i], Separator))
  {
    var heads := seq(|lines|, i requires 0 <= i < |lines| => HeadlineCells(lines[i]));
    var dates := seq(|lines|, i requires 0 <= i < |lines| => DateCells(lines[i]));
    if Width(heads) == 2 && Width(dates) == 2 {
      forall i | 0 <= i < |lines|
        ensures RowText(RowOf(lines[i])) == lines[i]
        ensures RowOf(lines[i]).pubDate.None? <==> !Contains(lines[i], Separator)
      {
        assert |heads[i]| <= 2 && |dates[i]| <= 2;
        RowOfLossless(lines[i]);
      }
    }
  }

  /** A text is cut into at least two pieces exactly when it contains `sep`. */
  lemma SplitCount(text: string, sep: string)
    requires sep != []
    ensures Contains(text, sep) <==> |Split(text, sep)| >= 2
  {
  }

  lemma Regroup(a: string, b: string, c: string, d: string)
    ensures a + (b + c + d) == a + b + (c + d)
  {
  }

  /** The `pub_info` cell is rebuilt from its date and, when there is one, its time. */
  lemma {:induction false} PubInfoLossless(info: string)
    requires |Split(info, " ")| <= 2
    ensures var date := Split(info, " ");
      info == date[0] + (if |date| == 2 then " " + date[1] else "")
  {
    SplitAtMostOnce(info, " ");
    var date := Split(info, " ");
    if |date| == 2 {
      assert date[0] + " " + date[1] == date[0] + (" " + date[1]);
    } else {
      assert date[0] + "" == date[0];
    }
  }

  /** A line that splits into at most two pieces at each step is rebuilt exactly from its row. */
  lemma {:induction false} RowOfLossless(line: string)
    requires |HeadlineCells(line)| <= 2 && |DateCells(line)| <= 2
    ensures RowText(RowOf(line)) == line
    ensures RowOf(line).pubDate.None? <==> !Contains(line, Separator)
  {
    SplitCount(line, Separator);
    SplitAtMostOnce(line, Separator);
    var cells := HeadlineCells(line);
    if |cells| == 2 {
      var date := Split(cells[1], " ");
      PubInfoLossless(cells[1]);
      var time := if |date| == 2 then " " + date[1] else "";
      assert RowText(RowOf(line)) == cells[0] + (Separator + date[0] + time);
      Regroup(cells[0], Separator, date[0], time);
    }
  }

  lemma WidthIsTwo(cells: seq<seq<string>>)
    ensures Width(cells) == 2 <==>
      (forall i :: 0 <= i < |cells| ==> |cells[i]| <= 2) && (exists i :: 0 <= i < |cells| && |cells[i]| == 2)
  {
  }

  /**
   * The split succeeds exactly when no line holds the separator twice or a
   * second space after it, and some line fills each of the `pub_info` and
   * `pub_time` columns. In particular an empty table fails.
   */
  lemma SplitColumnsSucceeds(lines: seq<string>)
    ensures SplitColumns(lines).Ok? <==>
      (forall i :: 0 <= i < |lines| ==> |HeadlineCells(lines[i])| <= 2 && |DateCells(lines[i])| <= 2)
      && (exists i :: 0 <= i < |lines| && Contains(lines[i], Separator))
      && (exists i :: 0 <= i < |lines| && |DateCells(lines[i])| == 2)
  {
    var heads := seq(|lines|, i requires 0 <= i < |lines| => HeadlineCells(lines[i]));
    var dates := seq(|lines|, i requires 0 <= i < |lines| => DateCells(lines[i]));
    WidthIsTwo(heads);
    WidthIsTwo(dates);
    forall i | 0 <= i < |lines|
      ensures heads[i] == HeadlineCells(lines[i]) && dates[i] == DateCells(lines[i])
      ensures |heads[i]| <= 2 ==> (Contains(lines[i], Separator) <==> |heads[i]| == 2)
    {
      SplitCount(lines[i], Separator);
    }
  }

  /** The separator occurs in `h + Separator + rest` first at `|h|` unless it already occurs in `h + " "`. */
  lemma SeparatorFirstAt(h: string, rest: string)
    requires !Contains(h + " ", Separator)
    ensures OccursAt(h + Separator + rest, Separator, |h|)
    ensures forall j :: 0 <= j < |h| ==> !OccursAt(h + Separator + rest, Separator, j)
  {
    var line := h + Separator + rest;
    assert line[|h|..|h| + |Separator|] == Separator;
    forall j | 0 <= j < |h| ensures !OccursAt(line, Separator, j) {
      if j + |Separator| <= |h| + 1 {
        forall i | j <= i < j + |Separator| ensures (h + " ")[i] == line[i] {
          if i == |h| {
            assert line[i] == Separator[0];
          }
        }
        assert (h + " ")[j..j + |Separator|] == line[j..j + |Separator|];
        assert !OccursAt(h + " ", Separator, j);
      } else if j + |Separator| <= |line| {
        // the '|' of the real separator sits at offset k >= 2 of this window
        var k := |h| + 1 - j;
        assert line[j..j + |Separator|][k] == line[|h| + 1] == '|';
        assert Separator[k] != '|';
      }
    }
  }

  /** A date and time without spaces, joined by one space, hold no separator. */
  lemma NoSeparatorInDateTime(d: string, t: string)
    requires ' ' !in d && ' ' !in t
    ensures !Contains(d + " " + t, Separator)
  {
    var rest := d + " " + t;
    forall k | 0 <= k < |rest| && k != |d| ensures rest[k] != ' ' {
      if k < |d| {
        assert rest[k] == d[k];
      } else {
        assert rest[k] == t[k - |d| - 1];
      }
    }
    forall q | 0 <= q && q + |Separator| <= |rest| ensures !OccursAt(rest, Separator, q) {
      // a window holding the separator has spaces at offsets 0 and 2
      assert rest[q..q + |Separator|][0] == rest[q];
      assert rest[q..q + |Separator|][2] == rest[q + 2];
      assert Separator[0] == ' ' && Separator[2] == ' ';
    }
  }

  /** A timestamp `d + " " + t` without further spaces splits into `[d, t]`. */
  lemma SplitDateTime(d: string, t: string)
    requires ' ' !in d && ' ' !in t
    ensures Split(d + " " + t, " ") == [d, t]
  {
    var rest := d + " " + t;
    assert rest[|d|..|d| + 1] == " ";
    forall j | 0 <= j < |d| ensures !OccursAt(rest, " ", j) {
      assert rest[j..j + 1][0] == rest[j] == d[j];
    }
    SplitAtFirst(rest, " ", |d|);
    assert rest[..|d|] == d && rest[|d| + 1..] == t;
    ContainsChar(t, ' ');
    SplitWithout(t, " ");
  }

  /**
   * Formatting then splitting recovers headline, date and time whenever the
   * date and time hold no space and the separator does not already occur in
   * the headline followed by one space.
   */
  lemma FormatSplitRoundTrip(h: string, d: string, t: string)
    requires !Contains(h + " ", Separator) && ' ' !in d && ' ' !in t
    ensures RowOf(h + Separator + d + " " + t) == Row(h, Some(d), Some(t))
    ensures SplitColumns([h + Separator + d + " " + t]) == Ok([Row(h, Some(d), Some(t))])
  {
    var rest := d + " " + t;
    var line := h + Separator + rest;
    assert line == h + Separator + d + " " + t;
    SeparatorFirstAt(h, rest);
    SplitAtFirst(line, Separator, |h|);
    assert line[..|h|] == h && line[|h| + |Separator|..] == rest;
    NoSeparatorInDateTime(d, t);
    SplitWithout(rest, Separator);
    assert HeadlineCells(line) == [h, rest];
    SplitDateTime(d, t);
    assert DateCells(line) == [d, t];
    SplitOneLine(line);
  }

  /** A table of one line fails or succeeds as that line's own cells decide. */
  lemma SplitOneLine(line: string)
    ensures |HeadlineCells(line)| == 2 && |DateCells(line)| == 2 ==> SplitColumns([line]) == Ok([RowOf(line)])
  {
    var heads := seq(1, i requires 0 <= i < 1 => HeadlineCells([line][i]));
    var dates := seq(1, i requires 0 <= i < 1 => DateCells([line][i]));
    assert heads == [HeadlineCells(line)] && dates == [DateCells(line)];
    WidthOfOne(HeadlineCells(line));
    WidthOfOne(DateCells(line));
    var rows := seq(1, i requires 0 <= i < 1 => RowOf([line][i]));
    assert rows == [RowOf(line)];
  }

  lemma WidthOfOne(cells: seq<string>)
    ensures Width([cells]) == |cells|
  {
    assert [cells][1..] == [];
  }

  /**
   * The whole path of one document: an API timestamp `d + "T" + t + "+" + zone`
   * comes back out of the table as the date `d` and the time `t`.
   */
  lemma ArticleRoundTrip(doc: Doc, d: string, t: string, zone: string)
    requires doc.pubDate == d + "T" + t + "+" + zone
    requires 'T' !in d && '+' !in d && ' ' !in d && 'T' !in t && '+' !in t && ' ' !in t
    requires !Contains(doc.headline + " ", Separator)
    ensures RowOf(FormatArticle(doc)) == Row(doc.headline, Some(d), Some(t))
    ensures SplitColumns([FormatArticle(doc)]) == Ok([Row(doc.headline, Some(d), Some(t))])
  {
    FormatIsoTimestamp(d, t, zone);
    assert FormatArticle(doc) == doc.headline + Separator + d + " " + t;
    FormatSplitRoundTrip(doc.headline, d, t);
  }

  /** pandas' order on one nullable string column: values ascending, NaN last. */
  predicate CellLe(a: Option<string>, b: Option<string>)
  {
    b.None? || (a.Some? && LexLe(a.value, b.value))
  }

  /** Line 97: `sort_values(by=['pub_date', 'pub_time'])`, date first, then time. */
  predicate RowLe(a: Row, b: Row)
  {
    !CellLe(b.pubDate, a.pubDate) || (a.pubDate == b.pubDate && CellLe(a.pubTime, b.pubTime))
  }

  lemma CellLeTotal(a: Option<string>, b: Option<string>)
    ensures CellLe(a, b) || CellLe(b, a)
  {
    if a.Some? && b.Some? {
      LexLeTotal(a.value, b.value);
    }
  }

  lemma CellLeAntisymmetric(a: Option<string>, b: Option<string>)
    requires CellLe(a, b) && CellLe(b, a)
    ensures a == b
  {
    if a.Some? && b.Some? {
      LexLeAntisymmetric(a.value, b.value);
    }
  }

  lemma CellLeTransitive(a: Option<string>, b: Option<string>, c: Option<string>)
    requires CellLe(a, b) && CellLe(b, c)
    ensures CellLe(a, c)
  {
    if a.Some? && b.Some? && c.Some? {
      LexLeTransitive(a.value, b.value, c.value);
    }
  }

  /** Any two rows are ordered one way or the other. */
  lemma RowLeTotal(a: Row, b: Row)
    ensures RowLe(a, b) || RowLe(b, a)
  {
    CellLeTotal(a.pubDate, b.pubDate);
    CellLeTotal(a.pubTime, b.pubTime);
    if CellLe(a.pubDate, b.pubDate) && CellLe(b.pubDate, a.pubDate) {
      CellLeAntisymmetric(a.pubDate, b.pubDate);
    }
  }

  lemma RowLeTransitive(a: Row, b: Row, c: Row)
    requires RowLe(a, b) && RowLe(b, c)
    ensures RowLe(a, c)
  {
    CellLeTotal(a.pubDate, b.pubDate);
    CellLeTotal(b.pubDate, c.pubDate);
    CellLeTotal(a.pubDate, c.pubDate);
    if CellLe(c.pubDate, a.pubDate) {
      // a's date is not below b's and b's is not below c's, so all three agree
      if !CellLe(b.pubDate, a.pubDate) {
        CellLeTransitive(c.pubDate, a.pubDate, b.pubDate);
      } else if !CellLe(c.pubDate, b.pubDate) {
        CellLeTransitive(b.pubDate, c.pubDate, a.pubDate);
      } else {
        CellLeTransitive(c.pubDate, a.pubDate, b.pubDate);
        CellLeAntisymmetric(a.pubDate, b.pubDate);
        CellLeAntisymmetric(b.pubDate, c.pubDate);
        CellLeTransitive(a.pubTime, b.pubTime, c.pubTime);
      }
    }
  }

  predicate SortedRows(rows: seq<Row>)
  {
    forall i, j :: 0 <= i < j < |rows| ==> RowLe(rows[i], rows[j])
  }

  /** Insert one row before the first row it does not follow. */
  function InsertRow(r: Row, rows: seq<Row>): seq<Row>
    decreases |rows|
  {
    if rows == [] then [r]
    else if RowLe(r, rows[0]) then [r] + rows
    else [rows[0]] + InsertRow(r, rows[1..])
  }

  /** The table ordered by `(pub_date, pub_time)`; rows with equal keys keep their input order. */
  function SortRows(rows: seq<Row>): seq<Row>
    decreases |rows|
  {
    if rows == [] then [] else InsertRow(rows[0], SortRows(rows[1..]))
  }

  /** Inserting adds the one row and keeps every other. */
  lemma {:induction false} InsertRowPermutes(r: Row, rows: seq<Row>)
    ensures multiset(InsertRow(r, rows)) == multiset(rows) + multiset{r}
    decreases |rows|
  {
    if rows != [] && !RowLe(r, rows[0]) {
      InsertRowPermutes(r, rows[1..]);
      assert rows == [rows[0]] + rows[1..];
    }
  }

  /** Inserting into a sorted table keeps it sorted. */
  lemma {:induction false} InsertRowKeepsOrder(r: Row, rows: seq<Row>)
    requires SortedRows(rows)
    ensures SortedRows(InsertRow(r, rows))
    decreases |rows|
  {
    if rows != [] && !RowLe(r, rows[0]) {
      InsertRowKeepsOrder(r, rows[1..]);
      InsertRowPermutes(r, rows[1..]);
      RowLeTotal(r, rows[0]);
      var tail := InsertRow(r, rows[1..]);
      forall k | 0 <= k < |tail| ensures RowLe(rows[0], tail[k]) {
        assert tail[k] in multiset(tail);
        if tail[k] != r {
          assert tail[k] in rows[1..];
          var m :| 0 <= m < |rows[1..]| && rows[1..][m] == tail[k];
          assert rows[m + 1] == tail[k];
        }
      }
      assert InsertRow(r, rows) == [rows[0]] + tail;
    } else if rows != [] {
      forall j | 0 < j < |rows| ensures RowLe(r, rows[j]) {
        RowLeTransitive(r, rows[0], rows[j]);
      }
    }
  }

  /** Sorting orders the table by `(pub_date, pub_time)`. */
  lemma {:induction false} SortRowsSorted(rows: seq<Row>)
    ensures SortedRows(SortRows(rows))
    decreases |rows|
  {
    if rows != [] {
      SortRowsSorted(rows[1..]);
      InsertRowKeepsOrder(rows[0], SortRows(rows[1..]));
    }
  }

  /** Sorting keeps exactly the same rows. */
  lemma {:induction false} SortRowsPermutes(rows: seq<Row>)
    ensures multiset(SortRows(rows)) == multiset(rows)
    decreases |rows|
  {
    if rows != [] {
      SortRowsPermutes(rows[1..]);
      InsertRowPermutes(rows[0], SortRows(rows[1..]));
      assert rows == [rows[0]] + rows[1..];
    }
  }

  /** Lines 80-97: split the lines into columns, then sort the rows. */
  function Normalize(lines: seq<string>): Result<seq<Row>, ColumnError>
  {
    match SplitColumns(lines)
    case Err(e) => Err(e)
    case Ok(rows) => Ok(SortRows(rows))
  }

  /**
   * A normalised table is sorted and holds exactly one row per input line,
   * the row that line splits into.
   */
  lemma NormalizeCorrect(lines: seq<string>)
    ensures Normalize(lines).Ok? <==> SplitColumns(lines).Ok?
    ensures Normalize(lines).Ok? ==> SortedRows(Normalize(lines).value)
    ensures Normalize(lines).Ok? ==>
      multiset(Normalize(lines).value) == multiset(seq(|lines|, i requires 0 <= i < |lines| => RowOf(lines[i])))
  {
    if SplitColumns(lines).Ok? {
      var rows := SplitColumns(lines).value;
      SortRowsSorted(rows);
      SortRowsPermutes(rows);
      assert rows == seq(|lines|, i requires 0 <= i < |lines| => RowOf(lines[i]));
    }
  }
}
