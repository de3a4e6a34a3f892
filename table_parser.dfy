/** `parseMarkdownTable`: turns the text of a pipe-delimited markdown table into
    the list of its data rows, each a dictionary from column header to cell. */
module TableParser {
  import opened Wrappers
  import opened Text

  /** A parsed row: column header to trimmed cell. */
  type Row = map<string, string>

  /** The column whose cells must be non-empty, and that the aggregator keys on. */
  const ReferralCode: string := "Referral Code"

  /** A line starting with this is a markdown separator row. */
  const SeparatorMarker: string := "|---"

  /** A string as `filter(Boolean)` sees it: kept unless it is empty. */
  function NonBlank(x: string): Option<string>
  {
    if x == [] then None else Some(x)
  }

  /** `filter(Boolean)` on strings: drops the empty strings. */
  function NonEmpty(parts: seq<string>): (r: seq<string>)
    ensures |r| <= |parts|
  {
    FilterMapShorter(NonBlank, parts);
    FilterMap(NonBlank, parts)
  }

  /** `filter(Boolean)` keeps exactly the non-empty strings. */
  lemma {:induction false} NonEmptyKeeps(parts: seq<string>)
    ensures forall x :: x in NonEmpty(parts) <==> x in parts && x != []
  {
    if parts != [] {
      var n := |parts| - 1;
      NonEmptyKeeps(parts[..n]);
      assert parts == parts[..n] + [parts[n]];
    }
  }

  /** `filter(Boolean)` keeps the non-empty strings in order, each as often
      as it occurs: the k-th kept string is the one at the k-th non-empty
      position, and every non-empty position is kept. */
  lemma NonEmptyFollowsInput(parts: seq<string>)
    ensures var r, idx := NonEmpty(parts), KeptIndices(NonBlank, parts, 0);
      |r| == |idx|
      && (forall k :: 0 <= k < |idx| ==> idx[k] < |parts| && r[k] == parts[idx[k]])
      && (forall k, l :: 0 <= k < l < |idx| ==> idx[k] < idx[l])
      && (forall j :: 0 <= j < |parts| && parts[j] != [] ==> j in idx)
  {
    FilterMapFollowsInput(NonBlank, parts, 0);
    assert parts[0..] == parts;
  }

  /** `line.split("|").map((c) => c.trim()).filter(Boolean)`. */
  function Cells(line: string): (cells: seq<string>)
    ensures |cells| <= |Split(line, '|')|
  {
    NonEmpty(Pieces(line))
  }

  /** `line.split("|").map((c) => c.trim())`. */
  function Pieces(line: string): (trimmed: seq<string>)
    ensures |trimmed| == |Split(line, '|')|
  {
    var pieces := Split(line, '|');
    seq(|pieces|, k requires 0 <= k < |pieces| => Trim(pieces[k]))
  }

  /** The cells are, in order, the pieces of the line between delimiters
      that are not blank once trimmed, each trimmed: the k-th cell is the
      trimmed k-th such piece. */
  lemma CellsInOrder(line: string)
    ensures var pieces, trimmed := Split(line, '|'), Pieces(line);
      var cells, idx := Cells(line), KeptIndices(NonBlank, trimmed, 0);
      |cells| == |idx|
      && (forall k :: 0 <= k < |idx| ==> idx[k] < |pieces| && cells[k] == Trim(pieces[idx[k]]))
      && (forall k, l :: 0 <= k < l < |idx| ==> idx[k] < idx[l])
      && (forall j :: 0 <= j < |pieces| && Trim(pieces[j]) != [] ==> j in idx)
  {
    NonEmptyFollowsInput(Pieces(line));
  }

  /** Every cell is non-empty, trimmed and free of the delimiter. */
  lemma CellsWellFormed(line: string)
    ensures forall c :: c in Cells(line) ==> c != [] && IsTrimmed(c) && '|' !in c
  {
    var pieces, trimmed := Split(line, '|'), Pieces(line);
    NonEmptyKeeps(trimmed);
    JoinSplit(line, '|');
    forall c | c in Cells(line)
      ensures c != [] && IsTrimmed(c) && '|' !in c
    {
      var j :| 0 <= j < |pieces| && trimmed[j] == c;
      if '|' in c {
        TrimKeeps(pieces[j], '|');
      }
    }
  }

  /** `headers.reduce((acc, header, idx) => { acc[header] = row[idx]; ... }, {})`. */
  function RowDict(headers: seq<string>, row: seq<string>): Row
    requires |row| == |headers|
  {
    if headers == [] then map[]
    else
      var n := |headers| - 1;
      RowDict(headers[..n], row[..n])[headers[n] := row[n]]
  }

  /** The dictionary has one key per header and no other. */
  lemma {:induction false} RowDictKeys(headers: seq<string>, row: seq<string>)
    requires |row| == |headers|
    ensures RowDict(headers, row).Keys == set h | h in headers
  {
    if headers != [] {
      var n := |headers| - 1;
      RowDictKeys(headers[..n], row[..n]);
      assert headers == headers[..n] + [headers[n]];
    }
  }

  /** Every value of the dictionary is a cell of the row, and under a header
      stands the cell of its LAST column (a repeated header is overwritten by
      the later column); with distinct headers, header j maps to cell j. */
  lemma RowDictValues(headers: seq<string>, row: seq<string>)
    requires |row| == |headers|
    ensures forall j :: 0 <= j < |headers| ==> headers[j] in RowDict(headers, row)
    ensures forall h :: h in RowDict(headers, row) ==> RowDict(headers, row)[h] in row
    ensures forall j :: 0 <= j < |headers| && (forall k :: j < k < |headers| ==> headers[k] != headers[j])
                        ==> RowDict(headers, row)[headers[j]] == row[j]
  {
    RowDictKeys(headers, row);
    RowDictValuesAreCells(headers, row);
    RowDictLastColumn(headers, row);
  }

  /** Every value of the dictionary is a cell of the row. */
  lemma {:induction false} RowDictValuesAreCells(headers: seq<string>, row: seq<string>)
    requires |row| == |headers|
    ensures forall h :: h in RowDict(headers, row) ==> RowDict(headers, row)[h] in row
  {
    if headers != [] {
      var n := |headers| - 1;
      RowDictValuesAreCells(headers[..n], row[..n]);
      assert row == row[..n] + [row[n]];
    }
  }

  /** Under a header stands the cell of its last column. */
  lemma RowDictLastColumn(headers: seq<string>, row: seq<string>)
    requires |row| == |headers|
    ensures forall j :: 0 <= j < |headers| && (forall k :: j < k < |headers| ==> headers[k] != headers[j])
                        ==> headers[j] in RowDict(headers, row) && RowDict(headers, row)[headers[j]] == row[j]
  {
    forall j | 0 <= j < |headers| && (forall k :: j < k < |headers| ==> headers[k] != headers[j])
      ensures headers[j] in RowDict(headers, row) && RowDict(headers, row)[headers[j]] == row[j]
    {
      RowDictAt(headers, row, j);
    }
  }

  /** The header at position `j`, not repeated later, gets cell `j`. */
  lemma {:induction false} RowDictAt(headers: seq<string>, row: seq<string>, j: nat)
    requires |row| == |headers| && j < |headers|
    requires forall k :: j < k < |headers| ==> headers[k] != headers[j]
    ensures headers[j] in RowDict(headers, row) && RowDict(headers, row)[headers[j]] == row[j]
  {
    var n := |headers| - 1;
    if j < n {
      var hs, rs := headers[..n], row[..n];
      assert hs[j] == headers[j] && rs[j] == row[j];
      assert headers[n] != headers[j];
      RowDictAt(hs, rs, j);
    }
  }

  /** The lines of the table: `markdown.split("\n")`. */
  function Lines(markdown: string): (lines: seq<string>)
    ensures |lines| >= 1
  {
    Split(markdown, '\n')
  }

  /** The header row's cells. */
  function Headers(markdown: string): seq<string>
  {
    Cells(Lines(markdown)[0])
  }

  /** A trimmed line that is neither blank nor a separator row. */
  predicate IsContentLine(line: string) {
    line != [] && !StartsWith(line, SeparatorMarker)
  }

  /** What one line, from line 2 on, contributes: nothing if it is blank or a
      separator row after trimming, nothing if its cell count differs from the
      header count, nothing if there is a "Referral Code" column and its cell
      is blank or missing (the optional chaining `?.trim()`), and otherwise its
      header-to-cell dictionary. */
  function LineRow(headers: seq<string>, raw: string): Option<Row>
  {
    var line := Trim(raw);
    if !IsContentLine(line) then None
    else
      var row := Cells(line);
      if |row| != |headers| then None
      else
        var rowDict := RowDict(headers, row);
        if ReferralCode in headers && (ReferralCode !in rowDict || Trim(rowDict[ReferralCode]) == []) then None
        else Some(rowDict)
  }

  /** `LineRow` for a fixed header row, as a function value. */
  function LineRowOf(headers: seq<string>): string -> Option<Row>
  {
    raw => LineRow(headers, raw)
  }

  /** The values `f` yields on `xs`, in order; elements it maps to None are
      skipped. */
  function FilterMap<T, U>(f: T -> Option<U>, xs: seq<T>): seq<U>
  {
    if xs == [] then []
    else
      var n := |xs| - 1;
      FilterMap(f, xs[..n]) + (if f(xs[n]).Some? then [f(xs[n]).value] else [])
  }

  /** One more element at the end contributes its value, if any, at the end. */
  lemma FilterMapSnoc<T, U>(f: T -> Option<U>, xs: seq<T>, lo: nat, hi: nat)
    requires lo <= hi < |xs|
    ensures FilterMap(f, xs[lo..hi + 1])
         == FilterMap(f, xs[lo..hi]) + (if f(xs[hi]).Some? then [f(xs[hi]).value] else [])
  {
    assert xs[lo..hi + 1][..hi - lo] == xs[lo..hi];
  }

  /** Filtering never lengthens. */
  lemma {:induction false} FilterMapShorter<T, U>(f: T -> Option<U>, xs: seq<T>)
    ensures |FilterMap(f, xs)| <= |xs|
  {
    if xs != [] {
      FilterMapShorter(f, xs[..|xs| - 1]);
    }
  }

  /** The positions, from `lo` on, of the elements `f` yields a value for,
      in increasing order. */
  ghost function KeptIndices<T, U>(f: T -> Option<U>, xs: seq<T>, lo: nat): seq<nat>
    requires lo <= |xs|
    decreases |xs|
  {
    if |xs| == lo then []
    else
      var n := |xs| - 1;
      KeptIndices(f, xs[..n], lo) + (if f(xs[n]).Some? then [n] else [])
  }

  /** `FilterMap` keeps order and loses nothing: on the elements from position
      `lo` on, its k-th value is what `f` yields at the k-th kept position, the
      kept positions increase, and every position where `f` yields a value is
      kept. */
  lemma {:induction false} FilterMapFollowsInput<T, U>(f: T -> Option<U>, xs: seq<T>, lo: nat)
    requires lo <= |xs|
    ensures var ys, idx := FilterMap(f, xs[lo..]), KeptIndices(f, xs, lo);
      |ys| == |idx|
      && (forall k :: 0 <= k < |idx| ==> lo <= idx[k] < |xs| && f(xs[idx[k]]) == Some(ys[k]))
      && (forall k, l :: 0 <= k < l < |idx| ==> idx[k] < idx[l])
      && (forall j :: lo <= j < |xs| && f(xs[j]).Some? ==> j in idx)
    decreases |xs|
  {
    if |xs| > lo {
      var n := |xs| - 1;
      FilterMapFollowsInput(f, xs[..n], lo);
      FilterMapSnoc(f, xs, lo, n);
      assert xs[..n][lo..] == xs[lo..n];
      assert xs[lo..n + 1] == xs[lo..];
      assert forall j :: 0 <= j < n ==> xs[..n][j] == xs[j];
    }
  }

  /** What `parseMarkdownTable` returns: line 0 gives the headers, line 1 is
      skipped unread, every later line is a candidate data row. */
  function ParsedRows(markdown: string): seq<Row>
  {
    var lines := Lines(markdown);
    if |lines| <= 2 then [] else FilterMap(LineRowOf(Cells(lines[0])), lines[2..])
  }

  /** One iteration of the loop of `parseMarkdownTable` on line `raw`: each
      `continue` gives None, the `data.push(rowDict)` gives the row. */
  method ParseLine(headers: seq<string>, hasReferralCode: bool, raw: string) returns (r: Option<Row>)
    requires hasReferralCode == (ReferralCode in headers)
    ensures r == LineRowOf(headers)(raw)
  {
    r := None;
    var line := Trim(raw);
    if line != [] && !StartsWith(line, SeparatorMarker) {
      var row := Cells(line);
      if |row| == |headers| {
        var rowDict := RowDict(headers, row);
        if !(hasReferralCode && (ReferralCode !in rowDict || Trim(rowDict[ReferralCode]) == [])) {
          r := Some(rowDict);
        }
      }
    }
  }

  /** `parseMarkdownTable(markdown)`: line 0 gives the headers, then the loop
      over lines 2 and up. */
  method ParseMarkdownTable(markdown: string) returns (data: seq<Row>)
    ensures data == ParsedRows(markdown)
  {
    var lines := Split(markdown, '\n');
    var headers := Cells(lines[0]);
    data := ParseDataLines(headers, lines);
  }

  /** The `for` loop of `parseMarkdownTable`, from `i = 2` while `i < lines.length`. */
  method ParseDataLines(headers: seq<string>, lines: seq<string>) returns (data: seq<Row>)
    ensures data == if |lines| <= 2 then [] else FilterMap(LineRowOf(headers), lines[2..])
  {
    var hasReferralCode := ReferralCode in headers;
    data := [];
    var i := 2;
    while i < |lines|
      invariant 2 <= i && (i <= |lines| || i == 2)
      invariant data == if i <= |lines| then FilterMap(LineRowOf(headers), lines[2..i]) else []
    {
      FilterMapSnoc(LineRowOf(headers), lines, 2, i);
      var row := ParseLine(headers, hasReferralCode, lines[i]);
      if row.Some? {
        data := data + [row.value];
      }
      i := i + 1;
    }
    if |lines| > 2 {
      assert lines[2..i] == lines[2..];
    }
  }

  // ---------------------------------------------------------------------
  // Properties of the parser

  /** The "Referral Code" test never rejects a line that passed the arity
      test, because cells are non-empty and trimmed: a line yields a row
      exactly when it is a content line with as many cells as headers, and
      the row is then its header-to-cell dictionary. */
  lemma ReferralCheckNeverRejects(headers: seq<string>, raw: string)
    ensures LineRow(headers, raw).Some?
        <==> IsContentLine(Trim(raw)) && |Cells(Trim(raw))| == |headers|
    ensures LineRow(headers, raw).Some? ==> LineRow(headers, raw).value == RowDict(headers, Cells(Trim(raw)))
  {
    var line := Trim(raw);
    if IsContentLine(line) && |Cells(line)| == |headers| && ReferralCode in headers {
      var cells := Cells(line);
      var d := RowDict(headers, cells);
      RowDictValues(headers, cells);
      CellsWellFormed(line);
      var j :| 0 <= j < |headers| && headers[j] == ReferralCode;
      assert ReferralCode in d && d[ReferralCode] in cells;
      TrimOfTrimmed(d[ReferralCode]);
    }
  }

  /** The shape of every row a line yields: its keys are exactly the headers,
      and every value is a non-empty, trimmed cell without the delimiter. */
  lemma LineRowWellFormed(headers: seq<string>, raw: string)
    requires LineRow(headers, raw).Some?
    ensures var r := LineRow(headers, raw).value;
      r.Keys == (set h | h in headers)
      && forall h :: h in r ==> r[h] != [] && IsTrimmed(r[h]) && '|' !in r[h]
  {
    var cells := Cells(Trim(raw));
    RowDictKeys(headers, cells);
    RowDictValues(headers, cells);
    CellsWellFormed(Trim(raw));
  }

  /** The numbers of the lines that yield rows, in increasing order. */
  ghost function DataLineNumbers(markdown: string): seq<nat>
  {
    var lines := Lines(markdown);
    if |lines| <= 2 then [] else KeptIndices(LineRowOf(Cells(lines[0])), lines, 2)
  }

  /** The rows come, in order, from exactly the lines that yield one: the k-th
      row is what the k-th such line yields, those lines are numbered 2 and
      up in increasing order, and every line from 2 on that yields a row is
      among them; lines 0 and 1 never give a row. */
  lemma ParsedRowsFollowLines(markdown: string)
    ensures var lines, f, rows, idx :=
      Lines(markdown), LineRowOf(Headers(markdown)), ParsedRows(markdown), DataLineNumbers(markdown);
      |rows| == |idx|
      && (forall k :: 0 <= k < |idx| ==> 2 <= idx[k] < |lines| && f(lines[idx[k]]) == Some(rows[k]))
      && (forall k, l :: 0 <= k < l < |idx| ==> idx[k] < idx[l])
      && (forall j :: 2 <= j < |lines| && f(lines[j]).Some? ==> j in idx)
  {
    var lines, f := Lines(markdown), LineRowOf(Headers(markdown));
    if |lines| > 2 {
      assert ParsedRows(markdown) == FilterMap(f, lines[2..]);
      assert DataLineNumbers(markdown) == KeptIndices(f, lines, 2);
      FilterMapFollowsInput(f, lines, 2);
    }
  }

  /** Every parsed row has a key for every header and no other; when "Referral
      Code" is a header, every row's referral code is a non-empty trimmed
      string, and otherwise no row has one. */
  lemma ParsedRowsWellFormed(markdown: string)
    ensures forall r :: r in ParsedRows(markdown) ==>
      r.Keys == (set h | h in Headers(markdown))
      && (ReferralCode in Headers(markdown) ==> ReferralCode in r && r[ReferralCode] != [] && IsTrimmed(r[ReferralCode]))
      && (ReferralCode !in Headers(markdown) ==> ReferralCode !in r)
  {
    var lines, headers := Lines(markdown), Headers(markdown);
    var rows := ParsedRows(markdown);
    ParsedRowsFollowLines(markdown);
    var idx := DataLineNumbers(markdown);
    forall r | r in rows
      ensures r.Keys == (set h | h in headers)
      ensures ReferralCode in headers ==> ReferralCode in r && r[ReferralCode] != [] && IsTrimmed(r[ReferralCode])
    {
      var k :| 0 <= k < |rows| && rows[k] == r;
      LineRowWellFormed(headers, lines[idx[k]]);
    }
  }

  /** The empty text has no headers and no rows (it splits into one empty line). */
  lemma EmptyTable()
    ensures Headers("") == [] && ParsedRows("") == []
  {
    assert Lines("") == [[]];
    var blank: seq<string> := [[]];
    assert blank[..0] == [];
    assert Trim([]) == [];
    assert NonEmpty(blank) == [];
  }
}
