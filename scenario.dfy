/** The example of a two-ambassador table worked through the whole pipeline:
    Alice's code is used on two data rows and Bob's on one, so Alice ranks
    first with 100 points and Bob second with 50. */
module Scenario {
  import opened Wrappers
  import opened Text
  import opened TableParser
  import opened Aggregator
  import opened Presentation

  /** A string that stands in a table cell as it is: non-empty, trimmed, and
      free of the cell and line delimiters. */
  predicate IsCell(s: string) {
    s != [] && IsTrimmed(s) && '|' !in s && '\n' !in s
  }

  /** The line `x|y` has the cells `x` and `y`. */
  lemma TwoCells(x: string, y: string)
    requires IsCell(x) && IsCell(y)
    ensures Cells(x + "|" + y) == [x, y]
  {
    var s := x + "|" + y;
    assert [x, y][1..] == [y];
    assert Join([x, y], '|') == s;
    SplitJoin([x, y], '|');
    var pieces := Split(s, '|');
    TrimOfTrimmed(x);
    TrimOfTrimmed(y);
    var trimmed := seq(|pieces|, k requires 0 <= k < |pieces| => Trim(pieces[k]));
    assert trimmed == [x, y];
    assert trimmed[..1] == [x];
    assert NonEmpty([x]) == [x];
  }

  /** `filter(Boolean)` drops every empty cell, not only those outside the
      outer delimiters: the line `x||y` has the same cells as `x|y`. */
  lemma InteriorBlankCellDropped(x: string, y: string)
    requires IsCell(x) && IsCell(y)
    ensures Cells(x + "|" + "|" + y) == Cells(x + "|" + y) == [x, y]
  {
    var s := x + "|" + "|" + y;
    var blank: string := [];
    var parts := [x, blank, y];
    assert parts[1..] == [blank, y] && [blank, y][1..] == [y];
    assert Join([blank, y], '|') == blank + "|" + y == "|" + y;
    assert Join(parts, '|') == x + "|" + ("|" + y) == s;
    SplitJoin(parts, '|');
    TrimOfTrimmed(x);
    TrimOfTrimmed(y);
    TrimOfTrimmed(blank);
    var trimmed := seq(|parts|, k requires 0 <= k < |parts| => Trim(parts[k]));
    assert trimmed == parts;
    assert parts[..2] == [x, blank] && [x, blank][..1] == [x] && [x][..0] == [];
    assert NonEmpty([x]) == [x];
    assert NonEmpty([x, blank]) == [x];
    TwoCells(x, y);
  }

  /** Under the headers `Name|Referral Code`, the line `x|y` gives the row
      with name `x` and code `y`. */
  lemma DataLine(line: string, x: string, y: string)
    requires IsCell(x) && IsCell(y) && line == x + "|" + y
    ensures LineRow(["Name", ReferralCode], line) == Some(map["Name" := x, ReferralCode := y])
  {
    assert Trim(line) == line && Cells(line) == [x, y] by {
      assert IsTrimmed(line);
      TrimOfTrimmed(line);
      TwoCells(x, y);
    }
    assert IsContentLine(line) by {
      assert line[0] == x[0] != '|';
      if |SeparatorMarker| <= |line| {
        assert line[..|SeparatorMarker|][0] == line[0];
      }
    }
    assert RowDict(["Name", ReferralCode], [x, y]) == map["Name" := x, ReferralCode := y] by {
      assert ["Name", ReferralCode][..1] == ["Name"] && [x, y][..1] == [x];
      assert ["Name"][..0] == [] && [x][..0] == [];
      assert RowDict(["Name"], [x]) == map["Name" := x];
    }
    ReferralCheckNeverRejects(["Name", ReferralCode], line);
  }

  /** A function yielding values on `a` and `b` picks out the values of
      `a`, `b`, `a`. */
  lemma FilterMapABA<T, U>(f: T -> Option<U>, a: T, b: T, ra: U, rb: U)
    requires f(a) == Some(ra) && f(b) == Some(rb)
    ensures FilterMap(f, [a, b, a]) == [ra, rb, ra]
  {
    assert [a, b, a][..2] == [a, b] && [a, b][..1] == [a] && [a][..0] == [];
    assert FilterMap(f, [a]) == [ra];
    assert FilterMap(f, [a, b]) == [ra, rb];
  }

  /** Lines 2 to 4 of five, the last a repeat of the first, each yielding a
      row give those rows, in order. */
  lemma ThreeDataLines(lines: seq<string>, f: string -> Option<Row>, r2: Row, r3: Row)
    requires |lines| == 5 && lines[4] == lines[2]
    requires f(lines[2]) == Some(r2) && f(lines[3]) == Some(r3)
    ensures FilterMap(f, lines[2..]) == [r2, r3, r2]
  {
    assert lines[2..] == [lines[2], lines[3], lines[2]];
    FilterMapABA(f, lines[2], lines[3], r2, r3);
  }

  /** The lines of the example table: header, separator, then the data
      lines of Alice, Bob and Alice again. */
  function ExampleLines(alice: string, aliceCode: string, bob: string, bobCode: string): seq<string>
  {
    var aliceLine, bobLine := alice + "|" + aliceCode, bob + "|" + bobCode;
    ["Name" + "|" + ReferralCode, "---|---", aliceLine, bobLine, aliceLine]
  }

  /** The text of the example table: its lines, each ended by a line break
      but the last. */
  function ExampleTable(alice: string, aliceCode: string, bob: string, bobCode: string): string
  {
    Join(ExampleLines(alice, aliceCode, bob, bobCode), '\n')
  }

  /** The header line of the example table and its separator line. */
  lemma ExampleHeader()
    ensures Cells("Name" + "|" + ReferralCode) == ["Name", ReferralCode]
    ensures '\n' !in "Name" + "|" + ReferralCode && '\n' !in "---|---"
  {
    assert IsCell("Name") && IsCell(ReferralCode);
    TwoCells("Name", ReferralCode);
  }

  /** A line of two cells is one line. */
  lemma CellLine(x: string, y: string)
    requires IsCell(x) && IsCell(y)
    ensures '\n' !in x + "|" + y
  {
  }

  /** Five lines whose data lines 2 to 4 yield rows `r2`, `r3` and `r2` again
      under the headers of line 0 parse to those rows. */
  lemma RowsOfFiveLines(markdown: string, headers: seq<string>, r2: Row, r3: Row)
    requires |Lines(markdown)| == 5 && Lines(markdown)[4] == Lines(markdown)[2]
    requires Cells(Lines(markdown)[0]) == headers
    requires LineRow(headers, Lines(markdown)[2]) == Some(r2) && LineRow(headers, Lines(markdown)[3]) == Some(r3)
    ensures ParsedRows(markdown) == [r2, r3, r2]
  {
    ThreeDataLines(Lines(markdown), LineRowOf(headers), r2, r3);
  }

  /** Parsing the example table gives Alice's row, Bob's row and Alice's row. */
  lemma ExampleRows(alice: string, aliceCode: string, bob: string, bobCode: string)
    requires IsCell(alice) && IsCell(aliceCode) && IsCell(bob) && IsCell(bobCode)
    ensures ParsedRows(ExampleTable(alice, aliceCode, bob, bobCode))
      == [map["Name" := alice, ReferralCode := aliceCode], map["Name" := bob, ReferralCode := bobCode],
          map["Name" := alice, ReferralCode := aliceCode]]
  {
    var l0, l1, l2, l3 := "Name" + "|" + ReferralCode, "---|---", alice + "|" + aliceCode, bob + "|" + bobCode;
    var markdown := ExampleTable(alice, aliceCode, bob, bobCode);
    ExampleHeader();
    CellLine(alice, aliceCode);
    CellLine(bob, bobCode);
    var lines := ExampleLines(alice, aliceCode, bob, bobCode);
    assert lines == [l0, l1, l2, l3, l2];
    SplitJoin(lines, '\n');
    DataLine(l2, alice, aliceCode);
    DataLine(l3, bob, bobCode);
    RowsOfFiveLines(markdown, ["Name", ReferralCode],
      map["Name" := alice, ReferralCode := aliceCode], map["Name" := bob, ReferralCode := bobCode]);
  }

  /** The codes of Alice's, Bob's and Alice's rows, each once, and how often. */
  lemma ExampleCodes(a: Code, b: Code)
    requires a != b
    ensures Distinct([a, b, a]) == [a, b]
    ensures Count([a, b, a], a) == 2 && Count([a, b, a], b) == 1
  {
    assert [a, b, a][..2] == [a, b] && [a, b][..1] == [a] && [a][..0] == [];
    assert Distinct([a]) == [a];
    assert Distinct([a, b]) == [a, b];
    assert Count([a], a) == 1 && Count([a], b) == 0;
    assert Count([a, b], a) == 1 && Count([a, b], b) == 1;
  }

  /** Sorting two records already in order of count keeps them. */
  lemma SortTwo(e1: Entry, e2: Entry)
    requires e1.count >= e2.count
    ensures SortByCount([e1, e2]) == [e1, e2]
  {
    assert [e1, e2][..1] == [e1];
    assert SortByCount([e1]) == [e1];
    assert InsertIndex([e1], e2) == 1;
  }

  /** Tallying Alice's, Bob's and Alice's rows against a directory that owns
      both codes. */
  lemma ExampleLeaderboard(alice: string, aliceCode: string, bob: string, bobCode: string)
    requires aliceCode != bobCode
    ensures var aliceRow := map["Name" := alice, ReferralCode := aliceCode];
      var bobRow := map["Name" := bob, ReferralCode := bobCode];
      Leaderboard([aliceRow, bobRow, aliceRow], [(alice, aliceCode), (bob, bobCode)])
        == [Entry(Some(alice), Some(aliceCode), 2), Entry(Some(bob), Some(bobCode), 1)]
  {
    var aliceRow := map["Name" := alice, ReferralCode := aliceCode];
    var bobRow := map["Name" := bob, ReferralCode := bobCode];
    var a, b := Some(aliceCode), Some(bobCode);
    var codes := Codes([aliceRow, bobRow, aliceRow]);
    assert codes == [a, b, a];
    ExampleCodes(a, b);
    var directory := [(alice, aliceCode), (bob, bobCode)];
    assert Owner(directory, b) == Some(bob) by {
      assert directory[1..] == [(bob, bobCode)];
    }
    var e1, e2 := Entry(Some(alice), a, 2), Entry(Some(bob), b, 1);
    assert Owner(directory, a) == Some(alice);
    assert EntryFor(directory, codes, a) == e1 && EntryFor(directory, codes, b) == e2;
    assert [a, b][..1] == [a] && [a][..0] == [];
    assert Entries(directory, codes, [a]) == [e1];
    assert Tally(directory, codes) == [e1, e2];
    SortTwo(e1, e2);
  }

  /** The whole example: the table shows Alice first with 2 certifications and
      100 points, then Bob with 1 certification and 50 points. */
  lemma ExampleDisplay(alice: string, aliceCode: string, bob: string, bobCode: string)
    requires IsCell(alice) && IsCell(aliceCode) && IsCell(bob) && IsCell(bobCode)
    requires aliceCode != bobCode
    ensures DisplayRows(Leaderboard(ParsedRows(ExampleTable(alice, aliceCode, bob, bobCode)),
                                    [(alice, aliceCode), (bob, bobCode)]))
      == [DisplayRow(1, Some(alice), Some(aliceCode), 2, 100), DisplayRow(2, Some(bob), Some(bobCode), 1, 50)]
  {
    ExampleRows(alice, aliceCode, bob, bobCode);
    ExampleLeaderboard(alice, aliceCode, bob, bobCode);
  }
}
