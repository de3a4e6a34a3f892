/** The rows of the leaderboard table (`leaderboardRows`): for each record, in
    leaderboard order, its rank, name, referral code, number of certifications
    and score. */
module Presentation {
  import opened Wrappers
  import opened Text
  import opened TableParser
  import opened Aggregator

  /** The points a campus ambassador earns per certification. */
  const PointsPerCertification: nat := 50

  /** One table row: `<td>`s for rank, name, code, certifications and score. */
  datatype DisplayRow = DisplayRow(rank: nat, name: Option<string>, code: Code, certifications: nat, score: nat)

  /** `leaderboard.map((item, index) => ...)`: rank is the 1-based position,
      score is the count times the points per certification. */
  function DisplayRows(board: seq<Entry>): (rows: seq<DisplayRow>)
    ensures |rows| == |board|
  {
    seq(|board|, k requires 0 <= k < |board| =>
      DisplayRow(k + 1, board[k].name, board[k].code, board[k].count, board[k].count * PointsPerCertification))
  }

  /** The records a table shows, read back from its rows. */
  function ShownRecords(rows: seq<DisplayRow>): (board: seq<Entry>)
    ensures |board| == |rows|
  {
    seq(|rows|, k requires 0 <= k < |rows| => Entry(rows[k].name, rows[k].code, rows[k].certifications))
  }

  /** The sum of the scores. */
  function TotalScore(rows: seq<DisplayRow>): nat
  {
    if rows == [] then 0 else TotalScore(rows[..|rows| - 1]) + rows[|rows| - 1].score
  }

  /** The table shows every record, unchanged and in order, ranked 1, 2, ...
      by position, and each score is a whole number of certifications' worth
      of points from which the certification count can be read back. */
  lemma DisplayRowsShowBoard(board: seq<Entry>)
    ensures ShownRecords(DisplayRows(board)) == board
    ensures var rows := DisplayRows(board);
      forall k :: 0 <= k < |rows| ==>
        rows[k].rank == k + 1
        && rows[k].score % PointsPerCertification == 0
        && rows[k].score / PointsPerCertification == rows[k].certifications
  {
  }

  /** On a leaderboard sorted by count, higher-ranked rows never score less. */
  lemma ScoresFollowRanks(board: seq<Entry>)
    requires SortedByCount(board)
    ensures var rows := DisplayRows(board);
      forall i, j :: 0 <= i < j < |rows| ==> rows[i].rank < rows[j].rank && rows[i].score >= rows[j].score
  {
  }

  /** The scores add up to the points for all certifications. */
  lemma {:induction false} TotalScoreIsPoints(board: seq<Entry>)
    ensures TotalScore(DisplayRows(board)) == PointsPerCertification * TotalCount(board)
  {
    if board != [] {
      var n := |board| - 1;
      TotalScoreIsPoints(board[..n]);
      assert DisplayRows(board)[..n] == DisplayRows(board[..n]);
    }
  }

  /** Every referral code on the leaderboard of a table with a "Referral
      Code" column is one of its non-empty trimmed cells; without that column
      the leaderboard has at most one record. */
  lemma LeaderboardCodesAreCells(markdown: string, directory: Directory)
    ensures var board := Leaderboard(ParsedRows(markdown), directory);
      (ReferralCode in Headers(markdown) ==>
         forall e :: e in board ==> e.code.Some? && e.code.value != [] && IsTrimmed(e.code.value))
      && (ReferralCode !in Headers(markdown) ==> |board| <= 1)
  {
    var parsed := ParsedRows(markdown);
    var board := Leaderboard(parsed, directory);
    if ReferralCode in Headers(markdown) {
      forall e | e in board
        ensures e.code.Some? && e.code.value != [] && IsTrimmed(e.code.value)
      {
        CodeIsCell(markdown, directory, e);
      }
    } else if |parsed| > 0 {
      ParsedRowsWellFormed(markdown);
      assert parsed[0] in parsed;
      LeaderboardWithoutCodes(parsed, directory);
    }
  }

  /** One record's code, for `LeaderboardCodesAreCells`. */
  lemma CodeIsCell(markdown: string, directory: Directory, e: Entry)
    requires ReferralCode in Headers(markdown)
    requires e in Leaderboard(ParsedRows(markdown), directory)
    ensures e.code.Some? && e.code.value != [] && IsTrimmed(e.code.value)
  {
    var parsed := ParsedRows(markdown);
    var board := Leaderboard(parsed, directory);
    var codes := Codes(parsed);
    LeaderboardOnePerCode(parsed, directory);
    var k :| 0 <= k < |board| && board[k] == e;
    assert e.code in codes;
    var m :| 0 <= m < |codes| && codes[m] == e.code;
    ParsedRowsWellFormed(markdown);
    assert parsed[m] in parsed;
  }

  /** The scores of the leaderboard of some rows add up to 50 points per row,
      each is at least 50, and they never increase down the table. */
  lemma LeaderboardScores(parsed: seq<Row>, directory: Directory)
    ensures var rows := DisplayRows(Leaderboard(parsed, directory));
      TotalScore(rows) == PointsPerCertification * |parsed|
      && (forall k :: 0 <= k < |rows| ==> rows[k].score >= PointsPerCertification)
      && (forall i, j :: 0 <= i < j < |rows| ==> rows[i].score >= rows[j].score)
  {
    var board := Leaderboard(parsed, directory);
    LeaderboardCounts(parsed, directory);
    LeaderboardOrder(parsed, directory);
    TotalScoreIsPoints(board);
    ScoresFollowRanks(board);
    assert forall k :: 0 <= k < |board| ==> board[k] in board;
  }
}
