/** `calculateLeaderboard`: tallies the parsed rows per referral code, in the
    order the codes are first seen, looks up each code's owner in the referral
    directory, and orders the tallies by count, highest first, with a stable
    sort. */
module Aggregator {
  import opened Wrappers
  import opened TableParser

  /** The key a row is tallied under: its "Referral Code" cell, or None
      (`undefined`) when the table has no such column. */
  type Code = Option<string>

  /** The decoded referral directory: (name, code) pairs in `Object.keys` order. */
  type Directory = seq<(string, string)>

  /** One leaderboard record: `{Name, "Referral Code", "Number of Certifications"}`;
      the name is None (`undefined`) when no directory entry has the code. */
  datatype Entry = Entry(name: Option<string>, code: Code, count: nat)

  /** `entry["Referral Code"]`. */
  function CodeOf(row: Row): Code
  {
    if ReferralCode in row then Some(row[ReferralCode]) else None
  }

  /** The codes of the rows, row by row. */
  function Codes(rows: seq<Row>): (codes: seq<Code>)
    ensures |codes| == |rows|
  {
    seq(|rows|, k requires 0 <= k < |rows| => CodeOf(rows[k]))
  }

  // ---------------------------------------------------------------------
  // The directory lookup

  /** `Object.keys(referralData).find((name) => referralData[name] === code)`.
      A directory code is always a string, so `undefined` matches no entry. */
  function Owner(directory: Directory, code: Code): Option<string>
  {
    if directory == [] then None
    else if Some(directory[0].1) == code then Some(directory[0].0)
    else Owner(directory[1..], code)
  }

  /** The owner is the name of the FIRST directory entry whose code is `code`,
      and there is none exactly when no entry has that code. */
  lemma {:induction false} OwnerIsFirstMatch(directory: Directory, code: Code)
    ensures Owner(directory, code).None?
        <==> forall k :: 0 <= k < |directory| ==> Some(directory[k].1) != code
    ensures Owner(directory, code).Some? ==>
      exists k :: 0 <= k < |directory| && Some(directory[k].1) == code
        && directory[k].0 == Owner(directory, code).value
        && forall j :: 0 <= j < k ==> Some(directory[j].1) != code
  {
    if directory != [] && Some(directory[0].1) != code {
      var rest := directory[1..];
      OwnerIsFirstMatch(rest, code);
      if Owner(rest, code).Some? {
        var k :| 0 <= k < |rest| && Some(rest[k].1) == code && rest[k].0 == Owner(rest, code).value
          && forall j :: 0 <= j < k ==> Some(rest[j].1) != code;
        assert directory[k + 1] == rest[k];
        assert forall j :: 1 <= j < k + 1 ==> directory[j] == rest[j - 1];
      } else {
        assert forall k :: 1 <= k < |directory| ==> directory[k] == rest[k - 1];
      }
    }
  }

  // ---------------------------------------------------------------------
  // Counting and first appearances

  /** How many of `xs` are `c`. */
  function Count(xs: seq<Code>, c: Code): nat
  {
    if xs == [] then 0
    else
      var n := |xs| - 1;
      Count(xs[..n], c) + (if xs[n] == c then 1 else 0)
  }

  /** A code is counted at least once exactly when it occurs. */
  lemma {:induction false} CountPositive(xs: seq<Code>, c: Code)
    ensures Count(xs, c) > 0 <==> c in xs
  {
    if xs != [] {
      var n := |xs| - 1;
      CountPositive(xs[..n], c);
      assert xs == xs[..n] + [xs[n]];
    }
  }

  /** No element occurs twice. */
  predicate NoDuplicates(xs: seq<Code>) {
    forall i, j :: 0 <= i < j < |xs| ==> xs[i] != xs[j]
  }

  /** An element of a duplicate-free sequence occurs in it exactly once. */
  lemma {:induction false} CountOnce(d: seq<Code>, c: Code)
    requires NoDuplicates(d) && c in d
    ensures Count(d, c) == 1
  {
    var n := |d| - 1;
    assert d == d[..n] + [d[n]];
    if d[n] == c {
      CountPositive(d[..n], c);
    } else {
      CountOnce(d[..n], c);
    }
  }

  /** The codes of `xs`, each once, in the order they first appear: the key
      order of the `Map`, which keeps insertion order. */
  function Distinct(xs: seq<Code>): seq<Code>
  {
    if xs == [] then []
    else
      var n := |xs| - 1;
      Distinct(xs[..n]) + (if xs[n] in xs[..n] then [] else [xs[n]])
  }

  /** `Distinct` keeps every code, adds none and repeats none. */
  lemma {:induction false} DistinctKeeps(xs: seq<Code>)
    ensures forall c :: c in Distinct(xs) <==> c in xs
    ensures NoDuplicates(Distinct(xs))
  {
    if xs != [] {
      var n := |xs| - 1;
      DistinctKeeps(xs[..n]);
      assert xs == xs[..n] + [xs[n]];
    }
  }

  /** The position where `c` first occurs in `xs`. */
  function FirstIndex(xs: seq<Code>, c: Code): (r: nat)
    requires c in xs
    ensures r < |xs| && xs[r] == c
    ensures forall k :: 0 <= k < r ==> xs[k] != c
  {
    if xs[0] == c then 0 else 1 + FirstIndex(xs[1..], c)
  }

  /** A code found in a prefix is first found at the same place in the whole. */
  lemma FirstIndexInPrefix(xs: seq<Code>, n: nat, c: Code)
    requires n <= |xs| && c in xs[..n]
    ensures c in xs && FirstIndex(xs, c) == FirstIndex(xs[..n], c)
  {
    var i := FirstIndex(xs[..n], c);
    assert xs[i] == c;
    var j := FirstIndex(xs, c);
    assert !(j < i) && !(i < j);
  }

  /** `Distinct` lists the codes in the order of their first appearance. */
  lemma {:induction false} DistinctInFirstAppearanceOrder(xs: seq<Code>)
    ensures forall k, l :: 0 <= k < l < |Distinct(xs)| ==>
      Distinct(xs)[k] in xs && Distinct(xs)[l] in xs
      && FirstIndex(xs, Distinct(xs)[k]) < FirstIndex(xs, Distinct(xs)[l])
  {
    DistinctKeeps(xs);
    if xs != [] {
      var n := |xs| - 1;
      var d, prefix := Distinct(xs), xs[..n];
      var dp := Distinct(prefix);
      DistinctInFirstAppearanceOrder(prefix);
      DistinctKeeps(prefix);
      forall k, l | 0 <= k < l < |d|
        ensures FirstIndex(xs, d[k]) < FirstIndex(xs, d[l])
      {
        assert d[k] == dp[k] && d[k] in prefix;
        FirstIndexInPrefix(xs, n, d[k]);
        if l == |dp| {
          assert d[l] == xs[n] && xs[n] !in prefix;
        } else {
          assert d[l] == dp[l];
          FirstIndexInPrefix(xs, n, d[l]);
        }
      }
    }
  }

  // ---------------------------------------------------------------------
  // The tally

  /** The record `calculateLeaderboard` ends up holding for code `c` after
      reading codes `xs`. */
  function EntryFor(directory: Directory, xs: seq<Code>, c: Code): Entry
  {
    Entry(Owner(directory, c), c, Count(xs, c))
  }

  /** The records for the codes `d`, in that order. */
  function Entries(directory: Directory, xs: seq<Code>, d: seq<Code>): (r: seq<Entry>)
    ensures |r| == |d|
  {
    if d == [] then []
    else
      var n := |d| - 1;
      Entries(directory, xs, d[..n]) + [EntryFor(directory, xs, d[n])]
  }

  /** The k-th record is the one for the k-th code. */
  lemma {:induction false} EntriesAt(directory: Directory, xs: seq<Code>, d: seq<Code>)
    ensures forall k :: 0 <= k < |d| ==> Entries(directory, xs, d)[k] == EntryFor(directory, xs, d[k])
  {
    if d != [] {
      EntriesAt(directory, xs, d[..|d| - 1]);
    }
  }

  /** `Array.from(referralCount.values())`: one record per distinct code, in
      the order the codes were first seen. */
  function Tally(directory: Directory, xs: seq<Code>): seq<Entry>
  {
    Entries(directory, xs, Distinct(xs))
  }

  /** The sum of the counts. */
  function TotalCount(s: seq<Entry>): nat
  {
    if s == [] then 0 else TotalCount(s[..|s| - 1]) + s[|s| - 1].count
  }

  lemma {:induction false} TotalCountAppend(a: seq<Entry>, b: seq<Entry>)
    ensures TotalCount(a + b) == TotalCount(a) + TotalCount(b)
  {
    if b != [] {
      var n := |b| - 1;
      TotalCountAppend(a, b[..n]);
      assert (a + b)[|a + b| - 1] == b[n];
      assert (a + b)[..|a + b| - 1] == a + b[..n];
    } else {
      assert a + b == a;
    }
  }

  /** Records for codes that were never read count nothing. */
  lemma {:induction false} EntriesOfNothing(directory: Directory, d: seq<Code>)
    ensures TotalCount(Entries(directory, [], d)) == 0
  {
    if d != [] {
      var n := |d| - 1;
      EntriesOfNothing(directory, d[..n]);
      TotalCountAppend(Entries(directory, [], d[..n]), [EntryFor(directory, [], d[n])]);
    }
  }

  /** Reading one more code adds, over all records, the number of times that
      code is among the record codes. */
  lemma {:induction false} EntriesSnoc(directory: Directory, xs: seq<Code>, d: seq<Code>)
    requires xs != []
    ensures var n := |xs| - 1;
      TotalCount(Entries(directory, xs, d)) == TotalCount(Entries(directory, xs[..n], d)) + Count(d, xs[n])
  {
    if d != [] {
      var m := |d| - 1;
      EntriesSnoc(directory, xs, d[..m]);
      TotalCountAppend(Entries(directory, xs, d[..m]), [EntryFor(directory, xs, d[m])]);
      TotalCountAppend(Entries(directory, xs[..|xs| - 1], d[..m]), [EntryFor(directory, xs[..|xs| - 1], d[m])]);
    }
  }

  /** When every code read has exactly one record, the counts add up to the
      number of codes read. */
  lemma {:induction false} EntriesTotal(directory: Directory, xs: seq<Code>, d: seq<Code>)
    requires NoDuplicates(d)
    requires forall x :: x in xs ==> x in d
    ensures TotalCount(Entries(directory, xs, d)) == |xs|
  {
    if xs == [] {
      EntriesOfNothing(directory, d);
    } else {
      var n := |xs| - 1;
      assert xs == xs[..n] + [xs[n]];
      EntriesTotal(directory, xs[..n], d);
      EntriesSnoc(directory, xs, d);
      CountOnce(d, xs[n]);
    }
  }

  // ---------------------------------------------------------------------
  // The stable sort

  /** Counts never increase along `s`. */
  predicate SortedByCount(s: seq<Entry>) {
    forall i, j :: 0 <= i < j < |s| ==> s[i].count >= s[j].count
  }

  /** Where a stable insertion puts `x`: before the first record with a
      smaller count. */
  function InsertIndex(t: seq<Entry>, x: Entry): (p: nat)
    ensures p <= |t|
  {
    if t == [] || t[0].count < x.count then 0 else 1 + InsertIndex(t[1..], x)
  }

  /** Everything before the insertion point counts at least as much as `x`;
      in a sorted sequence, everything from it on counts less. */
  lemma {:induction false} InsertIndexSplits(t: seq<Entry>, x: Entry)
    ensures forall k :: 0 <= k < InsertIndex(t, x) ==> t[k].count >= x.count
    ensures SortedByCount(t) ==> forall k :: InsertIndex(t, x) <= k < |t| ==> t[k].count < x.count
  {
    if t != [] && t[0].count >= x.count {
      InsertIndexSplits(t[1..], x);
      assert forall k :: 1 <= k < |t| ==> t[k] == t[1..][k - 1];
    }
  }

  /** `t` with `x` inserted at its stable insertion point. */
  function InsertByCount(t: seq<Entry>, x: Entry): (r: seq<Entry>)
    ensures |r| == |t| + 1
  {
    var p := InsertIndex(t, x);
    t[..p] + [x] + t[p..]
  }

  /** `sort((a, b) => b.count - a.count)`: ECMAScript requires the sort to be
      stable, so the result is the one a stable insertion sort gives. */
  function SortByCount(s: seq<Entry>): (r: seq<Entry>)
    ensures |r| == |s|
  {
    if s == [] then []
    else
      var n := |s| - 1;
      InsertByCount(SortByCount(s[..n]), s[n])
  }

  /** Where each record of an insertion comes from. */
  lemma InsertAt(t: seq<Entry>, x: Entry)
    ensures var p, r := InsertIndex(t, x), InsertByCount(t, x);
      r[p] == x
      && (forall i :: 0 <= i < p ==> r[i] == t[i])
      && (forall i :: p < i < |r| ==> r[i] == t[i - 1])
  {
  }

  /** Inserting into a sorted sequence keeps it sorted. */
  lemma InsertSorted(t: seq<Entry>, x: Entry)
    requires SortedByCount(t)
    ensures SortedByCount(InsertByCount(t, x))
  {
    var p := InsertIndex(t, x);
    InsertIndexSplits(t, x);
    InsertAt(t, x);
  }

  /** The result is sorted by count, highest first. */
  lemma {:induction false} SortByCountSorted(s: seq<Entry>)
    ensures SortedByCount(SortByCount(s))
  {
    if s != [] {
      SortByCountSorted(s[..|s| - 1]);
      InsertSorted(SortByCount(s[..|s| - 1]), s[|s| - 1]);
    }
  }

  /** The result is a permutation of the input. */
  lemma {:induction false} SortByCountPermutes(s: seq<Entry>)
    ensures multiset(SortByCount(s)) == multiset(s)
  {
    if s != [] {
      var n := |s| - 1;
      SortByCountPermutes(s[..n]);
      var t := SortByCount(s[..n]);
      var p := InsertIndex(t, s[n]);
      assert t == t[..p] + t[p..];
      assert s == s[..n] + [s[n]];
    }
  }

  /** Every two records of `r` with equal counts occur, in the same order, in `s`. */
  ghost predicate KeepsTieOrder(r: seq<Entry>, s: seq<Entry>) {
    forall i, j :: 0 <= i < j < |r| && r[i].count == r[j].count ==>
      exists p, q :: 0 <= p < q < |s| && s[p] == r[i] && s[q] == r[j]
  }

  /** Inserting the next input record keeps ties in input order. */
  lemma InsertKeepsTieOrder(t: seq<Entry>, s: seq<Entry>)
    requires s != []
    requires var n := |s| - 1;
      SortedByCount(t) && multiset(t) == multiset(s[..n]) && KeepsTieOrder(t, s[..n])
    ensures KeepsTieOrder(InsertByCount(t, s[|s| - 1]), s)
  {
    var r := InsertByCount(t, s[|s| - 1]);
    forall i, j | 0 <= i < j < |r| && r[i].count == r[j].count
      ensures exists p', q' :: 0 <= p' < q' < |s| && s[p'] == r[i] && s[q'] == r[j]
    {
      InsertedPairInOrder(t, s, i, j);
    }
  }

  /** One pair of tied records of an insertion, for `InsertKeepsTieOrder`. */
  lemma InsertedPairInOrder(t: seq<Entry>, s: seq<Entry>, i: nat, j: nat)
    requires s != []
    requires var n := |s| - 1;
      SortedByCount(t) && multiset(t) == multiset(s[..n]) && KeepsTieOrder(t, s[..n])
    requires var r := InsertByCount(t, s[|s| - 1]);
      i < j < |r| && r[i].count == r[j].count
    ensures var r := InsertByCount(t, s[|s| - 1]);
      exists p', q' :: 0 <= p' < q' < |s| && s[p'] == r[i] && s[q'] == r[j]
  {
    var n := |s| - 1;
    var p := InsertIndex(t, s[n]);
    InsertIndexSplits(t, s[n]);
    InsertAt(t, s[n]);
    if j == p {
      TiedWithInserted(t, s, i);
    } else if i != p {
      TiedBeforeInsertion(t, s, if i < p then i else i - 1, if j < p then j else j - 1);
    }
  }

  /** A record tied with the inserted one came before it in the input. */
  lemma TiedWithInserted(t: seq<Entry>, s: seq<Entry>, i: nat)
    requires s != [] && i < |t|
    requires multiset(t) == multiset(s[..|s| - 1])
    ensures exists p' :: 0 <= p' < |s| - 1 && s[p'] == t[i]
  {
    var n := |s| - 1;
    assert t[i] in multiset(s[..n]);
    var p' :| 0 <= p' < n && s[..n][p'] == t[i];
  }

  /** Two tied records already sorted keep their input order. */
  lemma TiedBeforeInsertion(t: seq<Entry>, s: seq<Entry>, i: nat, j: nat)
    requires s != [] && i < j < |t| && t[i].count == t[j].count
    requires KeepsTieOrder(t, s[..|s| - 1])
    ensures exists p', q' :: 0 <= p' < q' < |s| - 1 && s[p'] == t[i] && s[q'] == t[j]
  {
    var n := |s| - 1;
    var p', q' :| 0 <= p' < q' < n && s[..n][p'] == t[i] && s[..n][q'] == t[j];
    assert s[p'] == t[i] && s[q'] == t[j];
  }

  /** Every two records with equal counts come out in an order in which they
      also occur in the input. */
  lemma {:induction false} SortByCountKeepsTiePairs(s: seq<Entry>)
    ensures KeepsTieOrder(SortByCount(s), s)
  {
    if s != [] {
      var n := |s| - 1;
      SortByCountKeepsTiePairs(s[..n]);
      SortByCountSorted(s[..n]);
      SortByCountPermutes(s[..n]);
      InsertKeepsTieOrder(SortByCount(s[..n]), s);
    }
  }

  /** The records of `s` with count `c`, in order. */
  function WithCount(s: seq<Entry>, c: nat): seq<Entry>
  {
    if s == [] then []
    else
      var n := |s| - 1;
      WithCount(s[..n], c) + (if s[n].count == c then [s[n]] else [])
  }

  /** Selecting by count distributes over concatenation. */
  lemma {:induction false} WithCountAppend(a: seq<Entry>, b: seq<Entry>, c: nat)
    ensures WithCount(a + b, c) == WithCount(a, c) + WithCount(b, c)
  {
    if b == [] {
      assert a + b == a;
    } else {
      var n := |b| - 1;
      WithCountAppend(a, b[..n], c);
      assert (a + b)[..|a + b| - 1] == a + b[..n];
      assert (a + b)[|a + b| - 1] == b[n];
    }
  }

  /** A sequence with no record of count `c` selects nothing. */
  lemma {:induction false} WithCountNone(s: seq<Entry>, c: nat)
    requires forall k :: 0 <= k < |s| ==> s[k].count != c
    ensures WithCount(s, c) == []
  {
    if s != [] {
      WithCountNone(s[..|s| - 1], c);
    }
  }

  /** Inserting `x` into a sorted sequence adds it after every record of its
      own count, and changes no other count's records. */
  lemma InsertWithCount(t: seq<Entry>, x: Entry, c: nat)
    requires SortedByCount(t)
    ensures WithCount(InsertByCount(t, x), c) == WithCount(t, c) + (if x.count == c then [x] else [])
  {
    var p := InsertIndex(t, x);
    InsertIndexSplits(t, x);
    assert t == t[..p] + t[p..];
    WithCountAppend(t[..p], t[p..], c);
    WithCountAppend(t[..p] + [x], t[p..], c);
    WithCountAppend(t[..p], [x], c);
    WithCountSingle(x, c);
    if x.count == c {
      WithCountOfLower(t, p, c);
    }
  }

  /** One record is selected exactly when it has count `c`. */
  lemma WithCountSingle(x: Entry, c: nat)
    ensures WithCount([x], c) == (if x.count == c then [x] else [])
  {
    assert [x][..0] == [];
  }

  /** A suffix whose counts are all below `c` selects nothing. */
  lemma WithCountOfLower(t: seq<Entry>, p: nat, c: nat)
    requires p <= |t|
    requires forall k :: p <= k < |t| ==> t[k].count < c
    ensures WithCount(t[p..], c) == []
  {
    forall k | 0 <= k < |t[p..]|
      ensures t[p..][k].count != c
    {
      assert t[p..][k] == t[p + k];
    }
    WithCountNone(t[p..], c);
  }

  /** Stability: for every count, the records with that count come out
      exactly as, and in the order, they went in. */
  lemma {:induction false} SortByCountStable(s: seq<Entry>)
    ensures forall c: nat :: WithCount(SortByCount(s), c) == WithCount(s, c)
  {
    if s != [] {
      var n := |s| - 1;
      SortByCountStable(s[..n]);
      SortByCountSorted(s[..n]);
      forall c: nat
        ensures WithCount(SortByCount(s), c) == WithCount(s, c)
      {
        InsertWithCount(SortByCount(s[..n]), s[n], c);
      }
    }
  }

  /** Sorting keeps the sum of the counts. */
  lemma {:induction false} SortByCountTotal(s: seq<Entry>)
    ensures TotalCount(SortByCount(s)) == TotalCount(s)
  {
    if s != [] {
      var n := |s| - 1;
      SortByCountTotal(s[..n]);
      InsertTotal(SortByCount(s[..n]), s[n]);
    }
  }

  /** Inserting a record adds its count to the sum. */
  lemma InsertTotal(t: seq<Entry>, x: Entry)
    ensures TotalCount(InsertByCount(t, x)) == TotalCount(t) + x.count
  {
    var p := InsertIndex(t, x);
    TotalCountAppend(t[..p] + [x], t[p..]);
    TotalCountAppend(t[..p], [x]);
    TotalCountAppend(t[..p], t[p..]);
    assert t == t[..p] + t[p..];
    assert TotalCount([x]) == x.count by {
      assert [x][..0] == [];
    }
  }

  // ---------------------------------------------------------------------
  // The leaderboard

  /** No two records share a code. */
  predicate UniqueCodes(s: seq<Entry>) {
    forall i, j :: 0 <= i < j < |s| ==> s[i].code != s[j].code
  }

  /** Sorting keeps the codes unique. */
  lemma {:induction false} SortByCountUnique(s: seq<Entry>)
    requires UniqueCodes(s)
    ensures UniqueCodes(SortByCount(s))
  {
    if s != [] {
      var n := |s| - 1;
      var t := SortByCount(s[..n]);
      SortByCountUnique(s[..n]);
      SortByCountPermutes(s[..n]);
      forall e | e in t
        ensures e.code != s[n].code
      {
        assert e in multiset(s[..n]);
      }
      InsertUnique(t, s[n]);
    }
  }

  /** Inserting a record with a new code keeps the codes unique. */
  lemma InsertUnique(t: seq<Entry>, x: Entry)
    requires UniqueCodes(t)
    requires forall e :: e in t ==> e.code != x.code
    ensures UniqueCodes(InsertByCount(t, x))
  {
    InsertAt(t, x);
  }

  /** What `calculateLeaderboard(parsedData, referralData)` returns. */
  function Leaderboard(rows: seq<Row>, directory: Directory): seq<Entry>
  {
    SortByCount(Tally(directory, Codes(rows)))
  }

  /** The tally holds the right record for every code read, once each, in
      first-appearance order. */
  lemma TallyFacts(directory: Directory, xs: seq<Code>)
    ensures var t := Tally(directory, xs);
      UniqueCodes(t)
      && TotalCount(t) == |xs|
      && (forall c :: c in xs ==> exists k :: 0 <= k < |t| && t[k].code == c)
      && (forall e :: e in t ==> e.code in xs && e == EntryFor(directory, xs, e.code))
  {
    var d := Distinct(xs);
    DistinctKeeps(xs);
    EntriesAt(directory, xs, d);
    EntriesTotal(directory, xs, d);
    var t := Tally(directory, xs);
    forall c | c in xs
      ensures exists k :: 0 <= k < |t| && t[k].code == c
    {
      var k :| 0 <= k < |d| && d[k] == c;
      assert t[k].code == c;
    }
  }

  /** Conservation: every record counts the rows carrying its code, at least
      one, under the name the directory gives that code, and the counts add
      up to the number of rows. */
  lemma LeaderboardCounts(rows: seq<Row>, directory: Directory)
    ensures var codes, board := Codes(rows), Leaderboard(rows, directory);
      TotalCount(board) == |rows|
      && forall e :: e in board ==>
        e.count == Count(codes, e.code) && e.count >= 1 && e.name == Owner(directory, e.code)
  {
    var codes := Codes(rows);
    var t := Tally(directory, codes);
    TallyFacts(directory, codes);
    SortByCountTotal(t);
    SortByCountPermutes(t);
    forall e | e in Leaderboard(rows, directory)
      ensures e.count == Count(codes, e.code) && e.count >= 1 && e.name == Owner(directory, e.code)
    {
      assert e in multiset(t);
      CountPositive(codes, e.code);
    }
  }

  /** One record per distinct referral code among the rows, and no other. */
  lemma LeaderboardOnePerCode(rows: seq<Row>, directory: Directory)
    ensures var codes, board := Codes(rows), Leaderboard(rows, directory);
      UniqueCodes(board)
      && (forall c :: c in codes <==> exists k :: 0 <= k < |board| && board[k].code == c)
  {
    var codes := Codes(rows);
    var t := Tally(directory, codes);
    var board := Leaderboard(rows, directory);
    TallyFacts(directory, codes);
    SortByCountUnique(t);
    SortByCountPermutes(t);
    forall c | c in codes
      ensures exists k :: 0 <= k < |board| && board[k].code == c
    {
      var k :| 0 <= k < |t| && t[k].code == c;
      assert t[k] in multiset(board);
      var k' :| 0 <= k' < |board| && board[k'] == t[k];
    }
    forall k | 0 <= k < |board|
      ensures board[k].code in codes
    {
      assert board[k] in multiset(t);
    }
  }

  /** The records are ordered by count, highest first, and records with equal
      counts keep the order in which their codes first appear among the rows. */
  lemma LeaderboardOrder(rows: seq<Row>, directory: Directory)
    ensures var codes, board := Codes(rows), Leaderboard(rows, directory);
      SortedByCount(board)
      && forall i, j :: 0 <= i < j < |board| && board[i].count == board[j].count ==>
        board[i].code in codes && board[j].code in codes
        && FirstIndex(codes, board[i].code) < FirstIndex(codes, board[j].code)
  {
    var codes := Codes(rows);
    var t := Tally(directory, codes);
    var board := Leaderboard(rows, directory);
    SortByCountSorted(t);
    SortByCountKeepsTiePairs(t);
    TallyInFirstAppearanceOrder(directory, codes);
    forall i, j | 0 <= i < j < |board| && board[i].count == board[j].count
      ensures board[i].code in codes && board[j].code in codes
      ensures FirstIndex(codes, board[i].code) < FirstIndex(codes, board[j].code)
    {
      var p, q :| 0 <= p < q < |t| && t[p] == board[i] && t[q] == board[j];
    }
  }

  /** The tally lists its records in the order their codes first appear. */
  lemma TallyInFirstAppearanceOrder(directory: Directory, xs: seq<Code>)
    ensures var t := Tally(directory, xs);
      forall p, q :: 0 <= p < q < |t| ==>
        t[p].code in xs && t[q].code in xs && FirstIndex(xs, t[p].code) < FirstIndex(xs, t[q].code)
  {
    var d := Distinct(xs);
    DistinctInFirstAppearanceOrder(xs);
    EntriesAt(directory, xs, d);
  }

  /** No rows, no records. */
  lemma LeaderboardOfNothing(directory: Directory)
    ensures Leaderboard([], directory) == []
  {
  }

  /** A non-empty run of one code has that code as its only distinct code,
      counted once per element. */
  lemma {:induction false} DistinctOfRun(xs: seq<Code>, c: Code)
    requires xs != []
    requires forall k :: 0 <= k < |xs| ==> xs[k] == c
    ensures Distinct(xs) == [c] && Count(xs, c) == |xs|
  {
    var n := |xs| - 1;
    if n > 0 {
      DistinctOfRun(xs[..n], c);
      assert xs[n] == xs[..n][0];
    } else {
      assert xs[..n] == [];
    }
  }

  /** Without a "Referral Code" column every row is tallied under the one
      `undefined` key, which no directory entry owns. */
  lemma LeaderboardWithoutCodes(rows: seq<Row>, directory: Directory)
    requires rows != []
    requires forall r :: r in rows ==> ReferralCode !in r
    ensures Leaderboard(rows, directory) == [Entry(None, None, |rows|)]
  {
    var codes := Codes(rows);
    forall k | 0 <= k < |codes|
      ensures codes[k] == None
    {
      assert rows[k] in rows;
    }
    DistinctOfRun(codes, None);
    OwnerIsFirstMatch(directory, None);
    var e := Entry(None, None, |rows|);
    var none: seq<Code> := [None];
    assert none[..0] == [];
    assert Tally(directory, codes) == [e];
    assert [e][..0] == [];
  }

  // ---------------------------------------------------------------------
  // The routine

  /** One row's visit in `parsedData.forEach`: the code is added to the key
      order when first seen, and the count of every code is kept. */
  lemma TallyStep(xs: seq<Code>, i: nat)
    requires i < |xs|
    ensures Distinct(xs[..i + 1]) == Distinct(xs[..i]) + (if xs[i] in xs[..i] then [] else [xs[i]])
    ensures forall c :: Count(xs[..i + 1], c) == Count(xs[..i], c) + (if xs[i] == c then 1 else 0)
  {
    assert xs[..i + 1][..i] == xs[..i];
  }

  /** `parsedData.forEach(...)` in `calculateLeaderboard`: the `Map` is the
      key order `order` (its insertion order) together with the dictionary
      `referralCount`. A code seen for the first time gets a record naming its
      owner, with count 0; then the record of the row's code is incremented. */
  method CountReferrals(parsedData: seq<Row>, referralData: Directory)
    returns (order: seq<Code>, referralCount: map<Code, Entry>)
    ensures order == Distinct(Codes(parsedData))
    ensures forall c :: c in referralCount <==> c in order
    ensures forall c :: c in referralCount ==> referralCount[c] == EntryFor(referralData, Codes(parsedData), c)
  {
    ghost var codes := Codes(parsedData);
    order := [];
    referralCount := map[];
    for i := 0 to |parsedData|
      invariant order == Distinct(codes[..i])
      invariant forall c :: c in referralCount <==> c in order
      invariant forall c :: c in referralCount ==> referralCount[c] == EntryFor(referralData, codes[..i], c)
    {
      TallyStep(codes, i);
      DistinctKeeps(codes[..i]);
      var code := CodeOf(parsedData[i]);
      if code !in referralCount {
        var owner := Owner(referralData, code);
        CountPositive(codes[..i], code);
        referralCount := referralCount[code := Entry(owner, code, 0)];
        order := order + [code];
      }
      var entry := referralCount[code];
      referralCount := referralCount[code := entry.(count := entry.count + 1)];
    }
    assert codes[..|parsedData|] == codes;
  }

  /** `Array.from(referralCount.values())`: the records in key order. */
  method RecordsInOrder(order: seq<Code>, referralCount: map<Code, Entry>) returns (values: seq<Entry>)
    requires forall c :: c in order ==> c in referralCount
    ensures |values| == |order|
    ensures forall k :: 0 <= k < |order| ==> values[k] == referralCount[order[k]]
  {
    values := [];
    for k := 0 to |order|
      invariant |values| == k
      invariant forall j :: 0 <= j < k ==> values[j] == referralCount[order[j]]
    {
      values := values + [referralCount[order[k]]];
    }
  }

  /** `calculateLeaderboard(parsedData, referralData)`: the tally, its records
      in first-appearance order, sorted by count (stably). */
  method CalculateLeaderboard(parsedData: seq<Row>, referralData: Directory) returns (board: seq<Entry>)
    ensures board == Leaderboard(parsedData, referralData)
  {
    var order, referralCount := CountReferrals(parsedData, referralData);
    var values := RecordsInOrder(order, referralCount);
    EntriesAt(referralData, Codes(parsedData), order);
    assert values == Tally(referralData, Codes(parsedData));
    board := SortByCount(values);
  }
}
