/**
 * The tally engine: pure reads over a snapshot of the stored vote counts together
 * with the configured roster (lebaouivoting/js/voting.js, `getTotalVotes` to `getLeader`).
 * Percentages are exact: the quotient count / total * 100 rounded to one decimal and
 * held as a whole number of tenths of a percent.
 */
module Tally {
  import opened Wrappers
  import opened Config
  import opened Decimal

  /** Vote counts keyed by candidate id, as stored under the tally key. */
  type Tally = map<string, nat>

  /** The tally `ensureVotesExist` creates: every configured candidate at zero. */
  function ZeroTally(): (t: Tally)
    ensures t.Keys == CandidateIds()
    ensures forall id :: id in t ==> t[id] == 0
  {
    map id | id in CandidateIds() :: 0
  }

  ghost function PickKey(t: Tally): (k: string)
    requires |t| > 0
    ensures k in t
  {
    var k :| k in t; k
  }

  /** The sum of every stored count, in no particular order. */
  ghost function TotalVotes(t: Tally): nat
    decreases |t|
  {
    if |t| == 0 then 0 else var k := PickKey(t); t[k] + TotalVotes(t - {k})
  }

  /** The sum does not depend on which entry is taken out first. */
  lemma {:induction false} TotalVotesRemove(t: Tally, k: string)
    requires k in t
    ensures TotalVotes(t) == t[k] + TotalVotes(t - {k})
    decreases |t|
  {
    var j := PickKey(t);
    if j != k {
      TotalVotesRemove(t - {j}, k);
      TotalVotesRemove(t - {k}, j);
      assert t - {j} - {k} == t - {k} - {j};
    }
  }

  /** `votes[candidateId]++` on a tally that has the candidate. */
  function AddVote(t: Tally, k: string): (t': Tally)
    requires k in t
    ensures t'.Keys == t.Keys && t'[k] == t[k] + 1
    ensures forall j :: j in t && j != k ==> t'[j] == t[j]
  {
    t[k := t[k] + 1]
  }

  /** Raising one stored count by one raises the total by exactly one. */
  lemma TotalVotesIncrement(t: Tally, k: string)
    requires k in t
    ensures TotalVotes(AddVote(t, k)) == TotalVotes(t) + 1
  {
    var t' := AddVote(t, k);
    TotalVotesRemove(t, k);
    TotalVotesRemove(t', k);
    assert t' - {k} == t - {k};
  }

  /** A tally of zeros sums to zero. */
  lemma {:induction false} TotalVotesOfZeros(t: Tally)
    requires forall id :: id in t ==> t[id] == 0
    ensures TotalVotes(t) == 0
    decreases |t|
  {
    if |t| > 0 {
      TotalVotesOfZeros(t - {PickKey(t)});
    }
  }

  /** No single count exceeds the total. */
  lemma CountAtMostTotal(t: Tally, k: string)
    requires k in t
    ensures t[k] <= TotalVotes(t)
  {
    TotalVotesRemove(t, k);
  }

  /** `getTotalVotes`: the `reduce` over the stored values, taken one key at a time. */
  method GetTotalVotes(t: Tally) returns (total: nat)
    ensures total == TotalVotes(t)
  {
    total := 0;
    var rest := t;
    while |rest| > 0
      invariant total + TotalVotes(rest) == TotalVotes(t)
      decreases |rest|
    {
      var k :| k in rest;
      TotalVotesRemove(rest, k);
      total := total + rest[k];
      rest := rest - {k};
    }
  }

  /** `getCandidateVotes`: the stored count, or 0 for an id the tally does not hold. */
  function CandidateVotes(t: Tally, id: string): (n: nat)
    ensures id !in t ==> n == 0
    ensures n <= TotalVotes(t)
  {
    if id in t then CountAtMostTotal(t, id); t[id] else 0
  }

  /**
   * count / total * 100 rounded to one decimal, in tenths: the nearest whole number of
   * tenths, a tie going to the larger one (as `toFixed` rounds).
   */
  function RoundedTenths(count: nat, total: nat): (r: nat)
    requires total > 0
    ensures total * (2 * r - 1) <= 2000 * count < total * (2 * r + 1)
    ensures count <= total ==> r <= 1000
  {
    RoundingBounds(count, total);
    (2000 * count + total) / (2 * total)
  }

  lemma RoundingBounds(count: nat, total: nat)
    requires total > 0
    ensures var q := (2000 * count + total) / (2 * total);
            total * (2 * q - 1) <= 2000 * count < total * (2 * q + 1)
            && (count <= total ==> q <= 1000)
  {
    var q := (2000 * count + total) / (2 * total);
    assert 2 * total * q <= 2000 * count + total < 2 * total * q + 2 * total;
    assert total * (2 * q - 1) == 2 * total * q - total;
    assert total * (2 * q + 1) == 2 * total * q + total;
    if count <= total {
      assert 2000 * count + total < 2 * total * 1001;
    }
  }

  /** What `getCandidatePercentage` returns: the number 0, or the text `toFixed(1)` writes. */
  datatype PercentValue = Number(value: nat) | Fixed(text: string)

  /** `getCandidatePercentage`: 0 on an empty tally, else the rounded share as one-decimal text. */
  ghost function CandidatePercentage(t: Tally, id: string): (p: PercentValue)
    ensures TotalVotes(t) == 0 ==> p == Number(0)
    ensures TotalVotes(t) > 0 ==>
              && p.Fixed?
              && ParseTenths(p.text) == Some(RoundedTenths(CandidateVotes(t, id), TotalVotes(t)))
              && ParseTenths(p.text).value <= 1000
  {
    var total := TotalVotes(t);
    if total == 0 then Number(0)
    else
      var r := RoundedTenths(CandidateVotes(t, id), total);
      FixedOneRoundTrip(r);
      Fixed(FixedOne(r))
  }

  /** A candidate with its count and its share in tenths of a percent, before ranking. */
  datatype Entry = Entry(candidate: Candidate, votes: nat, percentage: nat)

  /** A result row of `getResults`: the entry and its 1-based rank. */
  datatype Ranked = Ranked(entry: Entry, rank: nat)

  /** The percentage a result row holds: `parseFloat` of the `toFixed(1)` text, or 0. */
  function PercentageField(count: nat, total: nat): (p: nat)
    ensures total == 0 ==> p == 0
    ensures total > 0 ==> p == RoundedTenths(count, total)
  {
    if total == 0 then 0
    else
      var r := RoundedTenths(count, total);
      FixedOneRoundTrip(r);
      ParseTenths(FixedOne(r)).value
  }

  /** The `CONFIG.candidates.map(...)` step of `getResults`, in configuration order. */
  function Entries(t: Tally, total: nat): (es: seq<Entry>)
    ensures |es| == |Candidates|
  {
    seq(|Candidates|, i requires 0 <= i < |Candidates| =>
      Entry(Candidates[i], CandidateVotes(t, Candidates[i].id),
            PercentageField(CandidateVotes(t, Candidates[i].id), total)))
  }

  /** Place x before the first entry with no more votes than x: one step of a stable sort. */
  function InsertByVotes(x: Entry, s: seq<Entry>): (r: seq<Entry>)
    ensures multiset(r) == multiset(s) + multiset{x}
  {
    if s == [] || s[0].votes <= x.votes then [x] + s
    else
      assert s == [s[0]] + s[1..];
      [s[0]] + InsertByVotes(x, s[1..])
  }

  /**
   * `results.sort((a, b) => b.votes - a.votes)`: the engine's sort is stable, so its
   * result is the one this insertion sort builds.
   */
  function SortByVotes(s: seq<Entry>): (r: seq<Entry>)
    ensures multiset(r) == multiset(s)
  {
    if s == [] then []
    else
      assert s == [s[0]] + s[1..];
      InsertByVotes(s[0], SortByVotes(s[1..]))
  }

  /** The reference order of the results: more votes first, ties in configuration order. */
  predicate Precedes(a: Entry, b: Entry) {
    a.votes > b.votes
    || (a.votes == b.votes && ConfigIndex(a.candidate.id) < ConfigIndex(b.candidate.id))
  }

  ghost predicate RankedOrder(s: seq<Entry>) {
    forall i, j :: 0 <= i < j < |s| ==> Precedes(s[i], s[j])
  }

  ghost predicate InConfigOrder(s: seq<Entry>) {
    forall i, j :: 0 <= i < j < |s| ==> ConfigIndex(s[i].candidate.id) < ConfigIndex(s[j].candidate.id)
  }

  lemma InsertMembers(x: Entry, s: seq<Entry>, y: Entry)
    requires y in InsertByVotes(x, s)
    ensures y == x || y in s
  {
    assert y in multiset(InsertByVotes(x, s));
  }

  /** Inserting an entry that comes earlier in the configuration keeps the reference order. */
  lemma {:induction false} InsertKeepsOrder(x: Entry, s: seq<Entry>)
    requires RankedOrder(s)
    requires forall y :: y in s ==> ConfigIndex(x.candidate.id) < ConfigIndex(y.candidate.id)
    ensures RankedOrder(InsertByVotes(x, s))
  {
    if s == [] || s[0].votes <= x.votes {
      assert InsertByVotes(x, s) == [x] + s;
      FrontKeepsOrder(x, s);
    } else {
      var rest := s[1..];
      TailKeepsOrder(s);
      InsertKeepsOrder(x, rest);
      assert InsertByVotes(x, s) == [s[0]] + InsertByVotes(x, rest);
      forall y | y in InsertByVotes(x, rest) ensures Precedes(s[0], y) {
        InsertMembers(x, rest, y);
        if y != x {
          var m :| 0 <= m < |rest| && rest[m] == y;
          assert Precedes(s[0], s[m + 1]);
        }
      }
      ConsKeepsOrder(s[0], InsertByVotes(x, rest));
    }
  }

  lemma TailKeepsOrder(s: seq<Entry>)
    requires RankedOrder(s) && s != []
    ensures RankedOrder(s[1..])
  {
    forall i, j | 0 <= i < j < |s[1..]| ensures Precedes(s[1..][i], s[1..][j]) {
      assert s[1..][i] == s[i + 1] && s[1..][j] == s[j + 1];
    }
  }

  lemma ConsKeepsOrder(y: Entry, s: seq<Entry>)
    requires RankedOrder(s)
    requires forall z :: z in s ==> Precedes(y, z)
    ensures RankedOrder([y] + s)
  {
    var r := [y] + s;
    forall i, j | 0 <= i < j < |r| ensures Precedes(r[i], r[j]) {
      assert r[j] == s[j - 1];
      if i > 0 { assert r[i] == s[i - 1]; }
    }
  }

  lemma FrontKeepsOrder(x: Entry, s: seq<Entry>)
    requires RankedOrder(s)
    requires s != [] ==> s[0].votes <= x.votes
    requires forall y :: y in s ==> ConfigIndex(x.candidate.id) < ConfigIndex(y.candidate.id)
    ensures RankedOrder([x] + s)
  {
    forall z | z in s ensures Precedes(x, z) {
      var m :| 0 <= m < |s| && s[m] == z;
      if m > 0 { assert Precedes(s[0], s[m]); }
    }
    ConsKeepsOrder(x, s);
  }

  /** Sorting entries given in configuration order yields the reference order (stability). */
  lemma {:induction false} SortIsStable(s: seq<Entry>)
    requires InConfigOrder(s)
    ensures RankedOrder(SortByVotes(s))
  {
    if s != [] {
      var rest := SortByVotes(s[1..]);
      SortIsStable(s[1..]);
      assert InConfigOrder(s[1..]) by {
        forall i, j | 0 <= i < j < |s[1..]|
          ensures ConfigIndex(s[1..][i].candidate.id) < ConfigIndex(s[1..][j].candidate.id)
        {
          assert s[1..][i] == s[i + 1] && s[1..][j] == s[j + 1];
        }
      }
      forall y | y in rest
        ensures ConfigIndex(s[0].candidate.id) < ConfigIndex(y.candidate.id)
      {
        assert y in multiset(s[1..]);
        var k :| 0 <= k < |s[1..]| && s[1..][k] == y;
        assert s[k + 1] == y;
      }
      InsertKeepsOrder(s[0], rest);
    }
  }

  /** The `forEach` step of `getResults`: rank = position + 1. */
  function Ranks(s: seq<Entry>): (rs: seq<Ranked>)
    ensures |rs| == |s|
    ensures forall i :: 0 <= i < |s| ==> rs[i].entry == s[i] && rs[i].rank == i + 1
  {
    seq(|s|, i requires 0 <= i < |s| => Ranked(s[i], i + 1))
  }

  /** `getResults` on a tally snapshot. */
  ghost function Results(t: Tally): (rs: seq<Ranked>)
    ensures |rs| == |Candidates|
    ensures forall i :: 0 <= i < |rs| ==> rs[i].rank == i + 1
  {
    var sorted := SortByVotes(Entries(t, TotalVotes(t)));
    assert |sorted| == |multiset(sorted)| == |Candidates|;
    Ranks(sorted)
  }

  /** Everything `getResults` promises about its rows. */
  lemma ResultsProperties(t: Tally)
    ensures |Results(t)| == |Candidates|
    ensures forall i :: 0 <= i < |Results(t)| ==> Results(t)[i].rank == i + 1
    ensures forall i, j :: 0 <= i < j < |Results(t)| ==> Precedes(Results(t)[i].entry, Results(t)[j].entry)
    ensures forall i :: 0 <= i < |Results(t)| ==>
              var e := Results(t)[i].entry;
              e.candidate in Candidates && e.votes == CandidateVotes(t, e.candidate.id)
              && e.percentage == PercentageField(e.votes, TotalVotes(t))
    ensures forall c :: c in Candidates ==>
              exists i :: 0 <= i < |Results(t)| && Results(t)[i].entry.candidate == c
  {
    var es := Entries(t, TotalVotes(t));
    var sorted := SortByVotes(es);
    EntriesInConfigOrder(t, TotalVotes(t));
    SortIsStable(es);
    assert |sorted| == |es| by {
      assert |multiset(sorted)| == |multiset(es)|;
    }
    SortedRows(t, sorted);
    SortedCoversRoster(t, sorted);
    var rs := Results(t);
    assert rs == Ranks(sorted);
    forall i, j | 0 <= i < j < |rs| ensures Precedes(rs[i].entry, rs[j].entry) {
      assert rs[i].entry == sorted[i] && rs[j].entry == sorted[j];
    }
    forall c | c in Candidates
      ensures exists i :: 0 <= i < |rs| && rs[i].entry.candidate == c
    {
      var i :| 0 <= i < |sorted| && sorted[i].candidate == c;
      assert rs[i].entry == sorted[i];
    }
  }

  lemma EntriesInConfigOrder(t: Tally, total: nat)
    ensures InConfigOrder(Entries(t, total))
  {
    var es := Entries(t, total);
    forall i, j | 0 <= i < j < |es|
      ensures ConfigIndex(es[i].candidate.id) < ConfigIndex(es[j].candidate.id)
    {
      ConfigIndexOfCandidate(i);
      ConfigIndexOfCandidate(j);
    }
  }

  lemma SortedRows(t: Tally, sorted: seq<Entry>)
    requires multiset(sorted) == multiset(Entries(t, TotalVotes(t)))
    ensures forall i :: 0 <= i < |sorted| ==>
              && sorted[i].candidate in Candidates
              && sorted[i].votes == CandidateVotes(t, sorted[i].candidate.id)
              && sorted[i].percentage == PercentageField(sorted[i].votes, TotalVotes(t))
  {
    var es := Entries(t, TotalVotes(t));
    forall i | 0 <= i < |sorted|
      ensures sorted[i].candidate in Candidates
      ensures sorted[i].votes == CandidateVotes(t, sorted[i].candidate.id)
      ensures sorted[i].percentage == PercentageField(sorted[i].votes, TotalVotes(t))
    {
      assert sorted[i] in multiset(es);
      var k :| 0 <= k < |es| && es[k] == sorted[i];
    }
  }

  lemma SortedCoversRoster(t: Tally, sorted: seq<Entry>)
    requires multiset(sorted) == multiset(Entries(t, TotalVotes(t)))
    ensures forall c :: c in Candidates ==> exists i :: 0 <= i < |sorted| && sorted[i].candidate == c
  {
    var es := Entries(t, TotalVotes(t));
    forall c | c in Candidates
      ensures exists i :: 0 <= i < |sorted| && sorted[i].candidate == c
    {
      var k :| 0 <= k < |Candidates| && Candidates[k] == c;
      assert es[k] in multiset(sorted);
      var i :| 0 <= i < |sorted| && sorted[i] == es[k];
    }
  }

  /** `getLeader` on a tally snapshot: the first result row, if any. */
  ghost function Leader(t: Tally): (l: Option<Ranked>)
    ensures l.Some? && l.value.rank == 1
  {
    var rs := Results(t);
    if |rs| > 0 then Some(rs[0]) else None
  }

  /**
   * The leader exists, is ranked 1, has at least as many votes as every configured
   * candidate, and is the earliest in configuration order among those with that many.
   */
  lemma LeaderHasMostVotes(t: Tally)
    ensures Leader(t).Some? && Leader(t).value.rank == 1
    ensures Leader(t).value.entry.candidate in Candidates
    ensures Leader(t).value.entry.votes == CandidateVotes(t, Leader(t).value.entry.candidate.id)
    ensures forall c :: c in Candidates ==> CandidateVotes(t, c.id) <= Leader(t).value.entry.votes
    ensures forall c :: c in Candidates && CandidateVotes(t, c.id) == Leader(t).value.entry.votes
              ==> ConfigIndex(Leader(t).value.entry.candidate.id) <= ConfigIndex(c.id)
  {
    ResultsProperties(t);
    var rs := Results(t);
    forall c | c in Candidates
      ensures CandidateVotes(t, c.id) <= rs[0].entry.votes
      ensures CandidateVotes(t, c.id) == rs[0].entry.votes
              ==> ConfigIndex(rs[0].entry.candidate.id) <= ConfigIndex(c.id)
    {
      var i :| 0 <= i < |rs| && rs[i].entry.candidate == c;
      if i > 0 {
        assert Precedes(rs[0].entry, rs[i].entry);
      }
    }
  }

  /** `getResults`: count, build the rows in configuration order, sort, then number them. */
  method GetResults(t: Tally) returns (results: seq<Ranked>)
    ensures results == Results(t)
  {
    var total := GetTotalVotes(t);
    var sorted := SortByVotes(Entries(t, total));
    results := [];
    var i := 0;
    while i < |sorted|
      invariant 0 <= i <= |sorted|
      invariant |results| == i
      invariant forall k :: 0 <= k < i ==> results[k] == Ranked(sorted[k], k + 1)
    {
      results := results + [Ranked(sorted[i], i + 1)];
      i := i + 1;
    }
    assert results == Ranks(sorted);
  }

  /** `getLeader`: the first row of `getResults`, or null when there is none. */
  method GetLeader(t: Tally) returns (leader: Option<Ranked>)
    ensures leader == Leader(t)
  {
    var results := GetResults(t);
    leader := if |results| > 0 then Some(results[0]) else None;
  }

  /** The ids of a list of candidates. */
  function IdsOf(cs: seq<Candidate>): (ids: set<string>)
    ensures cs != [] ==> cs[0].id in ids
  {
    if cs == [] then {} else {cs[0].id} + IdsOf(cs[1..])
  }

  /** An id is among a list's ids exactly when some position of the list holds it. */
  lemma {:induction false} IdsOfPositions(cs: seq<Candidate>, id: string)
    ensures id in IdsOf(cs) <==> exists i :: 0 <= i < |cs| && cs[i].id == id
  {
    if cs != [] {
      IdsOfPositions(cs[1..], id);
      if id in IdsOf(cs[1..]) {
        var i :| 0 <= i < |cs| - 1 && cs[1..][i].id == id;
        assert cs[i + 1].id == id;
      }
      if exists i :: 0 <= i < |cs| && cs[i].id == id {
        var i :| 0 <= i < |cs| && cs[i].id == id;
        if i > 0 {
          assert cs[1..][i - 1].id == id;
        }
      }
    }
  }

  /** The counts of a list of candidates, in list order. */
  function CountsOf(t: Tally, cs: seq<Candidate>): (xs: seq<nat>)
    ensures |xs| == |cs|
    ensures forall i :: 0 <= i < |cs| ==> xs[i] == CandidateVotes(t, cs[i].id)
  {
    seq(|cs|, i requires 0 <= i < |cs| => CandidateVotes(t, cs[i].id))
  }

  /** A list of counts, added up. */
  function Sum(xs: seq<nat>): (n: nat)
    ensures xs == [] ==> n == 0
  {
    if xs == [] then 0 else xs[0] + Sum(xs[1..])
  }

  /** The percentage fields of rows with the given counts, added up, in tenths of a percent. */
  function PercentSum(xs: seq<nat>, total: nat): (p: nat)
    ensures total == 0 ==> p == 0
  {
    if xs == [] then 0 else PercentageField(xs[0], total) + PercentSum(xs[1..], total)
  }

  /** With distinct ids, the first id does not occur again further down. */
  lemma FirstIdNotRepeated(cs: seq<Candidate>)
    requires cs != []
    requires forall i, j :: 0 <= i < j < |cs| ==> cs[i].id != cs[j].id
    ensures cs[0].id !in IdsOf(cs[1..])
  {
    IdsOfPositions(cs[1..], cs[0].id);
  }

  /** When the tally holds exactly the listed ids, each once, its total is their counts added up. */
  lemma {:induction false} TotalOverList(t: Tally, cs: seq<Candidate>)
    requires forall i, j :: 0 <= i < j < |cs| ==> cs[i].id != cs[j].id
    requires t.Keys == IdsOf(cs)
    ensures TotalVotes(t) == Sum(CountsOf(t, cs))
  {
    if cs == [] {
      assert t == map[];
    } else {
      var k := cs[0].id;
      var rest := cs[1..];
      FirstIdNotRepeated(cs);
      assert (t - {k}).Keys == IdsOf(rest);
      TotalVotesRemove(t, k);
      TotalOverList(t - {k}, rest);
      forall i | 0 <= i < |rest|
        ensures rest[i].id != k
      {
        IdsOfPositions(rest, k);
      }
      assert CountsOf(t - {k}, rest) == CountsOf(t, cs)[1..];
    }
  }

  /** The roster lists every configured id exactly once. */
  lemma RosterIds()
    ensures IdsOf(Candidates) == CandidateIds()
  {
  }

  /**
   * n rows whose percentages add up to p tenths, for counts adding up to s out of total,
   * lie within half a tenth per row of the exact share: 2000 * s / total is within n of 2 * p
   * (strictly below the upper end once there is a row).
   */
  ghost predicate WithinBand(total: int, p: int, s: int, n: int) {
    && total * (2 * p - n) <= 2000 * s <= total * (2 * p + n)
    && (n > 0 ==> 2000 * s < total * (2 * p + n))
  }

  /**
   * Each row's percentage is its exact share rounded to the nearest tenth, so the rows'
   * percentages added up are within half a tenth per row of the counts' exact share.
   */
  lemma {:induction false} PercentSumBounds(xs: seq<nat>, total: nat)
    requires total > 0
    ensures WithinBand(total, PercentSum(xs, total), Sum(xs), |xs|)
  {
    if xs == [] {
      assert PercentSum(xs, total) == 0 && Sum(xs) == 0;
    } else {
      var rest := xs[1..];
      PercentSumBounds(rest, total);
      BoundStep(total, PercentageField(xs[0], total), xs[0], PercentSum(rest, total), Sum(rest), |rest|,
                PercentSum(xs, total), Sum(xs), |xs|);
    }
  }

  /**
   * Adding one rounded row (r tenths for count c) to a sum of n rounded rows (p tenths
   * for counts s) widens the band by half a tenth on each side.
   */
  lemma BoundStep(total: int, r: int, c: int, p: int, s: int, n: int, p1: int, s1: int, n1: int)
    requires total > 0 && n >= 0
    requires total * (2 * r - 1) <= 2000 * c < total * (2 * r + 1)
    requires WithinBand(total, p, s, n)
    requires p1 == r + p && s1 == c + s && n1 == n + 1
    ensures WithinBand(total, p1, s1, n1)
  {
    assert total * (2 * p1 - n1) == total * (2 * r - 1) + total * (2 * p - n);
    assert total * (2 * p1 + n1) == total * (2 * r + 1) + total * (2 * p + n);
  }

  /**
   * For a tally that holds exactly the configured candidates and at least one vote, the
   * percentage fields of the six result rows add up to 100% give or take 0.3% (each row
   * is off by at most half a tenth).
   */
  lemma PercentagesSumNear100(t: Tally)
    requires t.Keys == CandidateIds() && TotalVotes(t) > 0
    ensures 997 < PercentSum(CountsOf(t, Candidates), TotalVotes(t)) <= 1003
  {
    RosterIds();
    CandidateIdsDistinct();
    TotalOverList(t, Candidates);
    RowsNearWhole(CountsOf(t, Candidates), TotalVotes(t));
  }

  /**
   * What the results page shows: the `percentage` fields of the rows `getResults`
   * returns add up to 100% give or take 0.3%, under the same conditions.
   */
  lemma ResultsPercentagesSumNear100(t: Tally)
    requires t.Keys == CandidateIds() && TotalVotes(t) > 0
    ensures 997 < RowPercentSum(Results(t)) <= 1003
  {
    var total := TotalVotes(t);
    PercentagesSumNear100(t);
    var es := Entries(t, total);
    EntrySumOfFields(es, CountsOf(t, Candidates), total);
    var sorted := SortByVotes(es);
    SortKeepsPercentSum(es);
    assert |sorted| == |es| by {
      assert |multiset(sorted)| == |multiset(es)|;
    }
    RowSumOfEntries(Results(t), sorted);
  }

  /** The percentage fields of a list of entries, added up. */
  function EntryPercentSum(s: seq<Entry>): (p: nat)
    ensures s == [] ==> p == 0
  {
    if s == [] then 0 else s[0].percentage + EntryPercentSum(s[1..])
  }

  /** The percentage fields of a list of result rows, added up. */
  function RowPercentSum(rs: seq<Ranked>): (p: nat)
    ensures rs == [] ==> p == 0
  {
    if rs == [] then 0 else rs[0].entry.percentage + RowPercentSum(rs[1..])
  }

  lemma {:induction false} InsertKeepsPercentSum(x: Entry, s: seq<Entry>)
    ensures EntryPercentSum(InsertByVotes(x, s)) == x.percentage + EntryPercentSum(s)
  {
    var r := InsertByVotes(x, s);
    if s == [] || s[0].votes <= x.votes {
      assert r[1..] == s;
    } else {
      InsertKeepsPercentSum(x, s[1..]);
      assert r[1..] == InsertByVotes(x, s[1..]);
    }
  }

  /** Sorting the rows does not change what their percentages add up to. */
  lemma {:induction false} SortKeepsPercentSum(s: seq<Entry>)
    ensures EntryPercentSum(SortByVotes(s)) == EntryPercentSum(s)
  {
    if s != [] {
      SortKeepsPercentSum(s[1..]);
      InsertKeepsPercentSum(s[0], SortByVotes(s[1..]));
    }
  }

  /** Entries whose percentages are the fields of the given counts add up as those counts' fields do. */
  lemma {:induction false} EntrySumOfFields(es: seq<Entry>, xs: seq<nat>, total: nat)
    requires |es| == |xs|
    requires forall i :: 0 <= i < |es| ==> es[i].percentage == PercentageField(xs[i], total)
    ensures EntryPercentSum(es) == PercentSum(xs, total)
  {
    if es != [] {
      EntrySumOfFields(es[1..], xs[1..], total);
    }
  }

  /** Ranking keeps each row's entry, so the percentages add up the same. */
  lemma {:induction false} RowSumOfEntries(rs: seq<Ranked>, s: seq<Entry>)
    requires |rs| == |s|
    requires forall i :: 0 <= i < |rs| ==> rs[i].entry == s[i]
    ensures RowPercentSum(rs) == EntryPercentSum(s)
  {
    if rs != [] {
      RowSumOfEntries(rs[1..], s[1..]);
    }
  }

  /** Six rows whose counts add up to the total have percentages adding up to 100% give or take 0.3%. */
  lemma RowsNearWhole(xs: seq<nat>, total: nat)
    requires total > 0 && |xs| == 6 && Sum(xs) == total
    ensures 997 < PercentSum(xs, total) <= 1003
  {
    PercentSumBounds(xs, total);
    SixRowsNear(total, PercentSum(xs, total));
  }

  /** Six rows within half a tenth each of shares that add up to the whole make 100% give or take 0.3%. */
  lemma SixRowsNear(total: int, p: int)
    requires total > 0
    requires total * (2 * p - 6) <= 2000 * total < total * (2 * p + 6)
    ensures 997 < p <= 1003
  {
    PositiveFactorOrder(total, 2 * p - 6, 2000);
    PositiveFactorOrder(total, 2000, 2 * p + 5);
  }

  /** A positive factor keeps the order of what it multiplies. */
  lemma PositiveFactorOrder(a: int, x: int, y: int)
    requires a > 0 && a * x <= a * y
    ensures x <= y
  {
    assert a * (x - y) == a * x - a * y;
    if x > y {
      ProductPositive(a, x - y);
    }
  }

  /** The product of two positive numbers is positive. */
  lemma {:induction false} ProductPositive(a: int, d: int)
    requires a > 0 && d > 0
    ensures a * d > 0
    decreases d
  {
    if d > 1 {
      ProductPositive(a, d - 1);
      assert a * d == a * (d - 1) + a;
    }
  }
}
