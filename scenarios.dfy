/**
 * Whole-flow examples: a fresh browser store, sign-ins and votes, and what the
 * tally, the leader and the percentages read afterwards.
 */
module Scenarios {
  import opened Wrappers
  import opened Config
  import opened Decimal
  import opened Tally
  import opened Storage
  import opened Auth
  import opened Voting

  /** A candidate with strictly more votes than every other configured candidate is the leader. */
  lemma LeaderIsSoleTop(t: Tally, c: Candidate)
    requires c in Candidates
    requires forall d :: d in Candidates && d.id != c.id ==> CandidateVotes(t, d.id) < CandidateVotes(t, c.id)
    ensures Leader(t).Some? && Leader(t).value.entry.candidate.id == c.id
  {
    LeaderHasMostVotes(t);
  }

  /** A share of 1000 tenths is written "100.0". */
  lemma HundredText()
    ensures FixedOne(1000) == "100.0"
  {
    assert DigitChar(0) == '0' && DigitChar(1) == '1';
    assert NatToString(1) == "1";
    assert NatToString(10) == "10";
    assert NatToString(100) == "100";
  }

  /** A share of 750 tenths is written "75.0". */
  lemma SeventyFiveText()
    ensures FixedOne(750) == "75.0"
  {
    assert DigitChar(0) == '0' && DigitChar(5) == '5' && DigitChar(7) == '7';
    assert NatToString(7) == "7";
    assert NatToString(75) == "75";
  }

  /** The store a first visit leaves behind once the tally has been initialised. */
  function FreshStore(): (st: Store)
    ensures WellTyped(st) && TallyReady(st)
    ensures GetAllVotes(st) == ZeroTally() && GetUserVote(st).None?
  {
    EnsureVotes(map[])
  }

  /** The tally after a single vote for deku. */
  function DekuTally(): (t: Tally)
    ensures t.Keys == CandidateIds()
  {
    assert "deku" == Candidates[3].id;
    AddVote(ZeroTally(), "deku")
  }

  /** On a fresh store, one signed-in vote for deku is accepted and leaves deku 1, the rest 0. */
  lemma OneVoteForDeku(u: User, token: string, ts: string, vid: string)
    requires token != ""
    ensures var out := Cast(SignIn(FreshStore(), token, u, None), "deku", ts, vid);
            out.0.success && GetAllVotes(out.1) == DekuTally()
  {
    assert Candidates[3].id in CandidateIds();
    SignedInVoteSucceeds(FreshStore(), token, u, None, "deku", ts, vid);
  }

  /** Any tally that reads deku 1 and 0 elsewhere has deku as its leader. */
  lemma DekuLeads(t: Tally)
    requires t.Keys == CandidateIds()
    requires forall id :: id in t ==> t[id] == (if id == "deku" then 1 else 0)
    ensures Leader(t).value.entry.candidate.id == "deku"
  {
    var deku := Candidates[3];
    assert deku.id == "deku" && deku.id in CandidateIds();
    assert CandidateVotes(t, deku.id) == 1;
    forall d | d in Candidates && d.id != deku.id
      ensures CandidateVotes(t, d.id) < CandidateVotes(t, deku.id)
    {
      assert d.id in CandidateIds();
      assert t[d.id] == 0;
    }
    LeaderIsSoleTop(t, deku);
  }

  /** After that vote the total is 1, deku leads, and deku's percentage reads "100.0". */
  lemma DekuTallyReads()
    ensures TotalVotes(DekuTally()) == 1
    ensures Leader(DekuTally()).value.entry.candidate.id == "deku"
    ensures CandidatePercentage(DekuTally(), "deku") == Fixed("100.0")
  {
    var t := DekuTally();
    assert "deku" == Candidates[3].id && "deku" in CandidateIds();
    TotalVotesOfZeros(ZeroTally());
    TotalVotesIncrement(ZeroTally(), "deku");
    DekuLeads(t);
    assert CandidateVotes(t, "deku") == 1;
    SoleVoteText(t, "deku");
  }

  /** When the only vote cast is for `id`, its percentage reads "100.0". */
  lemma SoleVoteText(t: Tally, id: string)
    requires TotalVotes(t) == 1 && CandidateVotes(t, id) == 1
    ensures CandidatePercentage(t, id) == Fixed("100.0")
  {
    assert RoundedTenths(1, 1) == 1000;
    HundredText();
  }

  /** The tally after one vote for horsy and three for star. */
  function HorsyStarTally(): (t: Tally)
    ensures t.Keys == CandidateIds()
  {
    assert "horsy" == Candidates[0].id && "star" == Candidates[2].id;
    var z := ZeroTally();
    AddVote(AddVote(AddVote(AddVote(z, "horsy"), "star"), "star"), "star")
  }

  /** On a fresh store, voter a's vote for horsy is accepted and a second attempt is refused. */
  lemma HorsyThenRefused(a: User, token: string, ts: string, vid: string)
    requires token != ""
    ensures var s1 := Cast(SignIn(FreshStore(), token, a, None), "horsy", ts, vid);
            && s1.0.success && Cast(s1.1, "horsy", ts, vid) == (Failed(MSG_ALREADY_VOTED), s1.1)
            && WellTyped(s1.1) && TallyReady(s1.1)
            && GetUserVote(s1.1).Some? && GetUserVote(s1.1).value.userId == a.id
            && GetAllVotes(s1.1) == AddVote(ZeroTally(), "horsy")
  {
    assert Candidates[0].id in CandidateIds();
    var st0 := FreshStore();
    SignedInVoteSucceeds(st0, token, a, None, "horsy", ts, vid);
    SecondVoteRejected(SignIn(st0, token, a, None), "horsy", ts, vid, "horsy", ts, vid);
  }

  /**
   * After a vote by someone else, three voters b, c and d sign in one after another in
   * the same browser and vote star: each vote is accepted and star gains three.
   */
  lemma ThreeStarVotes(st: Store, b: User, c: User, d: User, tokens: seq<string>, ts: string, vid: string)
    requires WellTyped(st) && TallyReady(st)
    requires |tokens| == 4 && forall i :: 0 <= i < 4 ==> tokens[i] != ""
    requires GetUserVote(st).Some? && GetUserVote(st).value.userId != b.id
    requires b.id != c.id && c.id != d.id
    ensures var s3 := Cast(SignIn(st, tokens[1], b, None), "star", ts, vid);
            var s4 := Cast(SignIn(s3.1, tokens[2], c, None), "star", ts, vid);
            var s5 := Cast(SignIn(s4.1, tokens[3], d, None), "star", ts, vid);
            && s3.0.success && s4.0.success && s5.0.success
            && GetAllVotes(s5.1) == AddVote(AddVote(AddVote(GetAllVotes(st), "star"), "star"), "star")
  {
    assert Candidates[2].id in CandidateIds();
    SignedInVoteSucceeds(st, tokens[1], b, None, "star", ts, vid);
    var s3 := Cast(SignIn(st, tokens[1], b, None), "star", ts, vid);
    SignedInVoteSucceeds(s3.1, tokens[2], c, None, "star", ts, vid);
    var s4 := Cast(SignIn(s3.1, tokens[2], c, None), "star", ts, vid);
    SignedInVoteSucceeds(s4.1, tokens[3], d, None, "star", ts, vid);
  }

  /**
   * Voter a votes horsy and is refused a second vote; then b, c and d vote star in turn
   * in the same browser. The tally ends as horsy 1, star 3, the rest 0.
   */
  lemma HorsyThenThreeStars(a: User, b: User, c: User, d: User, tokens: seq<string>, ts: string, vid: string)
    requires |tokens| == 4 && forall i :: 0 <= i < 4 ==> tokens[i] != ""
    requires a.id != b.id && b.id != c.id && c.id != d.id
    ensures var s1 := Cast(SignIn(FreshStore(), tokens[0], a, None), "horsy", ts, vid);
            var s2 := Cast(s1.1, "horsy", ts, vid);
            var s3 := Cast(SignIn(s2.1, tokens[1], b, None), "star", ts, vid);
            var s4 := Cast(SignIn(s3.1, tokens[2], c, None), "star", ts, vid);
            var s5 := Cast(SignIn(s4.1, tokens[3], d, None), "star", ts, vid);
            && s1.0.success && s2.0 == Failed(MSG_ALREADY_VOTED)
            && s3.0.success && s4.0.success && s5.0.success
            && GetAllVotes(s5.1) == HorsyStarTally()
  {
    HorsyThenRefused(a, tokens[0], ts, vid);
    var s1 := Cast(SignIn(FreshStore(), tokens[0], a, None), "horsy", ts, vid);
    var s2 := Cast(s1.1, "horsy", ts, vid);
    assert s2.1 == s1.1;
    ThreeStarVotes(s2.1, b, c, d, tokens, ts, vid);
    assert GetAllVotes(s2.1) == AddVote(ZeroTally(), "horsy");
  }

  /** Candidate by candidate, that tally reads horsy 1, star 3 and 0 for everyone else. */
  lemma HorsyStarCounts()
    ensures forall id :: id in HorsyStarTally() ==>
              HorsyStarTally()[id] == (if id == "star" then 3 else if id == "horsy" then 1 else 0)
  {
    assert "horsy" == Candidates[0].id && "star" == Candidates[2].id;
    var z := ZeroTally();
    var t1 := AddVote(z, "horsy");
    var t2 := AddVote(t1, "star");
    var t3 := AddVote(t2, "star");
    var t4 := AddVote(t3, "star");
    assert HorsyStarTally() == t4;
    forall id | id in t4
      ensures t4[id] == (if id == "star" then 3 else if id == "horsy" then 1 else 0)
    {
      assert id in t3 && id in t2 && id in t1 && id in z;
    }
  }

  /** Four accepted votes, one for a and three for b, add four to any tally's total. */
  lemma TotalAfterFourVotes(z: Tally, a: string, b: string)
    requires a in z && b in z
    ensures TotalVotes(AddVote(AddVote(AddVote(AddVote(z, a), b), b), b)) == TotalVotes(z) + 4
  {
    var t1 := AddVote(z, a);
    TotalVotesIncrement(z, a);
    var t2 := AddVote(t1, b);
    TotalVotesIncrement(t1, b);
    var t3 := AddVote(t2, b);
    TotalVotesIncrement(t2, b);
    TotalVotesIncrement(t3, b);
  }

  /** That tally holds four votes in all. */
  lemma HorsyStarTotal()
    ensures TotalVotes(HorsyStarTally()) == 4
  {
    assert "horsy" == Candidates[0].id && "star" == Candidates[2].id;
    TotalVotesOfZeros(ZeroTally());
    TotalAfterFourVotes(ZeroTally(), "horsy", "star");
  }

  /** Any tally that reads horsy 1, star 3 and 0 elsewhere has star as its leader. */
  lemma StarLeads(t: Tally)
    requires t.Keys == CandidateIds()
    requires forall id :: id in t ==> t[id] == (if id == "star" then 3 else if id == "horsy" then 1 else 0)
    ensures Leader(t).value.entry.candidate.id == "star"
  {
    var star := Candidates[2];
    assert star.id == "star" && star.id in CandidateIds();
    assert CandidateVotes(t, star.id) == 3;
    forall d | d in Candidates && d.id != star.id
      ensures CandidateVotes(t, d.id) < CandidateVotes(t, star.id)
    {
      assert d.id in CandidateIds();
      assert t[d.id] <= 1;
    }
    LeaderIsSoleTop(t, star);
  }

  /** In that tally star leads. */
  lemma HorsyStarLeader()
    ensures Leader(HorsyStarTally()).value.entry.candidate.id == "star"
  {
    HorsyStarCounts();
    StarLeads(HorsyStarTally());
  }

  /** In that tally star's percentage reads "75.0". */
  lemma HorsyStarPercentage()
    ensures CandidatePercentage(HorsyStarTally(), "star") == Fixed("75.0")
  {
    HorsyStarCounts();
    HorsyStarTotal();
    assert Candidates[2].id in CandidateIds();
    assert CandidateVotes(HorsyStarTally(), "star") == 3;
    assert RoundedTenths(3, 4) == 750;
    SeventyFiveText();
  }
}
