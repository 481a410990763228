/**
 * The voting store (lebaouivoting/js/voting.js): the tally and the single vote-record
 * slot in local storage, and `castVote`, the only operation that adds a vote.
 * Each state change is given as a function from the old storage to the new one and
 * as a method on the shared `LocalStorage` that performs the source's steps.
 */
module Voting {
  import opened Wrappers
  import opened Config
  import opened Tally
  import opened Storage
  import opened Auth

  const MSG_NOT_LOGGED_IN: string := "You must be logged in to vote"
  const MSG_ALREADY_VOTED: string := "You have already voted"
  const MSG_INVALID_CANDIDATE: string := "Invalid candidate"
  const MSG_RECORDED: string := "Vote recorded successfully"

  /** The object `castVote` returns; `voteRecord` is present only on success. */
  datatype VoteResult = VoteResult(success: bool, message: string, voteRecord: Option<VoteRecord>)

  function Failed(message: string): VoteResult {
    VoteResult(false, message, None)
  }

  /** `getAllVotes`: the stored tally, or `{}` when none is stored. */
  function GetAllVotes(st: Store): (t: Tally)
    ensures VotesKey !in st ==> t == map[]
    ensures VotesKey in st && st[VotesKey].Votes? ==> t == st[VotesKey].tally
  {
    if VotesKey in st && st[VotesKey].Votes? then st[VotesKey].tally else map[]
  }

  /** `getUserVote`: the record in the single vote slot, or null. */
  function GetUserVote(st: Store): (r: Option<VoteRecord>)
    ensures r.Some? ==> UserVoteKey in st && st[UserVoteKey] == Record(r.value)
    ensures WellTyped(st) ==> (r.Some? <==> UserVoteKey in st)
  {
    if UserVoteKey in st && st[UserVoteKey].Record? then Some(st[UserVoteKey].record) else None
  }

  /**
   * `hasUserVoted`: false when signed out or when the slot is empty; otherwise whether
   * the one stored record carries the current user's id.
   */
  predicate HasUserVoted(st: Store)
  {
    && IsAuthenticated(st)
    && GetUserVote(st).Some?
    && GetUser(st).Some?
    && GetUserVote(st).value.userId == GetUser(st).value.id
  }

  /** The three cases of `hasUserVoted` on well-typed storage. */
  lemma HasUserVotedCases(st: Store)
    requires WellTyped(st)
    ensures !IsAuthenticated(st) ==> !HasUserVoted(st)
    ensures UserVoteKey !in st ==> !HasUserVoted(st)
    ensures IsAuthenticated(st) && UserVoteKey in st ==>
              (HasUserVoted(st) <==> st[UserVoteKey].record.userId == st[UserKey].user.id)
  {
  }

  /** The stored tally holds a count for every configured candidate. */
  predicate TallyReady(st: Store) {
    CandidateIds() <= GetAllVotes(st).Keys
  }

  /** The storage after `ensureVotesExist`: an all-zero tally only where none is stored. */
  function EnsureVotes(st: Store): (st': Store)
    ensures VotesKey in st ==> st' == st
    ensures VotesKey !in st ==> st' == st[VotesKey := Votes(ZeroTally())]
    ensures VotesKey !in st ==> TallyReady(st') && TotalVotes(GetAllVotes(st')) == 0
    ensures VotesKey in st'
    ensures WellTyped(st) ==> WellTyped(st')
  {
    if VotesKey in st then st
    else
      var st' := st[VotesKey := Votes(ZeroTally())];
      TotalVotesOfZeros(ZeroTally());
      st'
  }

  /** Calling `ensureVotesExist` again never changes an existing tally. */
  lemma EnsureVotesIdempotent(st: Store)
    ensures EnsureVotes(EnsureVotes(st)) == EnsureVotes(st)
  {
  }

  /** `ensureVotesExist`: build the zero tally candidate by candidate, then store it. */
  method EnsureVotesExist(ls: LocalStorage)
    modifies ls
    ensures ls.entries == EnsureVotes(old(ls.entries))
  {
    if VotesKey !in ls.entries {
      var initialVotes: Tally := map[];
      for i := 0 to |Candidates|
        invariant initialVotes.Keys == set j | 0 <= j < i :: Candidates[j].id
        invariant forall id :: id in initialVotes ==> initialVotes[id] == 0
      {
        initialVotes := initialVotes[Candidates[i].id := 0];
      }
      assert initialVotes == ZeroTally() by {
        assert initialVotes.Keys == CandidateIds() by {
          forall id | id in CandidateIds() ensures id in initialVotes {
            var c :| c in Candidates && c.id == id;
            var j :| 0 <= j < |Candidates| && Candidates[j] == c;
          }
        }
      }
      ls.SetItem(VotesKey, Votes(initialVotes));
    }
  }

  /** The record `castVote` writes for a user voting for a configured candidate. */
  function NewRecord(c: Candidate, u: User, timestamp: string, voteId: string): VoteRecord {
    VoteRecord(c.id, c.name, u.id, UserTag(u), timestamp, voteId)
  }

  /** The storage a successful vote leaves: the raised tally and the overwritten slot. */
  function Commit(st: Store, candidateId: string, record: VoteRecord): (st': Store)
    requires candidateId in GetAllVotes(st)
    ensures WellTyped(st) ==> WellTyped(st')
    ensures TallyReady(st) ==> TallyReady(st')
  {
    var votes := GetAllVotes(st);
    st[VotesKey := Votes(AddVote(votes, candidateId))][UserVoteKey := Record(record)]
  }

  /**
   * `castVote(candidateId)` as a transition of the storage: three checks in order
   * (signed in, not yet voted, configured candidate), each failing with its message
   * and no change; then one counter raised by one and the vote slot overwritten.
   * The clock's timestamp and the random vote id are parameters.
   */
  function Cast(st: Store, candidateId: string, timestamp: string, voteId: string): (out: (VoteResult, Store))
    requires WellTyped(st) && TallyReady(st)
    ensures !IsAuthenticated(st) ==> out == (Failed(MSG_NOT_LOGGED_IN), st)
    ensures IsAuthenticated(st) && HasUserVoted(st) ==> out == (Failed(MSG_ALREADY_VOTED), st)
    ensures IsAuthenticated(st) && !HasUserVoted(st) && candidateId !in CandidateIds() ==>
              out == (Failed(MSG_INVALID_CANDIDATE), st)
    ensures out.0.success <==> IsAuthenticated(st) && !HasUserVoted(st) && candidateId in CandidateIds()
    ensures WellTyped(out.1) && TallyReady(out.1)
  {
    if !IsAuthenticated(st) then (Failed(MSG_NOT_LOGGED_IN), st)
    else if HasUserVoted(st) then (Failed(MSG_ALREADY_VOTED), st)
    else match FindCandidate(candidateId)
      case None => (Failed(MSG_INVALID_CANDIDATE), st)
      case Some(candidate) =>
        var record := NewRecord(candidate, GetUser(st).value, timestamp, voteId);
        (VoteResult(true, MSG_RECORDED, Some(record)), Commit(st, candidateId, record))
  }

  /**
   * A successful `castVote` raises exactly the chosen count by one (so the total by one),
   * stores the record of this user's vote in the slot, and touches no other key.
   */
  lemma CastSuccessEffect(st: Store, candidateId: string, timestamp: string, voteId: string)
    requires WellTyped(st) && TallyReady(st)
    requires Cast(st, candidateId, timestamp, voteId).0.success
    ensures var out := Cast(st, candidateId, timestamp, voteId);
            var result, st' := out.0, out.1;
            var before := GetAllVotes(st);
            && GetAllVotes(st') == AddVote(before, candidateId)
            && TotalVotes(GetAllVotes(st')) == TotalVotes(before) + 1
            && result.message == MSG_RECORDED
            && result.voteRecord == Some(NewRecord(FindCandidate(candidateId).value, GetUser(st).value, timestamp, voteId))
            && GetUserVote(st') == result.voteRecord
            && st'.Keys == st.Keys + {UserVoteKey}
            && (forall k :: k in st && k != VotesKey && k != UserVoteKey ==> st'[k] == st[k])
  {
    var candidate := FindCandidate(candidateId).value;
    var record := NewRecord(candidate, GetUser(st).value, timestamp, voteId);
    assert Cast(st, candidateId, timestamp, voteId) == (VoteResult(true, MSG_RECORDED, Some(record)), Commit(st, candidateId, record));
    CommitEffect(st, candidateId, record);
  }

  lemma CommitEffect(st: Store, candidateId: string, record: VoteRecord)
    requires candidateId in GetAllVotes(st)
    ensures var st' := Commit(st, candidateId, record);
            var before := GetAllVotes(st);
            && GetAllVotes(st') == AddVote(before, candidateId)
            && TotalVotes(GetAllVotes(st')) == TotalVotes(before) + 1
            && GetUserVote(st') == Some(record)
            && st'.Keys == st.Keys + {UserVoteKey}
            && (forall k :: k in st && k != VotesKey && k != UserVoteKey ==> st'[k] == st[k])
  {
    var before := GetAllVotes(st);
    TotalVotesIncrement(before, candidateId);
  }

  /** After a successful vote the same session reads as having voted. */
  lemma CastMarksVoted(st: Store, candidateId: string, timestamp: string, voteId: string)
    requires WellTyped(st) && TallyReady(st)
    requires Cast(st, candidateId, timestamp, voteId).0.success
    ensures HasUserVoted(Cast(st, candidateId, timestamp, voteId).1)
    ensures IsAuthenticated(Cast(st, candidateId, timestamp, voteId).1)
  {
    var st' := Cast(st, candidateId, timestamp, voteId).1;
    assert GetUser(st') == GetUser(st);
  }

  /**
   * A second `castVote` by the same session fails with 'You have already voted' and
   * changes nothing, so the tally moves exactly once.
   */
  lemma SecondVoteRejected(st: Store, id1: string, ts1: string, vid1: string, id2: string, ts2: string, vid2: string)
    requires WellTyped(st) && TallyReady(st)
    requires Cast(st, id1, ts1, vid1).0.success
    ensures var st1 := Cast(st, id1, ts1, vid1).1;
            Cast(st1, id2, ts2, vid2) == (Failed(MSG_ALREADY_VOTED), st1)
  {
    CastMarksVoted(st, id1, ts1, vid1);
  }

  /**
   * Signing in as a user whose id differs from the one in the slot (or with an empty
   * slot) leaves a store in which that user may vote.
   */
  lemma SignedInMayVote(st: Store, token: string, u: User, guilds: Option<seq<Guild>>)
    requires WellTyped(st) && TallyReady(st) && token != ""
    requires GetUserVote(st).None? || GetUserVote(st).value.userId != u.id
    ensures var s := SignIn(st, token, u, guilds);
            && WellTyped(s) && TallyReady(s) && IsAuthenticated(s) && !HasUserVoted(s)
            && GetAllVotes(s) == GetAllVotes(st)
  {
    var s := SignIn(st, token, u, guilds);
    assert GetUser(s) == Some(u);
  }

  /**
   * A user who signs in while the slot is empty or holds another account's record can
   * vote for any configured candidate; afterwards the slot holds that user's record and
   * exactly that candidate's count has gone up by one.
   */
  lemma SignedInVoteSucceeds(st: Store, token: string, u: User, guilds: Option<seq<Guild>>, candidateId: string, timestamp: string, voteId: string)
    requires WellTyped(st) && TallyReady(st) && token != ""
    requires candidateId in CandidateIds()
    requires GetUserVote(st).None? || GetUserVote(st).value.userId != u.id
    ensures var out := Cast(SignIn(st, token, u, guilds), candidateId, timestamp, voteId);
            var result, st' := out.0, out.1;
            && result.success
            && WellTyped(st') && TallyReady(st')
            && GetUserVote(st').Some? && GetUserVote(st').value.userId == u.id
            && GetAllVotes(st') == AddVote(GetAllVotes(st), candidateId)
            && TotalVotes(GetAllVotes(st')) == TotalVotes(GetAllVotes(st)) + 1
  {
    SignedInMayVote(st, token, u, guilds);
    var s := SignIn(st, token, u, guilds);
    CastSuccessEffect(s, candidateId, timestamp, voteId);
    var out := Cast(s, candidateId, timestamp, voteId);
    var record := NewRecord(FindCandidate(candidateId).value, u, timestamp, voteId);
    assert GetUserVote(out.1) == Some(record) && record.userId == u.id;
    var before := GetAllVotes(st);
    assert GetAllVotes(s) == before;
    assert GetAllVotes(out.1) == AddVote(before, candidateId);
  }

  /**
   * `castVote` is gated by `hasUserVoted`, which reads only the one slot: once another
   * account has voted in the same browser, the first account reads as not having voted
   * and its second vote is counted too.
   */
  lemma SlotOverwriteForgetsFirstVoter(st: Store, a: User, b: User, tokenA: string, tokenB: string, guilds: Option<seq<Guild>>,
                                        id1: string, id2: string, ts: string, vid: string)
    requires WellTyped(st) && TallyReady(st) && UserVoteKey !in st
    requires tokenA != "" && tokenB != "" && a.id != b.id
    requires id1 in CandidateIds() && id2 in CandidateIds()
    ensures var s1 := Cast(SignIn(st, tokenA, a, guilds), id1, ts, vid);
            var s2 := Cast(SignIn(s1.1, tokenB, b, guilds), id2, ts, vid);
            var s3 := Cast(SignIn(s2.1, tokenA, a, guilds), id1, ts, vid);
            && s1.0.success && s2.0.success && s3.0.success
            && TotalVotes(GetAllVotes(s3.1)) == TotalVotes(GetAllVotes(st)) + 3
  {
    SignedInVoteSucceeds(st, tokenA, a, guilds, id1, ts, vid);
    var s1 := Cast(SignIn(st, tokenA, a, guilds), id1, ts, vid);
    SignedInVoteSucceeds(s1.1, tokenB, b, guilds, id2, ts, vid);
    var s2 := Cast(SignIn(s1.1, tokenB, b, guilds), id2, ts, vid);
    SignedInVoteSucceeds(s2.1, tokenA, a, guilds, id1, ts, vid);
  }

  /** `castVote`: the checks, then the tally write, then the record write. */
  method CastVote(ls: LocalStorage, candidateId: string, timestamp: string, voteId: string)
    returns (result: VoteResult)
    requires ls.Valid() && TallyReady(ls.entries)
    modifies ls
    ensures ls.Valid() && TallyReady(ls.entries)
    ensures (result, ls.entries) == Cast(old(ls.entries), candidateId, timestamp, voteId)
  {
    ghost var st := ls.entries;
    if !IsAuthenticated(ls.entries) {
      return Failed(MSG_NOT_LOGGED_IN);
    }
    if HasUserVoted(ls.entries) {
      return Failed(MSG_ALREADY_VOTED);
    }
    var candidate := FindCandidate(candidateId);
    if candidate.None? {
      return Failed(MSG_INVALID_CANDIDATE);
    }
    var record := RecordVote(ls, candidate.value, timestamp, voteId);
    result := VoteResult(true, MSG_RECORDED, Some(record));
  }

  /**
   * The writes of an accepted `castVote`: the raised tally first, then the record built
   * from the stored user.
   */
  method RecordVote(ls: LocalStorage, candidate: Candidate, timestamp: string, voteId: string)
    returns (record: VoteRecord)
    requires WellTyped(ls.entries) && TallyReady(ls.entries) && IsAuthenticated(ls.entries)
    requires candidate in Candidates
    modifies ls
    ensures record == NewRecord(candidate, GetUser(old(ls.entries)).value, timestamp, voteId)
    ensures ls.entries == Commit(old(ls.entries), candidate.id, record)
  {
    ghost var st := ls.entries;
    var votes := GetAllVotes(ls.entries);
    votes := votes[candidate.id := votes[candidate.id] + 1];
    ls.SetItem(VotesKey, Votes(votes));
    assert GetUser(ls.entries) == GetUser(st) && GetUserTag(ls.entries) == GetUserTag(st);
    var user := GetUser(ls.entries).value;
    record := VoteRecord(candidate.id, candidate.name, user.id, GetUserTag(ls.entries).value, timestamp, voteId);
    ls.SetItem(UserVoteKey, Record(record));
  }

  /** The storage after `resetVotes`, given the answer to its confirmation dialog. */
  function Reset(st: Store, confirmed: bool): (st': Store)
    ensures !confirmed ==> st' == st
    ensures confirmed ==> GetUserVote(st').None? && GetAllVotes(st') == ZeroTally()
    ensures confirmed ==> TotalVotes(GetAllVotes(st')) == 0 && TallyReady(st') && !HasUserVoted(st')
    ensures confirmed ==> forall k :: k in st && k != VotesKey && k != UserVoteKey ==> k in st' && st'[k] == st[k]
    ensures confirmed ==> st'.Keys == st.Keys - {UserVoteKey} + {VotesKey}
    ensures WellTyped(st) ==> WellTyped(st')
  {
    if confirmed then
      var cleared := st - {VotesKey, UserVoteKey};
      ResetKeys(st);
      EnsureVotes(cleared)
    else st
  }

  /** Removing both voting keys and recreating the tally leaves every other key and the tally key. */
  lemma ResetKeys(st: Store)
    ensures (st - {VotesKey, UserVoteKey})[VotesKey := Votes(ZeroTally())].Keys
            == st.Keys - {UserVoteKey} + {VotesKey}
  {
  }

  /** `resetVotes`: remove both voting keys, then recreate the zero tally. */
  method ResetVotes(ls: LocalStorage, confirmed: bool)
    modifies ls
    ensures ls.entries == Reset(old(ls.entries), confirmed)
  {
    if confirmed {
      ls.RemoveItem(VotesKey);
      ls.RemoveItem(UserVoteKey);
      assert ls.entries == old(ls.entries) - {VotesKey, UserVoteKey};
      EnsureVotesExist(ls);
    }
  }
}
