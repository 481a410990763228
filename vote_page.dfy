/**
 * The voting page: which of its three panes is displayed, and the candidate the
 * visitor has picked but not yet confirmed.
 */
module VotePage {
  import opened Wrappers
  import opened Config
  import opened Storage
  import opened Auth
  import opened Voting
  import Utils

  /** The colour used when a candidate's colour text is not six hex digits: red 231, green 76, blue 60. */
  const DEFAULT_RGB := Utils.Rgb(231, 76, 60)

  /** The page's `hexToRgb`: the shared grammar, with the default colour instead of null on a mismatch. */
  function HexToRgbOrDefault(hex: string): (c: Utils.Rgb)
    ensures c.r < 256 && c.g < 256 && c.b < 256
    ensures Utils.HexToRgb(hex).Some? ==> c == Utils.HexToRgb(hex).value
    ensures Utils.HexToRgb(hex).None? ==> c == DEFAULT_RGB
  {
    match Utils.HexToRgb(hex)
    case Some(rgb) => rgb
    case None => DEFAULT_RGB
  }

  /** The fallback colour is the first candidate's configured colour, so no card shows a colour outside the roster's. */
  lemma DefaultIsFirstCandidateColour()
    ensures HexToRgbOrDefault(Candidates[0].color) == DEFAULT_RGB
    ensures forall c :: c in Candidates ==> Utils.HexToRgb(c.color).Some?
  {
    Utils.FirstColourChannels();
    Utils.ConfiguredColoursParse();
  }

  datatype Pane = AuthRequired | AlreadyVoted | VotingInterface

  /** The pane `initVotingPage` shows for the stored state. */
  function PaneFor(st: Store): (p: Pane)
  {
    if !IsAuthenticated(st) then AuthRequired
    else if HasUserVoted(st) then AlreadyVoted
    else VotingInterface
  }

  /** The display flags of the auth-required, already-voted and voting panes for a chosen pane. */
  function Display(p: Pane): (shown: (bool, bool, bool))
  {
    (p == AuthRequired, p == AlreadyVoted, p == VotingInterface)
  }

  predicate ExactlyOne(shown: (bool, bool, bool)) {
    (if shown.0 then 1 else 0) + (if shown.1 then 1 else 0) + (if shown.2 then 1 else 0) == 1
  }

  /**
   * Whatever is stored, exactly one pane is displayed: the auth-required pane whenever
   * nobody is signed in (even with a stored vote), the already-voted pane exactly for a
   * signed-in user whom `hasUserVoted` recognises, and the voting pane otherwise.
   */
  lemma PaneDecision(st: Store)
    ensures ExactlyOne(Display(PaneFor(st)))
    ensures Display(PaneFor(st)).0 <==> !IsAuthenticated(st)
    ensures Display(PaneFor(st)).1 <==> IsAuthenticated(st) && HasUserVoted(st)
    ensures Display(PaneFor(st)).2 <==> IsAuthenticated(st) && !HasUserVoted(st)
  {
  }

  /**
   * The pane agrees with what `castVote` would answer: the voting pane is shown exactly
   * when a vote for a configured candidate would be accepted, and each other pane
   * matches the refusal `castVote` gives.
   */
  lemma PaneMatchesCast(st: Store, c: Candidate, timestamp: string, voteId: string)
    requires WellTyped(st) && TallyReady(st) && c in Candidates
    ensures PaneFor(st) == VotingInterface <==> Cast(st, c.id, timestamp, voteId).0.success
    ensures PaneFor(st) == AuthRequired ==> Cast(st, c.id, timestamp, voteId).0 == Failed(MSG_NOT_LOGGED_IN)
    ensures PaneFor(st) == AlreadyVoted ==> Cast(st, c.id, timestamp, voteId).0 == Failed(MSG_ALREADY_VOTED)
  {
    assert c.id in CandidateIds();
  }

  /** After a vote is accepted, the reload the page schedules shows the already-voted pane. */
  lemma ReloadAfterVoteShowsAlreadyVoted(st: Store, candidateId: string, timestamp: string, voteId: string)
    requires WellTyped(st) && TallyReady(st)
    requires Cast(st, candidateId, timestamp, voteId).0.success
    ensures PaneFor(Cast(st, candidateId, timestamp, voteId).1) == AlreadyVoted
  {
    CastMarksVoted(st, candidateId, timestamp, voteId);
  }

  /** What the 500 ms submit callback did: threw before reaching the store, or got an answer from `castVote`. */
  datatype SubmitOutcome = Threw | Answered(result: VoteResult)

  /** The text of the alert shown when `castVote` refuses a vote. */
  function ErrorAlert(message: string): (text: string)
    ensures |text| == |"Error: "| + |message| && text[|"Error: "|..] == message
  {
    "Error: " + message
  }

  /**
   * The page's own state: the candidate picked, the display of its three panes and two
   * modals, the confirm button, the submit callbacks waiting on their 500 ms timer, and
   * whether a reload has been scheduled.
   */
  class VotePageState {
    var selectedCandidate: Option<Candidate>
    var authRequiredShown: bool
    var alreadyVotedShown: bool
    var interfaceShown: bool
    var confirmModalShown: bool
    var successModalShown: bool
    /** The confirm button is disabled and reads "Submitting..." (otherwise enabled, reading "Confirm Vote"). */
    var submitting: bool
    /** Callbacks scheduled by `submitVote` and not yet run; each reads the pick when it runs. */
    var pendingSubmits: nat
    /** Callbacks scheduled by the corrected submit, each holding the pick confirmed when it was scheduled. */
    var pendingPicks: seq<Candidate>
    var reloadScheduled: bool
    var lastAlert: Option<string>

    function Shown(): (bool, bool, bool)
      reads this
    {
      (authRequiredShown, alreadyVotedShown, interfaceShown)
    }

    /** The modals, the button, the reload timer and the last alert. */
    function Dialogs(): (bool, bool, bool, bool, Option<string>)
      reads this
    {
      (confirmModalShown, successModalShown, submitting, reloadScheduled, lastAlert)
    }

    constructor ()
      ensures selectedCandidate.None?
      ensures !authRequiredShown && !alreadyVotedShown && !interfaceShown
      ensures !confirmModalShown && !successModalShown && !submitting && !reloadScheduled && lastAlert.None?
      ensures pendingSubmits == 0 && pendingPicks == []
    {
      selectedCandidate := None;
      authRequiredShown, alreadyVotedShown, interfaceShown := false, false, false;
      confirmModalShown, successModalShown, submitting := false, false, false;
      pendingSubmits, pendingPicks := 0, [];
      reloadScheduled, lastAlert := false, None;
    }

    /** `initVotingPage`: shows the one pane the stored state calls for and hides the others. */
    method InitVotingPage(st: Store)
      modifies this
      ensures Shown() == Display(PaneFor(st))
      ensures ExactlyOne(Shown())
      ensures selectedCandidate == old(selectedCandidate) && Dialogs() == old(Dialogs())
      ensures pendingSubmits == old(pendingSubmits) && pendingPicks == old(pendingPicks)
    {
      PaneDecision(st);
      if !IsAuthenticated(st) {
        authRequiredShown, alreadyVotedShown, interfaceShown := true, false, false;
        return;
      }
      if HasUserVoted(st) {
        authRequiredShown, alreadyVotedShown, interfaceShown := false, true, false;
        return;
      }
      authRequiredShown, alreadyVotedShown, interfaceShown := false, false, true;
    }

    /** `selectCandidate`: remembers the clicked candidate and opens the confirmation modal. */
    method SelectCandidate(c: Candidate)
      modifies this
      ensures selectedCandidate == Some(c) && confirmModalShown
      ensures Shown() == old(Shown())
      ensures successModalShown == old(successModalShown) && submitting == old(submitting)
      ensures reloadScheduled == old(reloadScheduled) && lastAlert == old(lastAlert)
      ensures pendingSubmits == old(pendingSubmits) && pendingPicks == old(pendingPicks)
    {
      selectedCandidate := Some(c);
      confirmModalShown := true;
    }

    /**
     * The cancel button: closes the confirmation modal and forgets the pick. It is not
     * disabled while a submit waits, so it can run between a submit and its callback.
     */
    method CancelVote()
      modifies this
      ensures selectedCandidate.None? && !confirmModalShown
      ensures Shown() == old(Shown())
      ensures successModalShown == old(successModalShown) && submitting == old(submitting)
      ensures reloadScheduled == old(reloadScheduled) && lastAlert == old(lastAlert)
      ensures pendingSubmits == old(pendingSubmits) && pendingPicks == old(pendingPicks)
    {
      selectedCandidate := None;
      confirmModalShown := false;
    }

    /**
     * `submitVote`: with no candidate picked it does nothing; otherwise it disables the
     * confirm button and schedules the callback, which reads the pick only when it runs.
     */
    method SubmitVote()
      modifies this
      ensures selectedCandidate.None? ==>
                Dialogs() == old(Dialogs()) && pendingSubmits == old(pendingSubmits)
      ensures selectedCandidate.Some? ==>
                submitting && pendingSubmits == old(pendingSubmits) + 1
                && confirmModalShown == old(confirmModalShown) && successModalShown == old(successModalShown)
                && reloadScheduled == old(reloadScheduled) && lastAlert == old(lastAlert)
      ensures selectedCandidate == old(selectedCandidate) && Shown() == old(Shown())
      ensures pendingPicks == old(pendingPicks)
    {
      if selectedCandidate.None? {
        return;
      }
      submitting := true;
      pendingSubmits := pendingSubmits + 1;
    }

    /**
     * The end of a submit callback once `castVote` has answered: on success the
     * confirmation modal closes, the success modal opens and a reload is scheduled (the
     * button stays disabled); on refusal the error is alerted and the button is enabled again.
     */
    method Finish(result: VoteResult)
      modifies this
      ensures result.success ==>
                !confirmModalShown && successModalShown && reloadScheduled
                && submitting == old(submitting) && lastAlert == old(lastAlert)
      ensures !result.success ==>
                !submitting && lastAlert == Some(ErrorAlert(result.message))
                && confirmModalShown == old(confirmModalShown) && successModalShown == old(successModalShown)
                && reloadScheduled == old(reloadScheduled)
      ensures selectedCandidate == old(selectedCandidate) && Shown() == old(Shown())
      ensures pendingSubmits == old(pendingSubmits) && pendingPicks == old(pendingPicks)
    {
      if result.success {
        confirmModalShown := false;
        successModalShown := true;
        reloadScheduled := true;
      } else {
        lastAlert := Some(ErrorAlert(result.message));
        submitting := false;
      }
    }

    /**
     * A callback scheduled by `submitVote` runs. It reads the pick as it is now: if the
     * pick was cancelled meanwhile, `selectedCandidate.id` throws, nothing is stored and
     * the button stays disabled; if another candidate was picked meanwhile, that one gets
     * the vote.
     */
    method FireSubmit(ls: LocalStorage, timestamp: string, voteId: string) returns (outcome: SubmitOutcome)
      requires pendingSubmits > 0
      requires ls.Valid() && TallyReady(ls.entries)
      modifies this, ls
      ensures ls.Valid() && TallyReady(ls.entries)
      ensures pendingSubmits == old(pendingSubmits) - 1
      ensures old(selectedCandidate).None? ==>
                outcome == Threw && ls.entries == old(ls.entries) && Dialogs() == old(Dialogs())
      ensures old(selectedCandidate).Some? ==>
                outcome.Answered?
                && (outcome.result, ls.entries) == Cast(old(ls.entries), old(selectedCandidate).value.id, timestamp, voteId)
      ensures outcome.Answered? && outcome.result.success ==>
                !confirmModalShown && successModalShown && reloadScheduled
                && submitting == old(submitting) && lastAlert == old(lastAlert)
      ensures outcome.Answered? && !outcome.result.success ==>
                !submitting && lastAlert == Some(ErrorAlert(outcome.result.message))
                && confirmModalShown == old(confirmModalShown) && successModalShown == old(successModalShown)
                && reloadScheduled == old(reloadScheduled)
      ensures selectedCandidate == old(selectedCandidate) && Shown() == old(Shown())
      ensures pendingPicks == old(pendingPicks)
    {
      pendingSubmits := pendingSubmits - 1;
      if selectedCandidate.None? {
        return Threw;
      }
      var result := CastVote(ls, selectedCandidate.value.id, timestamp, voteId);
      Finish(result);
      outcome := Answered(result);
    }

    /**
     * The corrected `submitVote`: the pick is captured when the confirm button is
     * pressed, and the callback votes for that candidate whatever happens to the pick
     * during the wait.
     */
    method SubmitVoteCaptured()
      modifies this
      ensures selectedCandidate.None? ==>
                Dialogs() == old(Dialogs()) && pendingPicks == old(pendingPicks)
      ensures selectedCandidate.Some? ==>
                submitting && pendingPicks == old(pendingPicks) + [selectedCandidate.value]
                && confirmModalShown == old(confirmModalShown) && successModalShown == old(successModalShown)
                && reloadScheduled == old(reloadScheduled) && lastAlert == old(lastAlert)
      ensures selectedCandidate == old(selectedCandidate) && Shown() == old(Shown())
      ensures pendingSubmits == old(pendingSubmits)
    {
      if selectedCandidate.None? {
        return;
      }
      submitting := true;
      pendingPicks := pendingPicks + [selectedCandidate.value];
    }

    /** The oldest corrected callback runs and casts the vote for the pick it captured. */
    method FireCapturedSubmit(ls: LocalStorage, timestamp: string, voteId: string) returns (result: VoteResult)
      requires pendingPicks != []
      requires ls.Valid() && TallyReady(ls.entries)
      modifies this, ls
      ensures ls.Valid() && TallyReady(ls.entries)
      ensures pendingPicks == old(pendingPicks[1..])
      ensures (result, ls.entries) == Cast(old(ls.entries), old(pendingPicks[0]).id, timestamp, voteId)
      ensures result.success ==>
                !confirmModalShown && successModalShown && reloadScheduled
                && submitting == old(submitting) && lastAlert == old(lastAlert)
      ensures !result.success ==>
                !submitting && lastAlert == Some(ErrorAlert(result.message))
                && confirmModalShown == old(confirmModalShown) && successModalShown == old(successModalShown)
                && reloadScheduled == old(reloadScheduled)
      ensures selectedCandidate == old(selectedCandidate) && Shown() == old(Shown())
      ensures pendingSubmits == old(pendingSubmits)
    {
      var c := pendingPicks[0];
      pendingPicks := pendingPicks[1..];
      result := CastVote(ls, c.id, timestamp, voteId);
      Finish(result);
    }
  }

  /**
   * As written: a visitor picks `c`, confirms, and cancels within the 500 ms wait. The
   * callback throws, no vote is stored, and the confirm button stays on "Submitting...".
   */
  method CancelDuringWaitLosesVote(st: Store, c: Candidate, timestamp: string, voteId: string)
    returns (outcome: SubmitOutcome, after: Store, stuck: bool)
    requires WellTyped(st) && TallyReady(st)
    ensures outcome == Threw && after == st && stuck
  {
    var ls := new LocalStorage();
    ls.entries := st;
    var page := new VotePageState();
    page.SelectCandidate(c);
    page.SubmitVote();
    page.CancelVote();
    outcome := page.FireSubmit(ls, timestamp, voteId);
    after := ls.entries;
    stuck := page.submitting;
  }

  /**
   * As written: a visitor confirms `a`, cancels within the wait and picks `b`. The vote
   * that was confirmed for `a` is cast for `b`.
   */
  method RepickDuringWaitSwitchesVote(st: Store, a: Candidate, b: Candidate, timestamp: string, voteId: string)
    returns (outcome: SubmitOutcome, after: Store)
    requires WellTyped(st) && TallyReady(st)
    ensures outcome.Answered? && (outcome.result, after) == Cast(st, b.id, timestamp, voteId)
  {
    var ls := new LocalStorage();
    ls.entries := st;
    var page := new VotePageState();
    page.SelectCandidate(a);
    page.SubmitVote();
    page.CancelVote();
    page.SelectCandidate(b);
    outcome := page.FireSubmit(ls, timestamp, voteId);
    after := ls.entries;
  }

  /**
   * Corrected: the same clicks (confirm `a`, cancel, pick `b`) cast the vote for `a`,
   * the candidate that was confirmed.
   */
  method RepickDuringWaitKeepsConfirmedVote(st: Store, a: Candidate, b: Candidate, timestamp: string, voteId: string)
    returns (result: VoteResult, after: Store)
    requires WellTyped(st) && TallyReady(st)
    ensures (result, after) == Cast(st, a.id, timestamp, voteId)
  {
    var ls := new LocalStorage();
    ls.entries := st;
    var page := new VotePageState();
    page.SelectCandidate(a);
    page.SubmitVoteCaptured();
    page.CancelVote();
    page.SelectCandidate(b);
    result := page.FireCapturedSubmit(ls, timestamp, voteId);
    after := ls.entries;
  }
}
