# Lebaoui election voting core, modelled in Dafny

This project models the voting and tally core of the Lebaoui election microsite. The site is a
browser-only application in which signed-in Discord users cast one vote for one of six
configured candidates. All state lives in the browser's `localStorage`.

- **Storage** (`storage.dfy`) is a map from the five keys the core uses to typed values:
  - `discord_token`, `discord_user` and `discord_guilds`: the session;
  - `election_votes`: the tally, candidate id to count;
  - `user_vote`: a single vote-record slot.

  `WellTyped` says each key holds the kind of value it is written with. The class
  `LocalStorage` holds the map in a field, and `setItem`/`removeItem` are its methods.
- **Configuration** (`config.dfy`): the six candidates of `lebaouivoting/js/config.js` in
  order (horsy, hellnest, star, deku, nig, sweeve) and the shipped placeholder server id.
- **Voting** (`voting.dfy`) covers `VotingSystem` in `lebaouivoting/js/voting.js`:
  - `ensureVotesExist`, `castVote`, `hasUserVoted`, `getUserVote`, `getAllVotes` and the
    storage effect of `resetVotes`;
  - every change of storage is a pure transition (`EnsureVotes`, `Cast`, `Reset`);
  - beside each transition is a method that takes the `LocalStorage`, performs the source's
    read-modify-write steps and is proved to reach that transition's result.
- **Tally** (`tally.dfy`): `getTotalVotes`, `getCandidateVotes`, `getCandidatePercentage`,
  `getResults` (config order, stable sort by votes descending, 1-based ranks) and
  `getLeader`.
- **Auth** (`auth.dfy`): the session queries of `js/auth.js` and the storage effect of
  `logout`. These are `isAuthenticated`, `getUser`, `isServerMember`, `getUserTag` and
  `getAvatarUrl`.
- **Utils** (`utils.dfy`): `formatNumber`, `timeAgo`, `hexToRgb`, `isValidDiscordId` and
  `getDeviceType` from `lebaouivoting/js/utils.js`.
- **Vote page** (`vote_page.dfy`): the page's default-colour `hexToRgb`, its three-pane
  decision, and a class holding the page's state: the `selectedCandidate` pick, the
  modals, the confirm button and the 500 ms submit callbacks still pending.
- **Scenarios** (`scenarios.dfy`): whole flows from a fresh store, with the totals, leader
  and percentage text they produce.
- `decimal.dfy` holds number-to-text and text-to-number conversions: `toString`,
  `toFixed(1)`, `parseFloat` on that text, and `parseInt`. `wrappers.dfy` holds `Option`.

Where the code and the project's own summary differ, the model follows the code:

- PROJECT-SUMMARY.js:22 and :74 promise one vote per Discord account. `hasUserVoted`
  only compares the single stored record's `userId` with the current user. A second
  account voting in the same browser overwrites the slot, and the first account can then
  vote again. `Voting.SlotOverwriteForgetsFirstVoter` proves three accepted votes from two
  accounts.
- `castVote` never consults `isServerMember`. The model adds no membership condition.
- `getCandidatePercentage` returns the number 0 when nobody has voted, and otherwise the
  `toFixed(1)` text, such as "100.0" for a sole vote (`Scenarios.DekuTallyReads`).
- The vote page's `submitVote` reads the pick when its 500 ms timer fires, not when the
  confirm button is pressed (see "## Findings").

## Model

| member | source | states |
|---|---|---|
| Config.FindCandidate | lebaouivoting/js/voting.js:63-64 | A candidate is found exactly when the id is configured, and the one found carries that id. |
| Config.ConfigIndexOfCandidate | lebaouivoting/js/config.js:25-110 | Each configured candidate's id leads back to its own position in the roster, so ids are distinct. |
| Decimal.NatToStringRoundTrip | lebaouivoting/js/utils.js:11 | Reading back the digits `toString` writes for a non-negative integer gives the integer. |
| Decimal.NatToStringLength | lebaouivoting/js/utils.js:218 | The decimal text of n is longer than k digits exactly when n is at least 10^k. |
| Decimal.FixedOneRoundTrip | lebaouivoting/js/voting.js:186-191 | `parseFloat` of the `toFixed(1)` text returns the same number of tenths. |
| Decimal.NatToString | lebaouivoting/js/utils.js:11 | The text `toString` writes for a non-negative integer: non-empty, all digits, no leading zero except for 0 itself. |
| Decimal.FixedOne | lebaouivoting/js/voting.js:173 | The `toFixed(1)` text of a number of tenths: at least three characters, with the point second from the end. |
| Decimal.HexValue | lebaouivoting/js/utils.js:87-89 | A hex digit's value is below 16, and a decimal digit keeps its decimal value. |
| Decimal.ParseInt | js/auth.js:217 | `parseInt` without a radix: a non-empty digit string reads as its decimal value; after "0x" or "0X" the hex digits are read in base 16; a prefix with no hex digit after it is NaN. |
| Decimal.ParseIntSkipsWhiteSpace | js/auth.js:217 | A leading white-space or line-terminator character, including U+1680, U+2000-U+200A, U+2028, U+2029, U+202F, U+205F, U+3000 and U+FEFF, does not change what `parseInt` reads. |
| Decimal.ParseIntPrefixExamples | js/auth.js:217 | "0x7" reads 7, "0X1f" reads 31, a bare "0x" is NaN, and an ideographic space before "7" is skipped. |
| Tally.ZeroTally | lebaouivoting/js/voting.js:32-35 | The initial tally has exactly the configured ids as keys, each with count 0. |
| Tally.AddVote | lebaouivoting/js/voting.js:75 | `votes[id]++` raises that id's count by one and leaves the keys and every other count unchanged. |
| Tally.TotalVotes | lebaouivoting/js/voting.js:148-151 | The sum of the stored counts, one key at a time (no contract of its own; `TotalVotesRemove` shows the order of the keys does not matter). |
| Tally.TotalVotesRemove | lebaouivoting/js/voting.js:148-151 | The sum of the counts is any one count plus the sum of the rest. |
| Tally.TotalVotesIncrement | lebaouivoting/js/voting.js:148-151 | One more vote for a counted id raises the total by exactly one. |
| Tally.TotalVotesOfZeros | lebaouivoting/js/voting.js:148-151 | A tally of zeros sums to 0. |
| Tally.CountAtMostTotal | lebaouivoting/js/voting.js:158-161 | No single count exceeds the total. |
| Tally.GetTotalVotes | lebaouivoting/js/voting.js:148-151 | The loop over the stored counts returns their sum. |
| Tally.CandidateVotes | lebaouivoting/js/voting.js:158-161 | The count of an id missing from the tally is 0, and no count exceeds the total. |
| Tally.RoundedTenths | lebaouivoting/js/voting.js:173 | The share count/total*100 rounded to the nearest tenth, halves up; at most 100.0 when count does not exceed total. |
| Tally.CandidatePercentage | lebaouivoting/js/voting.js:168-174 | The number 0 on an empty total; otherwise a `toFixed(1)` text whose value is the rounded share, at most 100.0. |
| Tally.PercentageField | lebaouivoting/js/voting.js:186-191 | A result row's percentage is 0 when nobody has voted, else the rounded share read back from its text (`parseFloat` is `Decimal.ParseTenths`, which reads digits, a point and one digit in tenths). |
| Tally.Entries | lebaouivoting/js/voting.js:184-193 | One unsorted row per configured candidate. |
| Tally.InsertByVotes | lebaouivoting/js/voting.js:196 | Inserting a row keeps every row: the result is the old rows plus the new one. |
| Tally.SortByVotes | lebaouivoting/js/voting.js:196 | Sorting is a permutation of the rows. |
| Tally.InsertKeepsOrder | lebaouivoting/js/voting.js:196 | Inserting a row that comes earlier in the configuration keeps rows in votes-descending order, ties in configuration order. |
| Tally.SortIsStable | lebaouivoting/js/voting.js:196 | Sorting rows given in configuration order yields votes-descending order with ties in configuration order. |
| Tally.Ranks | lebaouivoting/js/voting.js:199-201 | The rank of each row is its position plus one. |
| Tally.Results | lebaouivoting/js/voting.js:180-204 | One row per configured candidate, ranked 1 to n in order. |
| Tally.ResultsProperties | lebaouivoting/js/voting.js:180-204 | `getResults` has one row per configured candidate, ranks 1..n, votes non-increasing, ties in configuration order, and each row's votes and percentage are that candidate's. |
| Tally.Leader | lebaouivoting/js/voting.js:210-213 | There is always a leader, and it holds rank 1. |
| Tally.LeaderHasMostVotes | lebaouivoting/js/voting.js:210-213 | A leader always exists with rank 1 and the most votes, and it is the earliest-configured candidate among those tied with it. |
| Tally.GetResults | lebaouivoting/js/voting.js:180-204 | The method that builds, sorts and ranks the rows returns exactly the specified results. |
| Tally.GetLeader | lebaouivoting/js/voting.js:210-213 | The method returns the first result row. |
| Tally.CountsOf | lebaouivoting/js/voting.js:186 | The vote counts of the result rows, in configuration order, one per candidate. |
| Tally.TotalOverList | lebaouivoting/js/voting.js:148-151 | For a tally holding exactly a list's distinct ids, the total is those candidates' counts added up. |
| Tally.PercentSumBounds | lebaouivoting/js/voting.js:186-191 | Rows whose percentages are each rounded to the nearest tenth add up to within half a tenth per row of the exact share of their counts. |
| Tally.PercentagesSumNear100 | lebaouivoting/js/voting.js:180-193 | With at least one vote over the configured ids, the six rows' percentage fields add up to more than 99.7 and at most 100.3. |
| Tally.ResultsPercentagesSumNear100 | lebaouivoting/js/voting.js:179-203 | The same bound for the `percentage` fields of the rows `getResults` returns, after sorting and ranking. |
| Storage.KeyNamesDistinct | lebaouivoting/js/voting.js:16-17 | The five storage key names are pairwise distinct, so writing one key never touches another. |
| Storage.LocalStorage.SetItem | lebaouivoting/js/voting.js:78 | `setItem` stores the value under its key and changes nothing else. Writing a value of the wrong kind for its key is possible; callers keep the store well typed. |
| Storage.LocalStorage.RemoveItem | js/auth.js:43-45 | `removeItem` deletes exactly that key and keeps every other entry; a well-typed store stays well typed. |
| Auth.IsAuthenticated | js/auth.js:122-126 | Signed in exactly when both the token and the user entries hold non-empty values (no contract of its own; `AuthenticatedHasUser` and `Voting.HasUserVotedCases` state its consequences). |
| Auth.GetUser | js/auth.js:131-134 | null without a stored user entry, else the stored user. |
| Auth.AuthenticatedHasUser | js/auth.js:122-126 | When both token and user are stored, a user is available. |
| Auth.SomeGuildHasId | js/auth.js:149 | True exactly when some stored guild has the given id. |
| Auth.IsServerMember | js/auth.js:139-150 | True for an empty or placeholder server id whatever is stored; otherwise false without guilds, and true iff some guild has the server id. |
| Auth.ShippedConfigAdmitsEveryone | js/auth.js:141-143 | With the server id the configuration ships, every store reads as a member. |
| Auth.UserTag | js/auth.js:230-233 | Discriminator "0" gives the bare username, any other gives username#discriminator. |
| Auth.GetUserTag | js/auth.js:225-234 | null exactly when no user is stored, else that user's tag. |
| Auth.JsRemainder | js/auth.js:217 | JavaScript `%`: the remainder differs from the dividend by a multiple of the divisor, is smaller than the divisor in size, and has the dividend's sign. |
| Auth.DefaultAvatarIndex | js/auth.js:217 | Absent (NaN) exactly when `parseInt` (white space, sign and "0x" prefix included) finds no number; otherwise within -4..4, and 0..4 for a non-negative discriminator. |
| Auth.PrefixedDiscriminatorAvatars | js/auth.js:217 | The discriminator "0x7" picks default avatar 2 and a bare "0x" gives NaN. |
| Auth.DigitDiscriminatorAvatar | js/auth.js:217 | For an all-digit discriminator the default avatar index is its value mod 5, in 0..4. |
| Auth.GetAvatarUrl | js/auth.js:209-220 | null exactly without a user; the id/avatar URL with the size when an avatar is set; otherwise the default-avatar URL with the index, written by `IndexText` as "NaN" or the integer's `toString` (`Decimal.IntToString`). Called without a size, `GetDefaultAvatarUrl` passes the default 128. |
| Auth.SignedOut | js/auth.js:41-45 | Exactly the three session keys are removed and every other entry is kept; afterwards nobody is authenticated. |
| Auth.Logout | js/auth.js:41-52 | The method leaves the store as `SignedOut` describes. |
| Auth.SignIn | js/auth.js:65-106 | Storing a token and a user authenticates that user; the guild list is stored when the guilds response is ok and left as it was for a response that is not ok; exactly those keys are added; every other entry, the tally and the vote slot included, is as it was. |
| Auth.HandleCallback | js/auth.js:57-116 | An empty token changes nothing. Otherwise the user ends signed in exactly when the user request succeeded and the guilds request did not reject or fail to parse; any such failure ends in `logout`, i.e. `SignedOut` of the old store; on success the user (and, for an ok guilds response, the guild list) is stored; no entry outside the session keys changes. |
| Voting.HasUserVoted | lebaouivoting/js/voting.js:109-124 | Signed in and the one stored record carries the current user's id (no contract of its own; `HasUserVotedCases` states it case by case). |
| Voting.GetAllVotes | lebaouivoting/js/voting.js:139-142 | The stored tally, or the empty tally when the key is absent. |
| Voting.GetUserVote | lebaouivoting/js/voting.js:130-133 | The stored vote record, or null exactly when the slot is empty. |
| Voting.HasUserVotedCases | lebaouivoting/js/voting.js:109-124 | False when signed out or with no record; otherwise true iff the one stored record's userId is the current user's id. |
| Voting.EnsureVotes | lebaouivoting/js/voting.js:30-38 | An existing tally is left as it is; an absent one becomes all zeros over the configured ids, and nothing else changes. |
| Voting.EnsureVotesIdempotent | lebaouivoting/js/voting.js:30-38 | Running `ensureVotesExist` twice is the same as once. |
| Voting.EnsureVotesExist | lebaouivoting/js/voting.js:30-38 | The method leaves the store as `EnsureVotes` describes. |
| Voting.Cast | lebaouivoting/js/voting.js:45-103 | Checks in order: signed out fails "You must be logged in to vote", already voted fails "You have already voted", unknown id fails "Invalid candidate", each leaving storage unchanged; success exactly when all three pass. |
| Voting.CastSuccessEffect | lebaouivoting/js/voting.js:71-102 | A successful vote raises only the chosen count by one and the total by one, and stores a record with that candidate's id and name and the current user's id and tag; no other key changes. |
| Voting.CommitEffect | lebaouivoting/js/voting.js:72-91 | The two writes raise one count and fill the record slot, leaving every other key as it was. |
| Voting.CastMarksVoted | lebaouivoting/js/voting.js:109-124 | After a successful vote the same session reads as having voted. |
| Voting.SecondVoteRejected | lebaouivoting/js/voting.js:55-60 | An immediate second vote by the same session fails "You have already voted" and leaves storage unchanged, so the tally changes once. |
| Voting.SignedInMayVote | lebaouivoting/js/voting.js:109-124 | A user who signs in while the slot is empty or holds another account's record reads as not having voted. |
| Voting.SignedInVoteSucceeds | lebaouivoting/js/voting.js:45-103 | Such a user's vote for a configured id is accepted, adds one to that count, and leaves that user's id in the slot. |
| Voting.SlotOverwriteForgetsFirstVoter | lebaouivoting/js/voting.js:114-123 | With one record slot, accounts a, b, a voting in turn are all accepted: three votes from two accounts. |
| Voting.NewRecord | lebaouivoting/js/voting.js:80-88 | The record a vote stores: candidate id and name, user id and tag, timestamp and vote id (no contract of its own; `CastSuccessEffect` states what is stored). |
| Voting.Commit | lebaouivoting/js/voting.js:71-90 | The store after the two writes of an accepted vote keeps the store well typed and the tally initialised; `CommitEffect` states which entries change. |
| Voting.CastVote | lebaouivoting/js/voting.js:45-103 | The method returns the result and leaves the store as `Cast` describes. |
| Voting.RecordVote | lebaouivoting/js/voting.js:71-91 | The increment-and-save and the record write together reach `Commit`'s store, with the record built from the current user. |
| Voting.Reset | lebaouivoting/js/voting.js:244-253 | Unconfirmed: nothing changes. Confirmed: the record slot is empty, the tally is all zeros, every other entry is kept, and the keys are the old keys without the record slot and with the tally key. |
| Voting.ResetVotes | lebaouivoting/js/voting.js:244-253 | The method leaves the store as `Reset` describes. |
| Utils.Group | lebaouivoting/js/utils.js:11 | Inserting a comma before every third digit from the right adds one character per full group after the first. |
| Utils.FormatNumber | lebaouivoting/js/utils.js:10-12 | The text starts with '-' exactly for a negative number and never with a comma; the rest is well grouped and, without its commas, is the decimal text of the magnitude. |
| Utils.GroupStripsBack | lebaouivoting/js/utils.js:11 | Deleting the commas from grouped digits gives back the digits. |
| Utils.GroupIsGrouped | lebaouivoting/js/utils.js:11 | Grouping gives a first group of 1 to 3 digits and then groups of exactly 3, separated by commas. |
| Utils.FormatNumberDigits | lebaouivoting/js/utils.js:10-12 | For n >= 0 the text without its commas reads back as n. |
| Utils.GroupedStartsWithDigit | lebaouivoting/js/utils.js:11 | Grouped text starts with a digit. |
| Utils.FormatSmallUnchanged | lebaouivoting/js/utils.js:10-12 | Numbers strictly between -1000 and 1000 are printed unchanged. |
| Utils.Describe | lebaouivoting/js/utils.js:43-49 | The first unit of the table that fits gives the phrase, else "Just now" (no contract of its own; `DescribeFirstFit` and `DescribeNone` state it). |
| Utils.TimeAgoText | lebaouivoting/js/utils.js:31-50 | `timeAgo` on the elapsed seconds (no contract of its own; `TimeAgoJustNow` and `TimeAgoLargestUnit` state it). |
| Utils.Phrase | lebaouivoting/js/utils.js:46 | The phrase begins with the count's digits. |
| Utils.TimeAgo | lebaouivoting/js/utils.js:31-50 | The loop over the interval table returns the specified first-fit phrase. |
| Utils.FitsOnce | lebaouivoting/js/utils.js:44-45 | floor(elapsed/size) >= 1 exactly when elapsed >= size. |
| Utils.DescribeNone | lebaouivoting/js/utils.js:49 | When no unit fits, the result is "Just now". |
| Utils.TimeAgoJustNow | lebaouivoting/js/utils.js:32-49 | Any elapsed time below 60 seconds, negative included, gives "Just now". |
| Utils.DescribeFirstFit | lebaouivoting/js/utils.js:43-47 | The first unit that fits is used, with count floor(elapsed/size). |
| Utils.TimeAgoLargestUnit | lebaouivoting/js/utils.js:34-47 | From 60 seconds on, the phrase uses the largest unit not exceeding the elapsed time, with count floor(elapsed/size). |
| Utils.PhrasePlural | lebaouivoting/js/utils.js:46 | A unit gets its plural 's' exactly when the count exceeds one. |
| Utils.PairValue | lebaouivoting/js/utils.js:87-89 | A pair of hex digits reads as a channel below 256. |
| Utils.HexToRgb | lebaouivoting/js/utils.js:84-91 | A colour is read exactly for six hex digits with an optional leading '#'; each channel is below 256; anything else gives null. |
| Utils.HexRoundTrip | lebaouivoting/js/utils.js:84-91 | Writing any colour as six hex digits, either case, with or without '#', reads back as that colour. |
| Utils.ConfiguredColoursParse | lebaouivoting/js/config.js:25-110 | Every configured candidate colour is accepted by the grammar. |
| Utils.FirstColourChannels | lebaouivoting/js/config.js:30 | The first candidate's colour reads as red 231, green 76, blue 60. |
| Utils.IsValidDiscordId | lebaouivoting/js/utils.js:217-219 | 17 to 19 decimal digits (no contract of its own; `DiscordIdRange` states it on numbers). |
| Utils.DiscordIdRange | lebaouivoting/js/utils.js:217-219 | The decimal text of n is a valid Discord id exactly when n has 17 to 19 digits. |
| Utils.GetDeviceType | lebaouivoting/js/utils.js:247-252 | The device class for a window width (no contract of its own; `DeviceTypeBands` and `DeviceTypeMonotone` state it). |
| Utils.DeviceTypeMonotone | lebaouivoting/js/utils.js:247-252 | A wider window never yields a smaller device class. |
| Utils.DeviceTypeBands | lebaouivoting/js/utils.js:247-252 | mobile below 768, tablet from 768 to 1023, desktop from 1024, each as an if-and-only-if. |
| VotePage.HexToRgbOrDefault | js/vote-page.js:270-277 | The same grammar as the shared `hexToRgb`, with red 231, green 76, blue 60 instead of null; channels always below 256. |
| VotePage.DefaultIsFirstCandidateColour | js/vote-page.js:276 | Every configured colour parses, and the fallback equals the first candidate's colour. |
| VotePage.PaneFor | js/vote-page.js:40-70 | The pane for the stored state (no contract of its own; `PaneDecision` and `PaneMatchesCast` state it). |
| VotePage.PaneDecision | js/vote-page.js:40-70 | Exactly one pane is shown: auth-required iff signed out, already-voted iff signed in and voted, voting interface iff signed in and not voted. |
| VotePage.PaneMatchesCast | js/vote-page.js:46-66 | The voting interface is shown exactly when a vote for a configured candidate would be accepted; each other pane matches the refusal `castVote` gives. |
| VotePage.ReloadAfterVoteShowsAlreadyVoted | js/vote-page.js:223-233 | After an accepted vote, the reload shows the already-voted pane. |
| VotePage.ErrorAlert | js/vote-page.js:235 | The alert text is "Error: " followed by the whole refusal message. |
| VotePage.VotePageState.constructor | js/vote-page.js:7 | No candidate is picked, no pane or modal is shown, the button is enabled, and no timer is pending. |
| VotePage.VotePageState.InitVotingPage | js/vote-page.js:40-70 | The display flags become the decided pane, exactly one of them; the pick, modals, button and timers are kept. |
| VotePage.VotePageState.SelectCandidate | js/vote-page.js:133-146 | The clicked candidate becomes the pick and the confirmation modal opens; everything else is kept. |
| VotePage.VotePageState.CancelVote | js/vote-page.js:157-168 | The pick is cleared and the confirmation modal closes; pending timers and the disabled button are kept. |
| VotePage.VotePageState.SubmitVote | js/vote-page.js:212-221 | With no pick nothing happens; otherwise the button is disabled and one more 500 ms callback is pending. The store is untouched. |
| VotePage.VotePageState.Finish | js/vote-page.js:223-238 | On success the confirmation modal closes, the success modal opens and a reload is scheduled; on refusal "Error: " and the message is alerted and the button is enabled again. |
| VotePage.VotePageState.FireSubmit | js/vote-page.js:220-239 | A pending callback runs: with the pick cleared meanwhile it throws, storing nothing and leaving the button disabled; otherwise the store and result are `castVote`'s for the pick as it is now, an accepted vote closes the confirmation modal, opens the success modal and schedules the reload, and a refused one alerts the error and enables the button again. |
| VotePage.VotePageState.SubmitVoteCaptured | js/vote-page.js:212-221 | Corrected submit: the pick at the time of the click is queued with its callback. |
| VotePage.VotePageState.FireCapturedSubmit | js/vote-page.js:220-239 | Corrected callback: the store and result are `castVote`'s for the queued pick, whatever the pick is now; the dialogs, button, alert and reload change as in `FireSubmit`. |
| VotePage.CancelDuringWaitLosesVote | js/vote-page.js:157-240 | Pick, confirm, cancel within 500 ms: the callback throws, the store is unchanged and the button stays disabled. |
| VotePage.RepickDuringWaitSwitchesVote | js/vote-page.js:133-240 | Confirm a, cancel, pick b within 500 ms: the vote is cast for b. |
| VotePage.RepickDuringWaitKeepsConfirmedVote | js/vote-page.js:212-221 | With the corrected submit the same clicks cast the vote for a. |
| Scenarios.LeaderIsSoleTop | lebaouivoting/js/voting.js:210-213 | A candidate with strictly more votes than every other is the leader. |
| Scenarios.HundredText | lebaouivoting/js/voting.js:173 | 1000 tenths are written "100.0". |
| Scenarios.SeventyFiveText | lebaouivoting/js/voting.js:173 | 750 tenths are written "75.0". |
| Scenarios.FreshStore | lebaouivoting/js/voting.js:30-38 | A first visit leaves an all-zero tally over the configured ids and an empty record slot. |
| Scenarios.OneVoteForDeku | lebaouivoting/js/voting.js:45-103 | On a fresh store, one signed-in vote for deku is accepted and leaves deku 1 and the rest 0. |
| Scenarios.DekuLeads | lebaouivoting/js/voting.js:210-213 | Any tally reading deku 1 and 0 elsewhere has deku as its leader. |
| Scenarios.SoleVoteText | lebaouivoting/js/voting.js:168-174 | When the only vote cast is for a candidate, its percentage reads "100.0". |
| Scenarios.DekuTallyReads | lebaouivoting/js/voting.js:148-213 | After that vote the total is 1, deku leads, and deku's percentage reads "100.0". |
| Scenarios.HorsyThenRefused | lebaouivoting/js/voting.js:45-103 | On a fresh store, a vote for horsy is accepted and the same session's second attempt is refused with storage unchanged. |
| Scenarios.ThreeStarVotes | lebaouivoting/js/voting.js:45-103 | Three different users signing in one after another and voting star are each accepted, adding three to star. |
| Scenarios.HorsyThenThreeStars | lebaouivoting/js/voting.js:45-103 | That whole flow ends with horsy 1, star 3 and the rest 0. |
| Scenarios.HorsyStarCounts | lebaouivoting/js/voting.js:75 | That tally reads horsy 1, star 3, and 0 elsewhere. |
| Scenarios.TotalAfterFourVotes | lebaouivoting/js/voting.js:148-151 | Four accepted votes add four to any tally's total. |
| Scenarios.HorsyStarTotal | lebaouivoting/js/voting.js:148-151 | That tally totals 4. |
| Scenarios.StarLeads | lebaouivoting/js/voting.js:210-213 | Any tally reading horsy 1, star 3 and 0 elsewhere has star as its leader. |
| Scenarios.HorsyStarLeader | lebaouivoting/js/voting.js:210-213 | In that tally star leads. |
| Scenarios.HorsyStarPercentage | lebaouivoting/js/voting.js:168-174 | In that tally star's percentage reads "75.0". |

## Left out

- JSON serialisation and `localStorage` itself: storage is an abstract map of typed values.
  An entry of the wrong kind reads as absent; the browser would throw on `JSON.parse`
  instead. The store holds only the five keys the core uses.
- Event plumbing: the `votecast` and `votesupdate` events, the `storage` listener and the
  30-second interval (lebaouivoting/js/voting.js:94-96, 226-238; js/vote-page.js:245-250).
  The vote page's 500 ms submit timer is modelled as pending callbacks that
  `FireSubmit` runs; its 2000 ms reload after an accepted vote is a flag, and the reload
  itself is `PaneFor` on the new store.
- Closing a modal by clicking its background (js/vote-page.js:178-187) is not modelled.
- The clock and randomness: `generateVoteId` and the ISO timestamp are parameters of
  `castVote`.
- `timeAgo` takes the elapsed time in whole seconds. The subtraction of dates is not
  modelled. Neither is an unparseable date: its elapsed time is NaN, no unit fits, and
  the source returns "Just now".
- `getDeviceType` takes the window width as a parameter.
- `addSampleVotes` (random increments) and `exportData` (a DOM download) are not modelled.
- `resetVotes`: its `confirm` dialog is a boolean parameter; the alert and the reload are
  not modelled.
- Floating point: shares are exact tenths of a percent, rounded half up. Double-precision
  rounding of `toFixed` is not modelled, and `parseFloat` is modelled only on text
  `toFixed(1)` writes.
- Voting.Cast: requires a tally holding every configured id, as `ensureVotesExist` leaves
  it at start-up. The source's behaviour on a missing count (`votes[id]++` gives NaN) is
  not modelled.
- Tally.SortByVotes: the engine's comparator sort is modelled as a stable insertion sort on
  a sequence. Only its result is claimed, which is the order a stable sort on
  `b.votes - a.votes` yields. The in-place array algorithm is not modelled.
- Utils.FormatNumber: the input is an exact integer. Doubles are not modelled: integers
  beyond 2^53 are not exact in the source, numbers of 10^21 and above are written in
  exponent form, and non-integers are not handled.
- Auth.SignIn: covers only the paths on which both requests get through; a user or guilds
  request that rejects or a body that does not parse ends in `logout`, which
  `Auth.HandleCallback` states as `SignedOut`. An exception thrown by `updateAuthUI` inside
  the same `try` (DOM work) would also log out and is not modelled.
- Decimal.ParseInt: the digits are read as an exact integer. JavaScript's `parseInt`
  rounds a value above 2^53 to the nearest double; that rounding is not modelled.
- Auth.DigitDiscriminatorAvatar: the index is the exact value mod 5. For a discriminator
  above 2^53 the source takes the remainder of the rounded double, which can differ.
- The OAuth 2.0 implicit grant (section 4.2 of RFC 6749) is not modelled: `login`,
  `handleCallback`, `fetchUserData`, `validateToken` and `updateAuthUI` are redirects,
  network calls and DOM work. Their storage effect is `Auth.HandleCallback`, with the
  network outcomes as parameters, and `Auth.SignIn` after a completed sign-in. `validateToken` keeping the token on a network error is I/O behaviour.
- Rendering: the voting cards, modals, `showAlreadyVoted`, `formatTimestamp` and the
  rest of the DOM work in js/vote-page.js.
- Browser-bound helpers of lebaouivoting/js/utils.js are not modelled: `debounce`,
  `throttle`, `copyToClipboard`, `isInViewport`, `scrollToElement`,
  `showLoading`/`hideLoading`, `showToast`, `formatDate`, `parseJSON`, `generateId`,
  `isMobile`, `getUrlParams` and `setUrlParam`.
- Two tabs passing the duplicate check before either writes (a cross-tab race) is outside
  a sequential model.

## Findings

| source | as written | input that shows it | evidently intended | confidence | as-written member | corrected member |
|---|---|---|---|---|---|---|
| js/vote-page.js:220-221 | The submit callback reads `selectedCandidate` when its 500 ms timer fires, and the cancel button stays enabled meanwhile. | Pick a candidate, press confirm, press cancel within 500 ms: `selectedCandidate.id` throws, no vote is stored, and the button stays "Submitting...". Pick a, confirm, cancel, pick b: the vote goes to b. | The vote goes to the candidate shown when confirm was pressed. | medium, not executed | VotePage.CancelDuringWaitLosesVote | VotePage.RepickDuringWaitKeepsConfirmedVote |
