# Heramb musical group club manager — a Dafny model

This project models the state logic of a single-page club-management
application for a drumming group. The application keeps four things:

- a roster of members, with two capacity-limited roles (at most 5 owners, at most 3 finance officers) and e-mail style verification;
- a list of jam events, each with its RSVP set, its checked-in set and its paid set;
- a treasury (a balance plus a newest-first transaction history);
- biometric check-in through platform authenticators.

The model follows the source file by file:

- **App.tsx** holds every handler that changes application state. It becomes the class `Club.ClubState`, one method per handler. Each method computes the next value with pure functions and installs it:
  - `Roster`: members, lookups, verification, role toggles;
  - `Schedule`: events;
  - `Ledger`: the treasury;
  - `Payments`: a payment's two writes taken together.
- JavaScript `Set` round trips on id lists are modelled in `IdSets`. Case-insensitive search is in `Text`.
- Each screen component is its own module:
  - `MembersView` and `Csv`: the roster screen, its search and its CSV export;
  - `Profile`: the member profile page;
  - `Registration`: the registration form and its verification link;
  - `AttendanceView`: the events screen;
  - `RosterModal`: the attendance checklist;
  - `EventModal`: the event dialog;
  - `Fingerprint`: the biometric dialog;
  - `FinanceView`: the treasury screen;
  - `Payroll`: the payroll dialog.
- Components whose state lives in React hooks and changes in place become classes: `RosterModal.AttendanceRoster`, `Fingerprint.FingerprintModal`, `Registration.RegistrationForm`, `Profile.ProfileEditor`.
- `Ordering` holds the date sort that both event lists use.

Money is an integer in the currency's unit. Dates are integer timestamps.
Several values come from the browser or from a text generator and are
parameters of the model:

- generated ids, tokens and transaction stamps (`Stamp`);
- the confirmation answer;
- the authenticator's outcome;
- the generated welcome and RSVP messages, `None` when generation failed.

Two reads in App.tsx use a value captured at render time rather than the
latest state:

- `ownerCount` and `financeOfficerCount`, inside the role toggles;
- `financials.balance`, inside the payment handler.

The model reads the current state in both places. For payments this matters only for Pay All. That loop (components/PayrollModal.tsx) issues several payments from one render. In the source, every one of them checks against the balance from before the loop. In the model, each checks the balance left by the previous payment. Pay All runs only when the balance covers the whole total, so with non-negative rates no payment in the loop is refused either way. `Payroll.PayEachBalance` proves this.

## Model

| member | source | states |
|---|---|---|
| ClubTypes.AllInstruments | types.ts:3-10 | the six instruments, each exactly once, no two sharing a display label |
| ClubTypes.AllSkillLevels | types.ts:12-16 | the three skill levels, each present, labels distinct |
| ClubTypes.OtherTextAfter | components/RegistrationForm.tsx:55-61 | choosing OTHER keeps the free-text instrument; choosing any other instrument clears it |
| IdSets.Dedup | components/AttendanceRosterModal.tsx:24-28 | `new Set(xs)` as a list: no repeats, exactly the ids of `xs`, never longer |
| IdSets.DedupOfNoDup | components/AttendanceRosterModal.tsx:24-28 | a list without repeats passes through a Set unchanged, order included |
| IdSets.Without | components/AttendanceRosterModal.tsx:30-40 | deleting from a Set: exactly the other ids, repeats not introduced |
| IdSets.SetAdd | App.tsx:153-161 | adding to a Set: no repeats, the old ids plus the new one, which occurs exactly once |
| IdSets.SetDelete | App.tsx:153-161 | deleting from a Set: no repeats, the old ids minus the deleted one, which no longer occurs |
| IdSets.SetAddFresh | App.tsx:153-161 | adding an absent id to a repeat-free list appends it at the end (insertion order) |
| IdSets.SetAddPresent | App.tsx:153-161 | adding an id already present changes nothing |
| IdSets.AddThenDelete | App.tsx:153-161 | adding an absent id and deleting it again restores the list exactly |
| Text.ToLower | components/Members.tsx:103-107 | lower-casing keeps the length and maps each character on its own |
| Text.ToLowerIdempotent | components/Members.tsx:103-107 | lower-casing twice is lower-casing once |
| Text.Contains | components/Members.tsx:105-107 | `includes` holds iff the query occurs at some position |
| Text.EmptyQueryMatches | components/Members.tsx:99-109 | the empty query matches every text |
| Text.QueryCaseIrrelevant | components/Members.tsx:103-107 | the case of the query makes no difference to a match |
| Roster.IndexOfId | components/Members.tsx:223 | `findIndex` by id: -1 iff no member has the id, otherwise the first member with it |
| Roster.FindById | App.tsx:118 | `find` by id: None iff no member has the id, otherwise a roster member with that id |
| Roster.FindByUniqueId | App.tsx:118 | on a roster of unique ids, the lookup of member k's id finds member k |
| Roster.IndexOfToken | App.tsx:84 | `findIndex` by verification token: -1 iff nobody carries it, otherwise the first carrier |
| Roster.Verify | App.tsx:80-96 | only the first carrier of the token changes, only from pending to verified, and no member before it carries the token; the roster changes iff that carrier was pending |
| Roster.VerifyIdempotent | App.tsx:83-93 | following a verification link twice has the effect of following it once |
| Roster.ReplaceById | App.tsx:109-111 | every member with the updated id is replaced, every other member kept, ids and uniqueness preserved |
| Roster.WithRole | App.tsx:116-144 | setting a role flag sets exactly that role and keeps the id and the other role |
| Roster.ToggleRole | App.tsx:116-144 | refused as unknown iff no member has the id; refused at the ceiling only when the count has reached it; otherwise every member with the id gets the flag flipped and nobody else changes |
| Roster.RoleCountAfterSet | App.tsx:113-129 | on unique ids, setting one member's flag moves the role count by exactly that flag's change |
| Roster.ToggleKeepsCeiling | App.tsx:116-144 | on unique ids within the ceiling, a successful toggle stays within the ceiling and keeps ids unique |
| Roster.ToggleLeavesOtherRole | App.tsx:116-144 | toggling one role leaves the other role's count as it was |
| Roster.RoleCountAppend | App.tsx:104-107 | appending a member adds its own flag to each role count |
| Roster.GrantIffBelowCeiling | App.tsx:116-144 | granting a role to a known member succeeds iff the count is below the ceiling; revoking always succeeds |
| Roster.InitialMembers | App.tsx:22-26 | the three seed members: unique ids, two owners, one finance officer, all verified |
| Schedule.UpdateAttendance | App.tsx:147-151 | the event with the id gets exactly the given check-in list; every other event is unchanged |
| Schedule.Rsvp | App.tsx:153-161 | only the event with the id changes, only in its attendees: attending puts the member in exactly once, declining takes them out, other attendees stay |
| Schedule.RsvpYesThenNo | App.tsx:153-161 | an RSVP followed by its cancellation restores the events when the member was not attending |
| Schedule.RsvpYesIdempotent | App.tsx:153-161 | a repeated yes has the effect of one yes |
| Schedule.AddCheckIn | App.tsx:191-201 | a biometric check-in adds the member to the event's check-in set exactly once, keeps everyone there, changes nothing else |
| Schedule.MarkPaid | App.tsx:240-265 | a payment adds the member to the event's paid set exactly once, keeps everyone there, changes nothing else |
| Schedule.NewEvent | App.tsx:164-170 | a created event has the given id, title and date and empty member sets |
| Schedule.CreateEvent | App.tsx:164-170 | the new event is appended after the existing ones; a fresh id keeps event ids unique |
| Schedule.UpdateEvent | App.tsx:172-175 | every event with the updated id is replaced by it, every other event kept |
| Schedule.RemoveEvent | App.tsx:177-182 | exactly the events without the id remain |
| Schedule.RemoveEventCounts | App.tsx:177-182 | deleting drops every copy of the events carrying the id and keeps every other event exactly as often |
| Schedule.RemoveEventSplits | App.tsx:177-182 | deleting from a joined list deletes from each part and keeps the parts in order |
| Schedule.RemoveEventAppend | App.tsx:177-182 | an appended event survives the delete, at the end, exactly when it does not carry the id |
| Schedule.DeleteEvent | App.tsx:177-182 | an unconfirmed delete changes nothing; a confirmed one keeps exactly the events without the id, each as often as before |
| Schedule.RemoveAbsentEvent | App.tsx:177-182 | deleting an id no event has changes nothing |
| Ledger.AddFunds | App.tsx:210-221 | a deposit prepends one transaction of the amount and raises the balance by it, keeping the ledger consistent |
| Ledger.RemoveFunds | App.tsx:223-238 | refused iff the balance is below the amount; otherwise prepends one transaction of minus the amount, the balance stays non-negative and the ledger consistent |
| Ledger.LedgerLockstep | App.tsx:210-238 | after any run of deposits and withdrawals the balance equals the sum of the history |
| Ledger.HistoryAppendOnly | App.tsx:210-238 | after any run of deposits and withdrawals the old history is still the tail of the new one |
| Ledger.Empty | App.tsx:36-39 | the initial treasury: zero balance, consistent |
| Ledger.FundraiserThenRent | App.tsx:210-238 | a 5000 deposit followed by a 6000 withdrawal: the withdrawal is refused and the balance stays 5000 |
| Payments.ProcessPayment | App.tsx:240-265 | refused iff the balance is below the member's rate (missing rate = 0); otherwise the member is marked paid and one transaction of minus the rate is posted, both or neither |
| Payments.PayOneMember | App.tsx:240-265 | paying a rate of 3320 from 5000 leaves 1680, posts -3320 and marks the member paid |
| Payments.SnapshotPaysTwice | App.tsx:240-265 | paying twice from the same copy of an event succeeds both times although the member is already marked paid: the balance drops by twice the rate and two transactions are posted |
| Payments.ProcessPaymentOnce | App.tsx:240-265 | the guarded payment is refused iff the event is gone, the member is already paid for it or the balance is short; otherwise it is the handler's payment |
| Payments.PaidAtMostOnce | App.tsx:240-265 | after a guarded payment, any further guarded payment of that member for that event is refused as already paid |
| Club.ClubState.constructor | App.tsx:45-56 | the state before loading: empty roster and events, zero treasury, nobody acting, the biometric dialog closed |
| Club.ClubState.Load | App.tsx:59-76 | stored data is used when present, seed data otherwise; the first member becomes the acting member; seeds satisfy the role ceilings |
| Club.ClubState.VerifyFromLink | App.tsx:80-96 | a non-empty `verify` parameter verifies its member; otherwise the roster is unchanged; ids and length never change |
| Club.ClubState.AddMember | App.tsx:104-107 | the member is appended; the ceilings and unique ids are kept for a role-less member with a fresh id |
| Club.ClubState.UpdateMember | App.tsx:109-111 | the record replaces the entry with its id; the ceilings hold when the role flags are kept |
| Club.ClubState.ToggleOwner | App.tsx:116-129 | installs the owner toggle's result or reports its refusal unchanged; keeps unique ids and the ceilings |
| Club.ClubState.ToggleFinanceOfficer | App.tsx:131-144 | installs the finance-officer toggle's result or reports its refusal unchanged; keeps unique ids and the ceilings |
| Club.ClubState.ToggleIn | App.tsx:116-144 | either toggle handler: installs the toggle's result, or leaves the roster and reports the refusal; keeps unique ids and the ceilings |
| Club.ClubState.UpdateAttendance | App.tsx:147-151 | the events become the attendance update of the old events |
| Club.ClubState.Rsvp | App.tsx:153-161 | the events become the RSVP of the old events |
| Club.ClubState.CreateEvent | App.tsx:164-170 | the events become the old events with the new event appended |
| Club.ClubState.UpdateEvent | App.tsx:172-175 | the events become the old events with the updated one in place |
| Club.ClubState.DeleteEvent | App.tsx:177-182 | the events become the confirmed delete of the old events; unconfirmed, nothing changes |
| Club.ClubState.OpenRegisterBiometrics | App.tsx:185-187 | the dialog opens in registration mode for the member, with no event |
| Club.ClubState.OpenCheckInBiometrics | App.tsx:188-190 | the dialog opens in check-in mode for the event, with no member |
| Club.ClubState.CloseBiometrics | App.tsx:317 | the dialog closes and returns to registration mode with no member or event |
| Club.ClubState.BiometricSuccess | App.tsx:191-201 | only in check-in mode with an event is the member added to that event's check-ins; nobody is ever removed |
| Club.ClubState.AddFunds | App.tsx:210-221 | the treasury becomes the deposit applied to the old one; the lockstep invariant is kept |
| Club.ClubState.RemoveFunds | App.tsx:223-238 | refused iff the balance is below the amount, leaving the treasury untouched; otherwise the withdrawal applied; the lockstep invariant is kept |
| Club.ClubState.ProcessPayment | App.tsx:240-265 | refused iff the balance is below the rate, with nothing written; otherwise both writes of the payment; the lockstep invariant is kept |
| Club.ClubState.CanViewFinance | App.tsx:267-268 | true iff the acting member (the first roster entry with that id) is an owner or a finance officer |
| Payroll.AttendedMemberDetails | components/PayrollModal.tsx:21-25 | one row per checked-in id that resolves to a roster member, flagged paid iff the id is in the paid set; every resolvable id gets a row |
| Payroll.UnpaidMembers | components/PayrollModal.tsx:27 | exactly the members of the rows not yet paid |
| Payroll.DetailsSplit | components/PayrollModal.tsx:21-25 | the rows of a joined check-in list are the rows of each part, in order |
| Payroll.DetailsAppend | components/PayrollModal.tsx:21-25 | checking one more id in appends, at the end, that member's row flagged paid iff its id is paid, or nothing when the id resolves to nobody |
| Payroll.UnpaidSplit | components/PayrollModal.tsx:27 | the unpaid members of joined row lists are those of each part, in order |
| Payroll.UnpaidAppend | components/PayrollModal.tsx:27 | one more row adds its member at the end exactly when the row is unpaid |
| Payroll.TotalPayoutSplits | components/PayrollModal.tsx:28 | the total of a joined list is the sum of the parts' totals |
| Payroll.CanPayAllCoversEach | components/PayrollModal.tsx:28-29 | when the balance covers the total of non-negative rates, each member's Pay button is enabled against what the earlier payments leave |
| Payroll.PayEnabledIffAccepted | components/PayrollModal.tsx:79 | a row's Pay button is enabled exactly when the payment it issues is accepted |
| Payroll.PayAll | components/PayrollModal.tsx:31-39 | refused as a whole, with nothing written, iff the balance is below the total; otherwise one payment per unpaid member in order; the lockstep invariant is kept |
| Payroll.PayrollBatch | components/PayrollModal.tsx:31-39 | a batch posts one transaction per member, newest first, each paying that member's rate |
| Payroll.PayEachBalance | components/PayrollModal.tsx:28-39 | when the balance covers the total of non-negative rates, the loop refuses nobody: the balance drops by exactly the total and one transaction per member is posted |
| Payroll.PayEachMarksPaid | components/PayrollModal.tsx:31-39 | under the same condition every member of the batch ends in the event's paid set and no other event changes |
| Payroll.TotalPayoutNonNegative | components/PayrollModal.tsx:28 | with no negative rate the total is not negative |
| Payroll.UnpaidAreCheckedInAndOwed | components/PayrollModal.tsx:21-27 | every unpaid member listed is on the roster, has an id, is checked in and is not yet paid |
| Payroll.PayAllSettlesEvent | components/PayrollModal.tsx:21-39 | an accepted Pay All over the list the dialog computes leaves every checked-in, roster-resolved, not yet paid member in the stored event's paid set, and changes no other event |
| Payroll.ShortfallScenario | components/PayrollModal.tsx:27-36 | three checked-in rows, one paid at 1000 and two owed 1500 each, against a balance of 2000: the unpaid are the two owed, the total is 3000, and Pay All is refused |
| Fingerprint.ErrorText | components/FingerprintModal.tsx:100-104 | the error's own message when it has one, otherwise exactly the fallback |
| Fingerprint.AllowList | components/FingerprintModal.tsx:111-116 | the allow-list is exactly the non-empty credential ids stored on the roster |
| Fingerprint.FindByCredential | components/FingerprintModal.tsx:133-139 | None iff nobody stores the credential id, otherwise the first member storing exactly it |
| Fingerprint.RegisterThenCheckIn | components/FingerprintModal.tsx:93-139 | after registering a member's credential, checking in with it finds that member's updated record, and the credential is on the allow-list |
| Fingerprint.FingerprintModal.constructor | components/FingerprintModal.tsx:45-46 | the dialog starts idle with no message |
| Fingerprint.FingerprintModal.ResetState | components/FingerprintModal.tsx:48-51 | reset: idle, no message |
| Fingerprint.FingerprintModal.Register | components/FingerprintModal.tsx:68-105 | no member: nothing happens; a credential: the member with the new credential id is returned and success shown; none: still pending; an error: its message or the fallback |
| Fingerprint.FingerprintModal.CheckIn | components/FingerprintModal.tsx:107-157 | nobody registered: error, no ceremony; otherwise a known credential checks its member in with a welcome, an unknown one is reported, an error shows its message; a checked-in id always belongs to a registered member |
| Fingerprint.FingerprintModal.Open | components/FingerprintModal.tsx:58-66 | registration mode resets the dialog to idle; check-in mode ends as a check-in does: nobody registered fails with its notice, a known credential checks its member in, an unknown one is refused, an error shows its message |
| Csv.DoubleQuotes | components/Members.tsx:143-149 | doubling quotes never shortens a text |
| Csv.DoubleQuotesCounts | components/Members.tsx:143-149 | the doubled text is one character longer per quote, holds twice the quotes and every other character as often |
| Csv.DoubleQuotesQuoteFree | components/Members.tsx:143-149 | a text without double quotes is left unchanged by the doubling |
| Csv.EscapeCell | components/Members.tsx:143-149 | a cell with a comma, quote or newline is wrapped in quotes; any other cell is unchanged |
| Csv.EscapeCells | components/Members.tsx:151-156 | each cell of a row escaped on its own |
| Csv.EscapeCellsClean | components/Members.tsx:143-149 | a row needing no quoting is written as it is |
| Csv.Lines | components/Members.tsx:151-156 | one line per record, in order |
| Csv.CellRoundTrip | components/Members.tsx:143-149 | reading back an escaped cell yields the original cell and stops at the next separator |
| Csv.RecordRoundTrip | components/Members.tsx:151-156 | reading back a written line yields the original cells |
| Csv.WriteThenParse | components/Members.tsx:151-156 | parsing a written file yields the original records |
| MembersView.DisplayInstrument | components/Members.tsx:99-102 | OTHER with a non-empty free text shows that text; otherwise the instrument's label |
| MembersView.FilterMembers | components/Members.tsx:99-109 | exactly the members whose name or displayed instrument contains the query, ignoring case |
| MembersView.FilterMembersSplits | components/Members.tsx:99-109 | the search keeps roster order: searching a joined roster lists the first part's matches before the second part's |
| MembersView.EmptySearchListsAll | components/Members.tsx:99-109 | an empty search lists the whole roster, in order |
| MembersView.FoundersAreFirstThree | components/Members.tsx:223-224 | on unique ids, the founder badge marks exactly the first three roster entries |
| MembersView.ToggleEnabledIffAccepted | components/Members.tsx:248-251 | a role button is enabled exactly when the toggle it triggers is accepted |
| MembersView.OnlyOwnersManageRoles | components/Members.tsx:97 | on unique ids, the acting member may manage roles iff it is an owner; with no acting member nobody may |
| MembersView.FounderIffAmongFirstThree | components/Members.tsx:223-224 | the founder badge goes to a member iff its id appears among the first three roster entries |
| MembersView.CanBecomeIffGrantAccepted | components/Members.tsx:221-222 | on unique ids, a member can become a role holder iff it lacks the role and the handler would grant it |
| MembersView.ExportJson | components/Members.tsx:115-118 | an empty roster is refused; otherwise the export is the roster |
| MembersView.FlagCell | components/Members.tsx:143-145 | an absent role flag is written as an empty cell, a present one never is |
| MembersView.MemberCells | components/Members.tsx:141-155 | a member's row holds its fields in header order |
| MembersView.Table | components/Members.tsx:151-155 | the header row, then one row per member in roster order |
| MembersView.ExportCsv | components/Members.tsx:135-156 | an empty roster is refused; otherwise a CSV text is produced |
| MembersView.HeadersNeedNoQuoting | components/Members.tsx:141 | the header line is written unquoted |
| MembersView.ExportCsvRoundTrip | components/Members.tsx:135-156 | parsing the exported CSV yields the header row and every member's cells exactly |
| RosterModal.Toggled | components/AttendanceRosterModal.tsx:30-40 | toggling an id flips its membership, keeps every other id and repeats nobody |
| RosterModal.ToggleTwiceRestores | components/AttendanceRosterModal.tsx:30-40 | toggling an absent id twice restores the list |
| RosterModal.NameFilter | components/AttendanceRosterModal.tsx:42-44 | exactly the members whose name contains the query, ignoring case |
| RosterModal.NameFilterSplits | components/AttendanceRosterModal.tsx:42-44 | the name filter keeps roster order: it works part by part on a joined roster |
| RosterModal.MemberIds | components/AttendanceRosterModal.tsx:46-52 | the roster's ids in roster order |
| RosterModal.AttendanceRoster.constructor | components/AttendanceRosterModal.tsx:24-28 | the checklist opens with exactly the event's checked-in ids, without repeats |
| RosterModal.AttendanceRoster.TogglePresent | components/AttendanceRosterModal.tsx:30-40 | one id's presence flips; no repeats |
| RosterModal.AttendanceRoster.MarkAll | components/AttendanceRosterModal.tsx:46-52 | all roster ids present, or none |
| RosterModal.AttendanceRoster.Save | components/AttendanceRosterModal.tsx:54-57 | the event's check-in list becomes exactly the checklist, without repeats |
| Registration.DefaultForm | components/RegistrationForm.tsx:18-27 | the empty form: no text, drum, beginner |
| Registration.ValidationError | components/RegistrationForm.tsx:84-91 | no error iff a photo is given and OTHER comes with its free text; the photo is checked first |
| Registration.OfferedIffOneMoreFits | components/RegistrationForm.tsx:121 | the form is offered exactly when one more registration still fits under the member limit |
| Registration.NewMember | components/RegistrationForm.tsx:97-106 | the new member carries the form's fields, the id and token, is pending, holds no role, no credential and no rate |
| Registration.VerifyQuery | App.tsx:81-82 | the `verify` query parameter reads back the token it was given |
| Registration.LinkCarriesToken | components/RegistrationForm.tsx:108 | for a page address without query or fragment and a base-36 token, the verification link's `verify` parameter is exactly the new member's token |
| Registration.FragmentEndsSearch | App.tsx:81-82 | a `#` fragment appended to an address changes neither its search part nor the `verify` parameter read from it |
| Registration.RegisterThenVerify | components/RegistrationForm.tsx:97-106 | registering with a fresh token and following the link verifies exactly the new member |
| Registration.RegistrationForm.constructor | components/RegistrationForm.tsx:18-31 | the form opens empty, idle, without error, message or link |
| Registration.RegistrationForm.InstrumentChange | components/RegistrationForm.tsx:55-61 | the instrument is set; the free text survives only for OTHER |
| Registration.RegistrationForm.Reset | components/RegistrationForm.tsx:63-80 | the form returns to its empty idle state |
| Registration.RegistrationForm.Submit | components/RegistrationForm.tsx:82-119 | an invalid form shows its error and changes nothing else; a failed welcome message shows the error state, adds nobody and keeps the old message and link; otherwise the new member is appended, the link shown and the state is success; the member limit and the role ceilings are kept |
| Ordering.SortByDate | components/Attendance.tsx:87 | the sorted list is in date order and holds the same events, each as often |
| Ordering.SortKeepsEvents | components/Attendance.tsx:87 | sorting lists every stored event and nothing else, at the same length |
| Ordering.SortedIsUnique | components/Finance.tsx:141 | when no two events share a date, two date-sorted lists holding the same events are the same list |
| Ordering.NewestFirstIsOldestFirstReversed | components/Finance.tsx:141 | when no two events share a date, the payroll screen's newest-first list is the attendance screen's oldest-first list reversed |
| FinanceView.SubmitFunds | components/Finance.tsx:47-57 | refused iff the amount does not parse, is not positive or the description is empty; otherwise the request carries both |
| FinanceView.AcceptedDepositRaisesBalance | components/Finance.tsx:47-57 | a deposit the form accepts strictly raises the balance and keeps the ledger consistent |
| FinanceView.AcceptedWithdrawalNeverOverdraws | components/Finance.tsx:79-89 | a withdrawal the form accepts is refused only for an insufficient balance, otherwise lowers the balance and keeps it non-negative |
| FinanceView.FullyPaidMiscount | components/Finance.tsx:149-151 | the counting badge calls an event fully paid while a checked-in member is unpaid |
| FinanceView.FullyPaidLeavesNobodyOwed | components/Finance.tsx:149-151 | an event the corrected badge calls fully paid lists nobody unpaid in the payroll dialog |
| FinanceView.FullyPaidDisablesPayAll | components/PayrollModal.tsx:53 | once the corrected badge calls an event fully paid, the dialog's Pay All button is disabled whatever the balance |
| FinanceView.CountingAgreesWhenPaidAreCheckedIn | components/Finance.tsx:149-151 | without repeats, and with every paid member checked in, the counting badge and the corrected badge agree |
| FinanceView.DisabledPayrollIsEmpty | components/Finance.tsx:159 | when the payroll button is disabled, the payroll has no rows |
| FinanceView.PayrollEvents | components/Finance.tsx:141 | the payroll list is newest first and holds the same events; with distinct dates it is the oldest-first list reversed |
| AttendanceView.ActiveMember | components/Attendance.tsx:53 | an acting member is found only for a set, non-empty id and is a roster member with that id; any such id on the roster is found |
| AttendanceView.AttendanceRightsAreOwners | components/Attendance.tsx:53-54 | on unique ids, a member may take attendance iff they are an owner |
| AttendanceView.NoActiveMemberNoRights | components/Attendance.tsx:53-54 | without an acting member nobody may take attendance |
| AttendanceView.RsvpClick | components/Attendance.tsx:66-85 | without an acting member no RSVP is issued; otherwise the RSVP names the event, the member and the choice |
| AttendanceView.RsvpButtonToggles | components/Attendance.tsx:126-151 | each click on an event's RSVP button flips the acting member's attendance of that event and of no other |
| AttendanceView.RsvpEffect | components/Attendance.tsx:66-85 | the RSVP is applied first; the notice is the generated message, or the fixed fallback when generation failed |
| AttendanceView.RsvpSurvivesMessageFailure | components/Attendance.tsx:66-85 | a failed message never changes the RSVP |
| AttendanceView.UpcomingEvents | components/Attendance.tsx:87 | the events list is oldest first and holds the same events |
| EventModal.OpeningFields | components/EventModal.tsx:25-43 | editing shows the event's own fields; creating shows an empty title at 18:00 on the selected day, or today |
| EventModal.Submit | components/EventModal.tsx:45-62 | refused iff a field is empty; otherwise an update in edit mode, a create otherwise |
| EventModal.DeleteOfferedIffSaveUpdates | components/EventModal.tsx:74-78 | the Delete button is shown exactly in the dialogs whose accepted save edits an existing event, and it names that event |
| EventModal.EditKeepsIdentity | components/EventModal.tsx:57-61 | an edit keeps the event's id and member sets and changes only the title and date |
| EventModal.Dispatch | components/EventModal.tsx:45-62 | a refused submission changes no event |
| EventModal.SavedEditTouchesOneEvent | components/EventModal.tsx:57-61 | on unique ids, saving an edit rewrites that one event's title and date and nothing else |
| EventModal.SavedCreateAppendsEmptyEvent | components/EventModal.tsx:57-61 | saving a new event appends one event with empty member sets |
| Profile.WithText | components/MemberProfile.tsx:76-80 | a text input changes exactly its own field |
| Profile.ProfileEditor.constructor | components/MemberProfile.tsx:53-54 | the page opens in view mode on a copy of the member |
| Profile.ProfileEditor.EditToggle | components/MemberProfile.tsx:61-64 | the mode flips; entering edit mode starts from the member as shown |
| Profile.ProfileEditor.Cancel | components/MemberProfile.tsx:66-69 | edits are discarded and view mode restored |
| Profile.ProfileEditor.ChangeText | components/MemberProfile.tsx:76-80 | one text field changes; id, roles, verification and credential do not |
| Profile.ProfileEditor.ChangePayRate | components/MemberProfile.tsx:76-80 | an emptied input clears the rate (paying 0); otherwise the typed number; identity kept |
| Profile.ProfileEditor.ChangeSkill | components/MemberProfile.tsx:82-84 | the skill level changes; identity kept |
| Profile.ProfileEditor.ChangeInstrument | components/MemberProfile.tsx:86-92 | the instrument changes; the free text survives only for OTHER; identity kept |
| Profile.ProfileEditor.Save | components/MemberProfile.tsx:71-74 | the copy replaces the roster entry with its id and view mode returns; a copy that kept its identity keeps unique ids and the role ceilings |

## Left out

- Persistence in local storage: the stored members, events and treasury are parameters of `Club.ClubState.Load`. The save effects and the logo's load and save are not modelled.
- Calls to the text generator (welcome, attendance and cancellation messages): each result is a parameter, None when the call threw.
- The WebAuthn ceremonies, the random challenge and the base64 conversions: a ceremony's outcome is a parameter, already encoded.
- Timers: the dialog's automatic close after registering, the check-in re-arm after 3 seconds and the notice's 5-second dismissal are not modelled. Each re-armed check-in is a fresh call of `Fingerprint.FingerprintModal.CheckIn`.
- Generation of ids, verification tokens, UUIDs and `Date.now` stamps: these are parameters.
- Dates: calendar arithmetic, ISO and locale formatting, and the combination of a day and a time into one timestamp are not modelled. Dates are integers.
- Floating point: amounts and rates are integers. A `parseFloat` that yields NaN is modelled as None.
- `alert`, `confirm` and `history.replaceState`: the confirmation answer is a parameter, and alerts show up as a refused outcome.
- JSX rendering, styling and icons; the calendar, share, header and footer components.
- Lower-casing covers ASCII letters only. Locale and Unicode case mapping are not modelled.
- `MembersView.ExportJson`: the JSON text, its formatting and the file download are not modelled. The export is the roster value itself.
- CSV file download and its file name are not modelled.
- `Ordering.SortByDate`: sort stability is not stated. Events with equal dates may appear in any order.
- Percent-decoding of URL query parameters, and the decoding of `+` as a space, are not modelled. `Registration.VerifyQuery` reads the parameter text as it stands; `Registration.LinkCarriesToken` is stated for base-36 tokens, which hold neither `%` nor `+`.
- Reading a photo file (FileReader) is not modelled. The photo is a text field of the form.
- The registration form's generic text and radio handlers are not modelled: each sets one field, like `Profile.WithText`.
- Stale reads: the role counts and the balance captured at render time are modelled as reads of the current state (see above).
- The payroll dialog keeps the copy of the event it was opened with (components/Finance.tsx:33-34, 188), so its paid flags do not refresh after a payment. The model passes that copy to every payment; see the finding on double payments.
- `Club.ClubState.ProcessPayment` and the Pay All batch model the handler as written, without the already-paid guard. The guarded payment is `Payments.ProcessPaymentOnce`, with its own lemmas.
- `Payroll.PayAll`: each payment in the loop checks the balance left by the previous one, not the balance captured before the loop. The outcomes agree whenever the rates are non-negative (`Payroll.PayEachBalance`).

## Findings

| source | as written | input that shows it | evidently intended | confidence | as-written member | corrected member |
|---|---|---|---|---|---|---|
| components/Finance.tsx:149-151 | the "fully paid" badge compares the number of checked-in members with the number of paid members | members "1" and "3" check in and are paid; the checklist is then saved with "1" and "2": two checked in, two paid, badge shows fully paid, yet "2" is owed | fully paid means every checked-in member is paid | not executed | FinanceView.FullyPaidMiscount | FinanceView.FullyPaidLeavesNobodyOwed |
| App.tsx:240-265 | a payment checks only the balance; it does not check whether the member is already paid for the event, and the payroll dialog's copy of the event (components/Finance.tsx:33-34) keeps showing the member as unpaid | a member with rate 1000, balance 5000: clicking Pay twice in the open dialog debits 2000 and posts two transactions, while the member was already in the paid set before the second click | each member is paid at most once per event | not executed | Payments.SnapshotPaysTwice | Payments.PaidAtMostOnce |
