# Group formation assistant: a verified model of the core

This project models the core of a university group-formation web app in Dafny.
Students pick an assignment, then create, join, leave or delete a group of
fellow students, either through buttons or through free text that a language
model classifies into intents. Staff create assignments. The model covers
these parts:

- **Group store** (`groups.dfy`). Groups and assignments are datatypes. The
  in-memory `all_groups` dictionary is the class `Groups.GroupStore`, a map
  from assignment id to that assignment's ordered list of entries. An entry is
  a group record with all its keys, or a value that is not a dict, which the
  code skips or raises on. The file also holds the search for a user's group and the
  invariant that the membership rules keep: 1..max distinct members, the
  creator among them, and no user in two groups.
- **Membership engine** (`group_management.dfy`, from
  `features/group_management.py`). It covers the group listing and the
  create, join and exit-or-delete operations.
  - Each operation is a method that updates the store in place with loops,
    like the Python code.
  - Each method is proved equal to a function of the old store.
  - Lemmas prove the membership rules about those functions.
- **Older engine** (`group_logic.dfy`, from `group_logic.py`). It covers
  create with case-insensitive name uniqueness, join by name, and the
  capacity listing.
- **Intent parser** (`intents.dfy`, from `parse_intent_with_llm` in
  `utils/helpers.py`). The classifier's reply is given already decoded, or
  marked undecodable. The parser reduces it to intent, chat and error records.
- **Intent dispatcher** (`dispatch.dfy`, from `handle_user_input`). It is a
  loop over the records. The session flags it writes form an explicit
  `Session` value. The loop stops at the first chat, error or
  missing-assignment record; otherwise it joins one response per intent.
  The selected id the turn starts from is any JSON value, like the one a
  previous turn may have stored from the classifier's reply.
- **Login flow** (`login.dfy`, from `login.py`).
  - Email validation by role, the masking of the address and the resend
    countdown are pure functions.
  - The stage machine (role selection, email entry, code entry, logged in) is
    the class `Login.AuthSession`. Each button handler is a method.
- **Next assignment id** (`staff.dfy`, from `pages/staff.py`).

The app's own description states some invariants that the code does not
enforce everywhere. The model follows the code:

- `features/group_management.py` never checks group names for uniqueness.
- `group_logic.py`'s create never checks that the caller is already in a
  group. `GroupLogic.CreateAllowsSecondGroup` exhibits a user who belongs to
  two groups after it.
- `group_logic.py`'s join checks only the group it is asked to join, not the
  assignment's other groups. `GroupLogic.JoinAllowsSecondGroup` exhibits a
  member of one group who is let into a second.
- `features/group_management.py` numbers a new group `{aid}-G{len(groups)+1}`.
  After a deletion this can repeat an id that is still in use.
  `GroupManagement.CountedIdsRepeatAfterDelete` exhibits two groups with the
  same id. The model keeps the formula and proves no uniqueness of ids.

The model's external inputs are parameters: the Streamlit widget reads
(typed text, buttons, picker, radio), the language model's reply, the uuid,
the clock, and the results of the one-time-code helpers.

## Model

| member | source | states |
|---|---|---|
| Groups.FindAssignment | group_logic.py:9 | the index of the first assignment with the id, no earlier one having it; None exactly when no assignment has the id |
| Groups.FindFrom | features/group_management.py:135 | the first record holding the user, or the first non-record met before any such record (where the lookup raises), or Absent exactly when every entry is a record without the user |
| Groups.FoundIsUnique | features/group_management.py:135 | in a valid list the group found for a user is the only entry holding them |
| Groups.ValidAppend | features/group_management.py:93 | appending a valid group whose members are in no existing group keeps the list valid |
| Groups.ValidReplace | features/group_management.py:127 | replacing one group by a valid group whose members are in no other group keeps the list valid |
| Groups.ValidRemoveAt | features/group_management.py:172 | removing one group keeps the list valid |
| GroupManagement.UserGroupOf | features/group_management.py:42-43 | the group the listing shows as the caller's; `UserGroupIsLastHolder`, `NoUserGroupWithoutHolder` and `UserGroupOfAppend` state which one |
| GroupManagement.OthersOf | features/group_management.py:37-45 | the groups the listing shows as others; `OthersAreTheNonHolders` and `OthersOfAppend` state which ones, in order |
| GroupManagement.GroupListText | features/group_management.py:25-66 | the specification of the listing text: the no-assignment message, the caller's group or the not-in-a-group line, then the other groups or the "No other groups" line; the listing lemmas below state its properties |
| GroupManagement.GetGroupListAsText | features/group_management.py:25-66 | the text returned is the listing of the stored groups: the caller's group first, then the others in stored order, or the "not part of any group" and "no other groups" lines |
| GroupManagement.AppendGroupLines | features/group_management.py:59-62 | the loop appends one line per group, in order, to the text so far |
| GroupManagement.SearchMember | features/group_management.py:75-78 | the membership scan returns the first group holding the user, or the first entry that is not a group, or Absent; it is the search `FindMember` specifies |
| GroupManagement.Create | features/group_management.py:70-97 | the specification of create: `setdefault`, the KeyError of an unknown assignment, the refusal of a member, and the count-based id; its properties are the create lemmas below |
| GroupManagement.CreateGroupForUser | features/group_management.py:70-97 | the result and the new `all_groups` are those of `Create` on the old store, including the empty list `setdefault` stores and the KeyError for an unknown assignment |
| GroupManagement.LastWithLabel | features/group_management.py:114-116 | the group a picker label selects is an open group with that label, and no later open group has the label (the dictionary keeps the last one) |
| GroupManagement.OptionsOf | features/group_management.py:114-116 | the built options hold exactly the labels of the open groups, each mapped to the last open group carrying it |
| GroupManagement.Join | features/group_management.py:99-131 | the specification of join: the refusal of a member, the "all full" answer, the picker's KeyError, the re-check and the append; its properties are the join lemmas below |
| GroupManagement.JoinGroupForUser | features/group_management.py:99-131 | the result and the new `all_groups` are those of `Join` on the old store |
| GroupManagement.FirstAt | features/group_management.py:150 | the position found holds the user and no earlier position does |
| GroupManagement.RemoveFirst | features/group_management.py:150 | removing the user drops exactly its first occurrence; the members before and after it keep their order |
| GroupManagement.RemoveFirstKeepsOthers | features/group_management.py:150 | removing the user drops one element and keeps every other member; a duplicate-free list stays duplicate-free and no longer holds the user |
| GroupManagement.DropAtKeepsOthers | features/group_management.py:150 | dropping one position keeps every other element and, in a duplicate-free list, removes that element altogether |
| GroupManagement.ExitOrDelete | features/group_management.py:133-183 | the specification of exit and delete: the TypeError on a non-dict, the not-in-group answer, leadership transfer, removal of an emptied group, and delete by the creator only; its properties are the exit lemmas below |
| GroupManagement.DeleteOrExitGroupForUser | features/group_management.py:133-183 | the result and the new `all_groups` are those of `ExitOrDelete` on the old store |
| GroupManagement.RemoveEntry | features/group_management.py:160 | removing the first entry equal to a given one shortens the list by one; `RemoveEntryAt` states which entry goes |
| GroupManagement.RemoveEntryAt | features/group_management.py:160 | removing the first entry equal to the one at `i` drops exactly index `i` |
| GroupManagement.OthersOfAppend | features/group_management.py:37-45 | the other groups of a concatenation are those of each part, in stored order |
| GroupManagement.UserGroupOfAppend | features/group_management.py:42-43 | the caller's group in `a + b` is the one in `b` if any, else the one in `a` (the loop keeps the last match) |
| GroupManagement.ListingSkipsNonRecords | features/group_management.py:38-39 | a non-dict entry anywhere in the list leaves the listing unchanged |
| GroupManagement.OthersAreTheNonHolders | features/group_management.py:42-45 | the other groups are exactly the records that do not hold the caller |
| GroupManagement.UserGroupIsLastHolder | features/group_management.py:42-43 | the group shown as the caller's is the last record holding them |
| GroupManagement.NoUserGroupWithoutHolder | features/group_management.py:50-54 | no group is shown as the caller's exactly when no record holds them |
| GroupManagement.UserGroupIsTheFoundGroup | features/group_management.py:42-43 | in a valid list the listing's group of the caller is the group the operations find for them, and one exists exactly when the search finds one |
| GroupManagement.OtherLinesEndWithBreak | features/group_management.py:62 | the lines listing a non-empty set of other groups end with a line break |
| GroupManagement.NoOthersMessageIffNoOthers | features/group_management.py:57-64 | the listing ends with "No other groups created yet." exactly when no other group exists |
| GroupManagement.CreateChangesOnlyOnSuccess | features/group_management.py:71-97 | the group lists change only when the group is created; the key set gains exactly the assignment id |
| GroupManagement.CreateRefusesMember | features/group_management.py:75-78 | a caller already in a group is told so, naming the first group holding them, and no group is added |
| GroupManagement.CreateAppendsOneGroup | features/group_management.py:84-95 | a created group is appended at the end with the stripped name, the caller as only member and creator, and the count-based id; the caller was in no group before and the button was clicked |
| GroupManagement.CreateSucceeds | features/group_management.py:84-95 | a caller in no group who clicks with a non-blank name gets the reply "created" and the group appended with the stripped name and the count-based id |
| GroupManagement.CreateWaitsForClickAndName | features/group_management.py:84-97 | without a click or with a blank name, create returns None and adds only the empty list `setdefault` stores |
| GroupManagement.CountedIdsRepeatAfterDelete | features/group_management.py:86 | after the first of two groups is deleted, the next group created gets the id of the remaining one |
| GroupManagement.CreateKeepsGroupsValid | features/group_management.py:70-97 | create keeps every assignment's group list valid under that assignment's own maximum, when the maximum allows a group of one |
| GroupManagement.JoinChangesOnlyOnSuccess | features/group_management.py:99-131 | the store changes exactly when the caller is reported joined |
| GroupManagement.JoinAddsCallerToOneOpenGroup | features/group_management.py:109-129 | a join appends the caller, who was in no group, to one open group carrying the picked label; every other group is unchanged |
| GroupManagement.JoinSucceeds | features/group_management.py:121-129 | a caller in no group who confirms the label of an open group joins the last open group carrying it: the caller is appended and the reply names the group |
| GroupManagement.JoinWaitsForConfirm | features/group_management.py:121-131 | with an open group on offer but no confirmation, join returns None and changes nothing |
| GroupManagement.JoinNeverReportsNowFull | features/group_management.py:123-125 | the "is now full" re-check never fires, because the picker offers only open groups |
| GroupManagement.JoinKeepsGroupsValid | features/group_management.py:99-131 | join keeps every assignment's group list valid under that assignment's own maximum, capacity included |
| GroupManagement.NotInGroupIffNoRecordHoldsUser | features/group_management.py:135-141 | "not part of any group" is the answer exactly when every entry is a record without the caller, and then nothing changes |
| GroupManagement.DeleteOnlyByCreator | features/group_management.py:170-181 | the store changes exactly when the group is reported deleted, and then only the caller's group is gone; a confirmed delete by the creator reports the group deleted; a non-creator is refused with no change |
| GroupManagement.ExitTakesCallerOut | features/group_management.py:147-168 | after an exit the caller is in no group; a group left empty is removed; otherwise only the caller's group changes, and a departing creator hands over to the first remaining member |
| GroupManagement.ExitOrDeleteKeepsGroupsValid | features/group_management.py:133-183 | exit and delete keep every assignment's group list valid under that assignment's own maximum |
| GroupManagement.ExitOrDeleteKeepsListValid | features/group_management.py:147-181 | the list exit or delete works on stays valid, the creator still a member or the group gone |
| GroupManagement.ShrunkGroupKeepsValid | features/group_management.py:150-154 | a group replaced by a valid group drawn from its own members keeps the list valid |
| GroupLogic.FirstNamed | group_logic.py:31-32 | the first group whose name matches ignoring case, or the non-record met first, or Absent exactly when every entry is a group with another name |
| GroupLogic.NewGroupId | group_logic.py:13 | the id of a group made here: the assignment id, "-G" and the first eight characters of the uuid; `CreateAppendsOneGroup` and `CreateAllowsSecondGroup` use it |
| GroupLogic.CreateGroupSpec | group_logic.py:3-26 | the specification of create: the case-insensitive name check before the assignment lookup, and the appended group with the uuid-based id; its properties are the create lemmas below |
| GroupLogic.CreateGroup | group_logic.py:3-26 | the result and the new `all_groups` are those of `CreateGroupSpec` on the old store |
| GroupLogic.JoinGroupSpec | group_logic.py:28-40 | the specification of join: the first name match decides, with the already-in, KeyError, full and joined outcomes; its properties are the join lemmas below |
| GroupLogic.JoinGroup | group_logic.py:28-40 | the result and the new `all_groups` are those of `JoinGroupSpec` on the old store |
| GroupLogic.LineError | group_logic.py:49 | a listing line raises exactly for an entry that is not a group with a `max_members` |
| GroupLogic.FirstLineError | group_logic.py:48-49 | the listing raises exactly when some entry cannot be listed |
| GroupLogic.FirstLineErrorAt | group_logic.py:48-49 | the exception raised is that of the first entry that cannot be listed |
| GroupLogic.CapacityLines | group_logic.py:48-49 | one line per group with its name, member count and maximum; `CapacityLinesStep` and `CapacityLinesAppend` state its shape |
| GroupLogic.GroupsText | group_logic.py:42-50 | the specification of the listing: "No groups found" for an empty list, else the first exception or the heading and one line per group; `GroupsTextCases` states its cases |
| GroupLogic.GetGroups | group_logic.py:42-50 | the returned text or exception is `GroupsText` of the stored list |
| GroupLogic.CapacityLinesStep | group_logic.py:48-49 | one more listable group adds exactly its line |
| GroupLogic.CapacityLinesAppend | group_logic.py:48-49 | the lines keep stored order over a concatenation |
| GroupLogic.GroupsTextCases | group_logic.py:42-50 | "No groups found" exactly for an empty list; an exception exactly when some entry cannot be listed; never None |
| GroupLogic.CreateChecksNameFirst | group_logic.py:6-11 | a name taken ignoring case is reported before the assignment lookup, and nothing changes |
| GroupLogic.CreateNeedsAssignment | group_logic.py:9-11 | with a free name but no assignment of that id the reply is "Assignment not found." and nothing changes |
| GroupLogic.CreateAppendsOneGroup | group_logic.py:13-25 | a created group is appended at the end with the caller as only member and creator, the assignment's capacity and the uuid-based id |
| GroupLogic.CreateKeepsNamesDistinct | group_logic.py:6-7 | create keeps group names distinct ignoring case |
| GroupLogic.CreateKeepsCapacity | group_logic.py:14-24 | create keeps every group within its capacity when assignments allow at least one member |
| GroupLogic.CreateAllowsSecondGroup | group_logic.py:3-26 | a member of one group can create a second group and be in both |
| GroupLogic.JoinAllowsSecondGroup | group_logic.py:28-40 | a member of one group can join a second and be in both |
| GroupLogic.JoinChangesOnlyOnSuccess | group_logic.py:28-40 | the store changes exactly when the caller is reported joined |
| GroupLogic.JoinAddsToFirstMatch | group_logic.py:31-38 | a join appends the caller to the first group matching the name, which had room and lacked the caller; other groups are unchanged |
| GroupLogic.JoinNotFoundIff | group_logic.py:40 | "not found" exactly when every entry is a group with another name |
| GroupLogic.JoinKeepsCapacity | group_logic.py:35-37 | join keeps every group within its capacity |
| Intents.ParseIntent | utils/helpers.py:16-41 | the specification of the parser over a failed call, an undecodable reply or a decoded value; `ParseListCases` and `ParseSingleRecord` state its cases |
| Intents.IntentsOf | utils/helpers.py:25 | the filter of a list of dicts; `IntentsOfKeepsExactlyIntents` and `IntentsOfAppend` state what it keeps |
| Intents.FirstNonObject | utils/helpers.py:25 | the first list element that is not a dict, every earlier one being a dict; None exactly when all are dicts |
| Intents.IntentsOfAppend | utils/helpers.py:25 | the filter keeps stored order over a concatenation |
| Intents.IntentsOfKeepsExactlyIntents | utils/helpers.py:25 | the filter keeps exactly the elements typed "intent" and no more elements than it was given |
| Intents.ParseListCases | utils/helpers.py:24-25 | a list of dicts yields its intents in order; a list holding a non-dict yields one error naming the first non-dict's type |
| Intents.ParseSingleRecord | utils/helpers.py:27-41 | anything but a list yields one record: the intent dict, a chat record with the stripped reply, or an error |
| Dispatch.EffectiveAid | utils/helpers.py:59 | the record's assignment id when it is truthy, otherwise the selected id; `SelectStoresBeforeLookup` uses it |
| Dispatch.CatalogEntry | utils/helpers.py:68 | the first catalog entry with the id, and none for a non-string id; `SelectStoresBeforeLookup` states the unknown case |
| Dispatch.ViewGroups | utils/helpers.py:90-96 | the listing a "view_groups" intent shows: a string id is looked up, a number or boolean is shown in Python's spelling with no groups, a list or dict raises TypeError |
| Dispatch.HaltOf | utils/helpers.py:52-63 | the specification of a record that ends the turn: chat, error, a missing assignment, or a crash of the listing; `FirstStopDecides` states its effect |
| Dispatch.ResponseOf | utils/helpers.py:66-106 | the specification of each action's response; `ResponseAt` and `SelectStoresBeforeLookup` state its use |
| Dispatch.SessionAfter | utils/helpers.py:66-103 | the specification of each action's session update; `StepChanges` and `GoBackLastClearsSession` state its properties |
| Dispatch.Run | utils/helpers.py:51-106 | the specification of the loop over the records: stop at the first record that ends the turn, else update the session and collect the response; `FirstStopDecides`, `AllProceedCollectsResponses` and `SessionAfterLast` state its properties |
| Dispatch.Reply | utils/helpers.py:53-108 | the text returned: the stopping record's text, the exception of a crashed listing, or the joined responses; `ReplyJoinsResponses` and `ReplyIgnoresSession` state its properties |
| Dispatch.HandleIntent | utils/helpers.py:52-106 | one record's stop, new session and response are those of `HaltOf`, `SessionAfter` and `ResponseOf` |
| Dispatch.HandleUserInput | utils/helpers.py:43-108 | the final session and the reply are those of the `Run` fold over the parsed records |
| Dispatch.ReplyIgnoresSession | utils/helpers.py:51-108 | the reply never depends on the session the turn starts from |
| Dispatch.FirstStopDecides | utils/helpers.py:51-63 | the first chat, error or missing-assignment record decides the reply; earlier responses are dropped |
| Dispatch.Responses | utils/helpers.py:49 | one response per intent |
| Dispatch.ResponseAt | utils/helpers.py:72-106 | the i-th response is that of the i-th intent |
| Dispatch.AllProceedCollectsResponses | utils/helpers.py:49-106 | when no record stops the turn, each intent's response follows those collected so far |
| Dispatch.ReplyJoinsResponses | utils/helpers.py:108 | the reply is the responses joined by blank lines, and "" for no intents |
| Dispatch.SessionAfterLast | utils/helpers.py:66-103 | one more intent updates the session as that intent says |
| Dispatch.GoBackLastClearsSession | utils/helpers.py:98-102 | a turn ending with "go_back" leaves no selection and every flow closed |
| Dispatch.StepChanges | utils/helpers.py:66-103 | one intent raises a flag only by its own action and changes the selection only by selecting or going back |
| Dispatch.SessionChangesOnlyThroughActions | utils/helpers.py:66-103 | over a whole turn, each flag is raised only by its own action and the selection changes only through select or go back |
| Dispatch.SelectStoresBeforeLookup | utils/helpers.py:66-76 | an unknown assignment id is still stored as selected, with the "Couldn't find" answer |
| Login.Reset | login.py:214-218 | `reset_auth` restores the initial stage, role, email and send time, and touches nothing else |
| Login.ChooseRole | login.py:246-254 | the role button records the role and moves to email entry; `StepKeepsValid` shows the result is valid |
| Login.SecondsLeft | login.py:313-315 | never negative; zero exactly when 180 seconds have passed; otherwise the remainder of the 180; at most 180 when the clock has not gone back |
| Login.Pad2RoundTrip | login.py:330 | two-digit padding of a number below 100 is two digits that read back as the number |
| Login.TimerLabel | login.py:316-317 | the "MM:SS" countdown label; `TimerLabelRoundTrip` states that it reads back as the time left |
| Login.TimerLabelRoundTrip | login.py:316-317 | the countdown label is "MM:SS", its seconds below 60, and minutes·60 + seconds is the time left |
| Login.EmailAccepted | login.py:270-278 | the specification of the email check: a student may use either domain, anyone else only the staff domain, after lower-casing; the three lemmas below state its properties |
| Login.StaffAddressServesStudents | login.py:270-278 | any address the staff check accepts passes the student check |
| Login.StudentDomainRefusedForStaff | login.py:270-278 | a student-domain address passes the student check and fails the staff check |
| Login.EmailCheckIgnoresCase | login.py:271 | an address and its lower-cased form are judged alike |
| Login.SubmitEmail | login.py:266-289 | the specification of "Send Verification Code"; `SubmitEmailOutcomes` states its outcomes |
| Login.Verify | login.py:338-355 | the specification of "Verify and Login"; `VerifyOutcomes` states its outcomes |
| Login.Resend | login.py:356-365 | the specification of "Resend Code"; `ResendOutcomes` states its outcomes |
| Login.Step | login.py:372-383 | the specification of one event on the current stage's page; `StepKeepsValid`, `LoginOnlyByVerifiedCode` and `CodeStageOnlyAfterSend` state its properties |
| Login.SubmitEmailOutcomes | login.py:268-289 | a refused address changes nothing, reports the failed check and issues no code; an accepted one issues a code; the code stage follows exactly when the mailer succeeded, recording address and time |
| Login.ResendOutcomes | login.py:313-315 | resend is disabled exactly while fewer than 180 seconds have passed; a code is issued only when enabled; only the send time can change |
| Login.VerifyOutcomes | login.py:338-355 | a failed check only sets the error; a success records the address and role as the user, clears the login fields and opens that role's portal |
| Login.BackToEmail | login.py:337 | the back button on the code page returns to email entry and keeps the rest; `StepKeepsValid` covers it |
| Login.Valid | login.py:246-355 | the invariant the flow keeps: a role once past role selection, an accepted address on the code page, an accepted address and role for a logged-in user, and a cleared stage only after login; `StepKeepsValid` proves it kept |
| Login.StepKeepsValid | login.py:372-383 | the initial state is valid and every event the current page offers keeps the flow's invariant |
| Login.LoginOnlyByVerifiedCode | login.py:339-345 | a user is logged in only by a successful check on the code page, with the address that passed the email check |
| Login.CodeStageOnlyAfterSend | login.py:280-287 | the code page is reached only by an accepted address whose code was sent |
| Login.MaskEmail | login.py:305 | the specification of the masked address, with Python's slicing and `find`; the four mask lemmas below state its cases |
| Login.MaskKeepsShape | login.py:305 | with three or more characters before the '@', the mask keeps the length, the first three characters and the part from '@', and stars the rest |
| Login.MaskOnShortLocalPart | login.py:305 | with fewer than three characters before the '@', nothing is starred and the characters from '@' to the third repeat |
| Login.MaskWithoutAt | login.py:305 | without an '@' the mask is the first three characters and the last one |
| Login.MaskShortExample | login.py:305 | "a@rmit.edu.au" is shown as "a@r@rmit.edu.au" |
| Login.AuthSession.constructor | login.py:203-210 | the session starts at role selection with no role, an empty email and send time 0 |
| Login.AuthSession.ResetAuth | login.py:214-218 | the new state is `Reset` of the old |
| Login.AuthSession.SelectRole | login.py:246-254 | the role is recorded and the email page follows |
| Login.AuthSession.SendVerificationCode | login.py:266-289 | the new state, notice and issued flag are those of `SubmitEmail` |
| Login.AuthSession.VerifyAndLogin | login.py:338-355 | the new state and portal are those of `Verify` |
| Login.AuthSession.ResendCode | login.py:356-365 | the new state, notice and issued flag are those of `Resend` |
| Login.AuthSession.BackToEmailInput | login.py:337 | the stage returns to email entry, address and time kept |
| Login.AuthSession.ShowLoginFlow | login.py:372-383 | the page of the current stage handles its event as `Step` says, and the flow's invariant is kept |
| Staff.NextAssignmentId | pages/staff.py:372-374 | the specification of the proposed id; `NextIdIsFresh` and `NextIdNumber` state its properties |
| Staff.Counted | pages/staff.py:372 | an id counts when it is "A" followed by one or more digits; `OnlyDigitSuffixesCount` and `PrefixedNumberIsCounted` state its cases |
| Staff.CountedNumbers | pages/staff.py:372-373 | the numbers are exactly those of the ids made of "A" and digits, and none exactly when no id is of that form |
| Staff.Largest | pages/staff.py:373-374 | the last of the sorted numbers is one of them and at least every other |
| Staff.PrefixedNumberIsCounted | pages/staff.py:374 | "A" followed by a number's decimal form is counted, with that number |
| Staff.NextIdIsFresh | pages/staff.py:372-374 | the proposed id is of the counted form, its number exceeds every counted number, and it equals no existing id |
| Staff.NextIdNumber | pages/staff.py:372-374 | "A1" when no id is counted; otherwise "A" and one more than the largest counted number |
| Staff.OnlyDigitSuffixesCount | pages/staff.py:372 | a bare "A" and ids with a non-digit after the "A" are not counted |

## Left out

- I/O is left out, and so are persistence and concurrency. The JSON files
  behind `all_groups` and the assignments are never read or written. Two
  writers at once are not modelled.
- The language model call and `json.loads` are not modelled. Their outcome
  (the raw text, and the decoded value or a decode failure) is the parser's
  input. A failed call is represented by its exception message.
- JSON numbers are integers only. Floating-point values are left out, so a
  float assignment id is not modelled.
- Python's `str.lower` and `str.isdigit` are modelled on ASCII only. Unicode
  letters and digits are not mapped.
- The one-time-code helpers (`generate_otp`, `store_otp`, `send_otp_email`,
  `verify_otp`) and Cognito are not part of this model. Their results are
  boolean parameters. `utils/auth.py` is not part of this model either.
- The clock and `uuid.uuid4()` are parameters.
- Streamlit rendering, CSS and HTML are left out: `st.markdown`, `st.error`,
  `st.success`, `st.rerun`, `st.stop` and `st.switch_page`, whose target is
  returned as a `Portal`. appsample.py, pages/app.py and the admin helpers
  of features/admin_management.py are not part of this model.
  `display_groups_for_assignment`, a pandas table, is left out too.
- `Groups.Assignment.maxMembers` holds the integer value of "Maximum Group
  Members". The admin form stores it as text, and the code converts it with
  `int(...)` where it is used. The model does not capture `int()` failing on
  a non-numeric value (a ValueError), and the assignment summary shows the
  canonical decimal spelling rather than the stored text.
- Group dicts missing any of `group_id`, `group_name`, `members` or
  `created_by` are not modelled: every `Groups.Group` carries all four. So
  the `.get("members", [])` defaults of features/group_management.py:41,
  :76, :105 and :109 are not modelled, and neither is the KeyError that
  `g["members"]` raises at :135 for such a dict. A value that is not a dict
  is modelled (`Groups.Entry.NonRecord`).
- Widget reads are parameters: the typed text, the buttons, the picker label
  and the radio choice. A picked label that was not offered raises KeyError
  in the model, as the dictionary lookup would. The select box never
  produces one.
- The `return_group_name` flag of create and join is not a parameter. The
  model always returns the message together with the group name (or None);
  the plain-string form is that pair's first half.
- `handle_user_input`'s fallback for a dict result (utils/helpers.py:46-47)
  is left out. The parser never returns a dict.
- `Login.Valid` treats the three falsy forms of `otp_error` (missing, "",
  None) as one value "". Only its truth value is ever read.
- `Login.Step` takes only the events the current page offers, as the page
  draws only its own widgets.
- `GroupManagement.AppendGroupLines`, `GroupManagement.OptionsOf`,
  `GroupManagement.SearchMember` and `Dispatch.HandleIntent` are helper
  methods. Each one holds a loop or a branch of the Python function it
  serves; `SearchMember` is the membership scan that create and join both
  open with.
