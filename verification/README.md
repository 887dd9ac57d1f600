# si2p idea portal: a Dafny model of its rules

si2p is an idea-submission portal. Employees submit improvement ideas through a form the
administrators configure. Colleagues like or dislike them, and a CEO's vote decides their fate.
Administrators review, re-status, export and delete ideas from a dashboard. The portal has a
React front end and a Flask/MySQL back end (`app.py`).

This project models the rules underneath both halves as immutable datatypes and pure functions,
and proves what those rules promise. Each module follows one source component:

- `Ideas`, `Reactions`, `Leaderboard`: the organisation's idea list (OrganizationIdeas.js). This
  covers the optimistic like/dislike step, merging the server's reply, and the "top" and "all"
  views.
- `ReactionTable`, `ServerDb`, `StatusUpdates`, `IdeaQuery`, `UserAdmin`, `SignupEndpoint`: the
  server (app.py). This covers:
  - the per-user reaction table, the points formula and the CEO status rule;
  - batch status updates;
  - the idea listing with its draft rule and filters;
  - the bearer-token check;
  - the user-management guards;
  - sign-up validation.
- `Aggregation`, `Dashboard`, `Csv`: the admin dashboard (AdminDashboard.js). This covers the
  frequency tables and KPI cards, the delete permission, query parameters, the status change and
  delete flows, the chart selection, and the CSV export.
- `FormConfig`, `ConfigEditor`, `SubmitForm`: the configurable idea form. This covers the default
  form, load/save, the admin editor, and the completeness rules and submission of SubmitIdea.js.
- `SignupForm`, `Session`, `MultiSelect`, `ReviewIdeas`, `Routing`: sign-up validation in the
  browser, the session (AuthContext.js), the chart picker, "My Ideas", and the route guard with
  the sidebar.
- `CrossChecks`: lemmas that relate browser and server. The optimistic reaction equals the
  server's recount. Notification texts are classified as intended. The header and 401 rule
  agree with `token_required`. The sign-up form is checked against the sign-up endpoint.
- `Wrappers`, `Seqs`, `Text`: `Option`, sequence vocabulary (filter, count, subsequence, stable
  insertion sort), and the string operations the source uses (trim, split, join, contains,
  decimal rendering).

Inputs the code cannot compute itself are parameters:

- the clock (`now`), and the two `Date.now()` readings of a new form field;
- what the server answered;
- what `jwt.decode` makes of a token;
- the configured superadmin address;
- the storage entries.

Where the prose description of the system and the code differ, the model follows the code. For
example, the browser's sign-up omits the OTP (see Findings). Another example: moving a form field
re-inserts it at `index + direction` rather than only swapping neighbours. That is a swap only
for steps of one, which `ConfigEditor.MoveIsSwap` states.

## Model

| member | source | states |
|---|---|---|
| Ideas.UpdateWhere | static/js/components/OrganizationIdeas.js:68-99 | mapping over the list changes exactly the ideas with the id, keeps every other element and the length |
| Reactions.ReactLocally | static/js/components/OrganizationIdeas.js:67-96 | the optimistic step: the same reaction clears it and takes one off its counter; another reaction adds one to its counter and takes one off the opposite counter if it was held; missing counts read as 0; netScore is likes minus dislikes; no other field changes |
| Reactions.ReactLocallyTable | static/js/components/OrganizationIdeas.js:76-88 | the six cases of the click (none/like/dislike before × like/dislike clicked), counts and resulting reaction each |
| Reactions.ReactTwice | static/js/components/OrganizationIdeas.js:76-96 | clicking the same button twice restores reaction, counts and net score unless the user started from the opposite reaction, in which case both reactions end up cleared |
| Reactions.ReactInList | static/js/components/OrganizationIdeas.js:68-99 | only ideas with the clicked id take the optimistic step; length and every other idea are unchanged |
| Reactions.MergeReply | static/js/components/OrganizationIdeas.js:109-112 | the reply's likes, dislikes, points and reaction overwrite the idea's and netScore is recomputed from the reply; nothing else changes |
| Reactions.ServerWins | static/js/components/OrganizationIdeas.js:109-112 | merging the reply discards whatever the optimistic step guessed |
| Reactions.AfterResponse | static/js/components/OrganizationIdeas.js:107-122 | a reply is merged into the clicked idea; a failure replaces the list with the refetched one, or leaves the optimistic list when the refetch yields nothing |
| Reactions.HandleReactionReplied | static/js/components/OrganizationIdeas.js:67-114 | after a reply the clicked idea shows exactly the server's counts, points and reaction |
| Leaderboard.WithNetScores | static/js/components/OrganizationIdeas.js:126-129 | the copy recomputes netScore from the counts for every idea and changes nothing else |
| Leaderboard.TopView | static/js/components/OrganizationIdeas.js:131-133 | the "top" view has min(10, n) ideas, is non-increasing in net score, is drawn from the input, and every idea left out scores no higher than every idea kept |
| Leaderboard.TopPrefix | static/js/components/OrganizationIdeas.js:132-133 | the first n of a ranking are sorted, drawn from the ranked list, and dominate the rest |
| Leaderboard.AllView | static/js/components/OrganizationIdeas.js:134-136 | the "all" view is a permutation of the input (net scores recomputed), newest first |
| Leaderboard.PrefixDominates | static/js/components/OrganizationIdeas.js:132-133 | in a non-increasing list the first n elements outrank every remaining one |
| Leaderboard.AllViewKeepsTies | static/js/components/OrganizationIdeas.js:135 | ideas with the same submission date keep the order the server sent (stable sort) |
| Leaderboard.TopViewIsStableRanking | static/js/components/OrganizationIdeas.js:131-133 | ideas with equal score keep their fetched order in the ranking, and the top view's ideas of one score are the first ones of that score the server sent |
| Seqs.Filter | static/js/pages/ReviewIdeas.js:78-79 | `filter` keeps exactly the elements satisfying the predicate, as many as `CountWhere` counts |
| Seqs.FilterPartition | static/js/pages/ReviewIdeas.js:78-79 | filtering by a predicate and by its negation splits the list's multiset and length |
| Seqs.FilterIsSubsequence | static/js/pages/ReviewIdeas.js:78-79 | a filter keeps the order of what it keeps |
| Seqs.SortDesc | static/js/components/OrganizationIdeas.js:132 | sorting by a descending comparator gives a non-increasing permutation of the same length |
| Seqs.InsertDesc | static/js/components/OrganizationIdeas.js:132 | one insertion step keeps the list non-increasing and adds exactly the new element |
| Seqs.SortDescStable | static/js/components/OrganizationIdeas.js:132 | `Array.prototype.sort` is stable: elements with equal keys keep their relative order |
| Seqs.InsertDescStable | static/js/components/OrganizationIdeas.js:132 | an insertion step behind all equal keys keeps each run of equal keys in order |
| ReactionTable.Lookup | app.py:746-747 | the first row of the (idea, user) pair: none exactly when no row matches, otherwise the kind of a matching row |
| ReactionTable.LookupFinds | app.py:152 | under the unique key any matching row is the one the lookup returns |
| ReactionTable.Remove | app.py:752 | the DELETE removes every row of the pair and keeps every other row |
| ReactionTable.SetKind | app.py:756 | the UPDATE changes the kind of the pair's rows only |
| ReactionTable.ApplyReaction | app.py:749-761 | an equal reaction is removed, a different one replaced, none inserted; at most one row per pair remains; no other pair's reaction changes |
| ReactionTable.RemoveUnique | app.py:152 | deleting keeps the (idea, user) key unique |
| ReactionTable.AppendUnique | app.py:756-760 | inserting for a pair with no row keeps the key unique |
| ReactionTable.ApplyReactionTally | app.py:794-814 | every per-idea sum (likes, dislikes, points) moves by exactly the change of the user's own row; other ideas' sums are untouched |
| ReactionTable.PointsWithoutCeo | app.py:801-809 | without CEO votes, and with every voter a known user, points are likes minus dislikes |
| ReactionTable.PointsBounds | app.py:801-809 | points lie between minus the dislikes and ten times the likes |
| ReactionTable.ParseReaction | app.py:737-740 | only "like" and "dislike" are reaction types |
| ReactionTable.ParseReactionRoundTrip | app.py:737-740 | each kind's name parses back to that kind, and every accepted string is the name of the kind it parses to |
| ReactionTable.CeoRule | app.py:766-789 | a CEO's added or updated vote sets Approved or Rejected if the idea exists and its status differs, with one owner notification; otherwise ideas and notifications stay as they were |
| ReactionTable.ReactToIdea | app.py:735-822 | an invalid type is a 400 and an INSERT for a missing idea or user a 500, both with nothing changed; otherwise the reply's counts and points are recounts of the new table, the reply's reaction is null exactly when the request removed the user's reaction, and the table keeps its unique key and foreign keys |
| ReactionTable.CeoStatusRule | app.py:766-789 | a stored request changes a status only through a CEO's added or updated vote on an existing idea whose status differs; no other idea is touched |
| ReactionTable.ReactTwiceRestoresTable | app.py:749-761 | two identical requests cancel out (unless the user started from the opposite reaction): the user's reaction and all counts are as before |
| ReactionTable.ReactionStored | app.py:749-760 | a valid request is stored exactly when the idea and the user exist; otherwise the foreign keys make it a 500 |
| ReactionTable.RowsNameIdeaAndUser | app.py:154-155 | an existing row names an existing idea and user, so only an INSERT can break a foreign key, and the step keeps both keys when the idea and user exist |
| ReactionTable.ReactTwiceAtServer | app.py:735-822 | once a request has been stored, the same request again is stored too and restores the user's reaction and every count |
| StatusUpdates.ApplyEntry | app.py:709-727 | an entry with a falsy id or status, or an unknown idea, is skipped; a different status is written and the owner notified; an equal status changes nothing |
| StatusUpdates.ApplyBatch | app.py:709-729 | the batch keeps the set of ideas and only appends notifications |
| StatusUpdates.LastEntryWins | app.py:709-727 | after the batch, each idea carries the status of the last usable entry for it, or its old status |
| StatusUpdates.LastStatusOfOnly | app.py:709-715 | in a batch with one entry per idea, each idea's last usable status is its own entry's |
| StatusUpdates.BatchSnoc | app.py:709 | entries are applied in order |
| StatusUpdates.InertBatch | app.py:713-721 | a batch that only restates current statuses changes nothing and notifies nobody |
| StatusUpdates.NotifiesOnlyOnChange | app.py:721-727 | a notification is added exactly when a status really changes, and it goes to the owner with the status text |
| StatusUpdates.ReplayIsInert | app.py:721 | saving the same batch again (one entry per idea) is harmless |
| IdeaQuery.Decorate | app.py:581-596 | a result row carries the stored columns plus likes, dislikes, points and the caller's reaction recounted from the reaction table |
| IdeaQuery.ListIdeas | app.py:598-645 | the list holds a row for every stored idea that passes the draft rule and the filters, and only such rows, one row per such idea |
| IdeaQuery.KeptRows | app.py:636-645 | decorating the kept ideas yields exactly the rows of the selected ideas |
| IdeaQuery.NoForeignDrafts | app.py:600-602 | nobody sees another user's draft, whatever the filters |
| IdeaQuery.UnfilteredShowsAllVisible | app.py:600-634 | without filters every non-draft idea and every own draft is listed |
| IdeaQuery.RowsInSync | app.py:583-593 | every row agrees with the reaction table: counts, the caller's reaction and points |
| UserAdmin.BearerToken | app.py:240-244 | a token is read only from a header starting with "Bearer ", up to the next space |
| UserAdmin.TokenRequired | app.py:237-258 | no token is a 401 "Token is missing!"; an expired or invalid token is a 401 with its message; otherwise the claims identify the caller |
| UserAdmin.BearerRoundTrip | app.py:243-244 | a space-free token sent as "Bearer token" is read back unchanged |
| UserAdmin.BearerCutsAtSpace | app.py:244 | a token containing a space is cut at the space |
| UserAdmin.ListUsersAllowed | app.py:445-446 | listing users is for admin and superadmin only |
| UserAdmin.UpdateRole | app.py:460-484 | checks run in order (admin, valid role, not oneself); a 200 exactly when the user exists and the role really changes, since the UPDATE counts changed rows; otherwise 404; only a 200 changes the role, and only the target's |
| UserAdmin.RoleChangesAreBounded | app.py:468-477 | nobody can be made superadmin, no admin changes their own role, and no user appears or disappears, so the foreign keys keep holding |
| UserAdmin.RepeatedRoleChangeIsNotFound | app.py:479-484 | repeating a successful role change is answered 404 "User not found" although the user holds the role |
| UserAdmin.DeleteUser | app.py:489-516 | admin only, never oneself; when another user's notification or comment, or any reaction, refers to one of the user's ideas, or the user has reacted, the database refuses and the answer is 500 with nothing changed; otherwise the user, their notifications, comments and ideas go, 200 for an existing user and 404 for a missing one |
| UserAdmin.RemoveUser | app.py:502-511 | the four DELETEs: the user, their ideas, notifications and comments go, everything else stays |
| UserAdmin.DeleteKeepsIntegrity | app.py:116-156 | whatever the delete answers, every idea, comment, notification and reaction still names an existing user and idea |
| UserAdmin.RemoveKeepsIntegrity | app.py:502-511 | when nothing blocks it, the delete leaves no row referring to a deleted user or idea |
| UserAdmin.ReactedUserCannotBeDeleted | app.py:509-511 | a user who has reacted to any idea can never be deleted: the answer is 500 and nothing changes |
| UserAdmin.Detach | app.py:504-508 | removing the rows that refer to the user's ideas or the user's reactions removes every reason for refusal and keeps the foreign keys |
| UserAdmin.DetachIdleWhenUnblocked | app.py:504-508 | nothing blocks the delete exactly when there is nothing to detach |
| UserAdmin.DeleteUserCascade | app.py:489-516 | the corrected delete never fails: 200 exactly for an existing user other than the caller, the user gone, other users' ideas kept and the foreign keys intact |
| UserAdmin.CascadeAgreesWhenUnblocked | app.py:489-516 | whenever the written delete succeeds the corrected one gives the same answer and database |
| UserAdmin.DeleteOfReactedIdeaOwnerFails | app.py:509-511 | user 2 owns idea 10 and admin 1 liked it: the written delete answers 500, the corrected one 200 |
| UserAdmin.ResetPassword | app.py:521-541 | admin only; a missing or shorter-than-5 password is refused; a 200 exactly for an existing user, and only a 200 changes the target's password |
| UserAdmin.ResetTouchesOnePassword | app.py:521-541 | a reset keeps every role and every other user's password, stores exactly the new password on a 200, keeps the foreign keys, and succeeds for every existing user |
| SignupEndpoint.PasswordError | app.py:361-369 | the server's rules: at least 8 characters, an uppercase letter, a lowercase letter and a digit; whatever they accept the form accepts too, and the two agree exactly on passwords within the Basic Multilingual Plane; the length message appears exactly for fewer than 8 characters |
| SignupEndpoint.EmojiPasswordSplitsRules | app.py:361-362 | "Aa1" followed by four emoji passes the form's length rule and fails the server's |
| SignupEndpoint.Signup | app.py:327-395 | rejections in the source's order (missing field, domain, OTP missing, wrong, expired, mismatch, password rules, phone, an existing account with the same email up to letter case); an account is created exactly when all pass; a created account consumes the OTP and an expired OTP is dropped; any other rejection changes nothing |
| SignupEndpoint.CreatedWhen | app.py:337-391 | the conditions for an account, stated one by one, suffice; the address must not be stored in any letter case |
| SignupEndpoint.CaseVariantIsTaken | app.py:378-393 | a request that passes every check but whose email equals a stored one up to letter case is answered 409 with nothing changed, since the UNIQUE email column compares case-insensitively |
| SignupEndpoint.AliceIsTaken | app.py:88-93 | with "Alice@adventz.com" stored, "alice@adventz.com" is taken and "alicia@adventz.com" is not |
| SignupEndpoint.SignupKeepsEmailsUnique | app.py:88-93 | sign-up keeps the UNIQUE email key: no two stored emails differ only in case, and a creation adds a new key |
| SignupEndpoint.OtpSingleUse | app.py:387-389 | the same request cannot create a second account: its OTP is gone |
| SignupEndpoint.PasswordBeforePhone | app.py:361-373 | a weak password is reported before an invalid phone |
| Aggregation.Bump | static/js/pages/AdminDashboard.js:166 | `acc[k] = (acc[k] \|\| 0) + 1` adds one to k (appending k if new) and leaves every other count alone |
| Aggregation.Tabulate | static/js/pages/AdminDashboard.js:165-168 | the reduce counts, for every key, exactly the kept elements with that key; the keys are those that occur; the total is the number kept |
| Aggregation.StatusCounts | static/js/pages/AdminDashboard.js:165-168 | each status maps to the number of ideas with it, keys are distinct, and the counts sum to the list length |
| Aggregation.CompanyCounts | static/js/pages/AdminDashboard.js:207-210 | each company maps to the number of ideas with it, and the counts sum to the list length |
| Aggregation.CategoryCounts | static/js/pages/AdminDashboard.js:259-262 | ideas without a category are skipped; each other category is counted; the counts sum to the ideas that have one |
| Aggregation.SkipEmptyCategory | static/js/pages/AdminDashboard.js:260 | an idea without a category is counted under no key, and every named category is counted as with no skipping |
| Aggregation.Zeroed | static/js/pages/AdminDashboard.js:297 | the department table starts with exactly the options as keys, all at 0 |
| Aggregation.Inc | static/js/pages/AdminDashboard.js:303-306 | a known department goes up by one; an unknown one changes nothing |
| Aggregation.IncAll | static/js/pages/AdminDashboard.js:301-304 | an array value adds each known element's number of occurrences |
| Aggregation.AddDepartments | static/js/pages/AdminDashboard.js:300-307 | one idea adds its mentions of each known department, array or single string |
| Aggregation.AddIdeas | static/js/pages/AdminDashboard.js:299-308 | over all ideas the known keys stay the same and each grows by the mentions of its department |
| Aggregation.DepartmentCounts | static/js/pages/AdminDashboard.js:296-308 | keys are exactly the options; each counts the mentions across all ideas; unknown departments are ignored |
| Aggregation.DepartmentsStartAtZero | static/js/pages/AdminDashboard.js:297 | with no ideas every option shows 0 |
| Aggregation.ComputeKpis | static/js/pages/AdminDashboard.js:533-565 | the cards count all ideas, the approved ones, and those under review or shortlisted |
| Aggregation.KpiCounts | static/js/pages/AdminDashboard.js:549-565 | the approved card counts the "Approved" ideas and the review card those "Under Review" plus those "Shortlisted" |
| Aggregation.KpisMatchStatusChart | static/js/pages/AdminDashboard.js:533-565 | the cards agree with the status chart: total = sum of the chart, approved = its "Approved" slice, in review = its two review slices |
| Dashboard.CanDeleteIdea | static/js/pages/AdminDashboard.js:444-448 | superadmin always; admin iff the status is neither Approved nor Implemented; nobody else |
| Dashboard.SuperadminMayDeleteMore | static/js/pages/AdminDashboard.js:444-448 | whatever an admin may delete the superadmin may too, and the admin's right depends only on status |
| Dashboard.SetFilter | static/js/pages/AdminDashboard.js:364 | one filter takes the new value and the others keep theirs |
| Dashboard.QueryParams | static/js/pages/AdminDashboard.js:89-94 | exactly the filters with a non-empty value become parameters, in the filters' order |
| Dashboard.ParamsOfOneFilter | static/js/pages/AdminDashboard.js:89-94 | cleared filters send no parameter; setting one filter sends exactly that one |
| Dashboard.PatchStatus | static/js/pages/AdminDashboard.js:381-383 | only the matching idea's status changes; all other fields and ideas stay |
| Dashboard.StatusChange | static/js/pages/AdminDashboard.js:366-395 | one update is sent; an accepted change patches the list, a refused one refreshes it, a thrown one changes nothing; the busy marker is cleared in every case |
| Dashboard.PatchMatchesServer | static/js/pages/AdminDashboard.js:370-383 | when the list agreed with the server, the local patch equals what the server stores after the single-entry batch |
| Dashboard.PatchIdempotent | static/js/pages/AdminDashboard.js:381-383 | patching twice with the same status is patching once |
| Dashboard.ConfirmDelete | static/js/pages/AdminDashboard.js:424-438 | no target means nothing happens; an accepted delete closes the dialog and refreshes; a refused one leaves the page unchanged |
| Dashboard.DeleteSendsOnce | static/js/pages/AdminDashboard.js:420-438 | the delete button then a confirmation sends one DELETE for that idea; after an accepted one a second confirmation sends nothing, after a refused one it sends the same id again |
| Dashboard.DefaultOptions | static/js/pages/AdminDashboard.js:450-453 | with the default form the department chart's and the company filter's options are the ones the first field of each name defines |
| Dashboard.ToggleAll | static/js/pages/AdminDashboard.js:56 | a series of picker clicks only changes the membership of clicked keys |
| Dashboard.ChartsStayValid | static/js/pages/AdminDashboard.js:50-56 | starting from status and company, any clicks on the picker keep a duplicate-free selection of chart keys |
| Csv.DoubleQuotes | static/js/pages/AdminDashboard.js:401 | doubling never shortens and leaves quote-free text unchanged |
| Csv.Quote | static/js/pages/AdminDashboard.js:401 | the quoted title starts and ends with a quote |
| Csv.ReadQuotedDoubled | static/js/pages/AdminDashboard.js:401 | a doubled-and-closed text reads back as the original text, whatever quotes it holds |
| Csv.Header | static/js/pages/AdminDashboard.js:400 | the header line reads as the seven column names |
| Csv.HeaderReads | static/js/pages/AdminDashboard.js:400 | the header line reads back as the seven column names |
| Csv.ReadPlainLine | static/js/pages/AdminDashboard.js:401-402 | fields without commas or quotes, joined by commas, read back as the same fields |
| Csv.RowAsWrittenPlain | static/js/pages/AdminDashboard.js:401 | a line as written reads back as its seven values when the unquoted values hold no comma or quote |
| Csv.CommaInNameShiftsColumns | static/js/pages/AdminDashboard.js:401 | a submitter name holding a comma reads as two fields, giving eight fields under a seven-column header |
| Csv.DoeJane | static/js/pages/AdminDashboard.js:401 | the submitter "Doe, Jane" yields an eight-field line |
| Csv.ReadQuotedLine | static/js/pages/AdminDashboard.js:401-402 | quoting every field makes any record read back exactly |
| Csv.RowRoundTrip | static/js/pages/AdminDashboard.js:400-401 | with every value quoted each idea's line reads back as its seven values, as many as the header has |
| FormConfig.FindByName | static/js/pages/AdminDashboard.js:296 | `find` returns the first field with the name, or nothing when none has it |
| FormConfig.DefaultShape | static/js/context/FormConfigContext.js:5-18 | the default form has twelve required fields numbered 1 to 12 with distinct names |
| FormConfig.DefaultChoicesHaveOptions | static/js/context/FormConfigContext.js:5-18 | every dropdown or radio field of the default form has a non-empty option list, and only those fields have options |
| FormConfig.DefaultDependency | static/js/context/FormConfigContext.js:14-15 | dataSources depends on availabilityOfData = "Yes", which is one of that field's options |
| FormConfig.DefaultOthersUnconditional | static/js/context/FormConfigContext.js:5-18 | no other default field depends on anything |
| FormConfig.FindFirst | static/js/pages/AdminDashboard.js:296 | the first field carrying a name is the one found |
| FormConfig.Save | static/js/context/FormConfigContext.js:31-34 | saving makes the configuration live and what the next load reads |
| FormConfig.SaveThenLoad | static/js/context/FormConfigContext.js:21-34 | loading gives the default when nothing is stored; save-then-load returns the same ordered list, and saving again overwrites wholesale |
| ConfigEditor.HandleConfirm | static/js/pages/AdminConfig.js:23-40 | "add" appends one optional text field with no options at the end, its id and its name taken from two clock readings; "remove" deletes every field with the id and keeps the rest in order; afterwards nothing is pending and the dialog is closed (opened by the add and remove clicks) |
| ConfigEditor.AddThenRemove | static/js/pages/AdminConfig.js:13-40 | an add click, its confirmation, a remove click on the new field and its confirmation restore the configuration when the new id was fresh |
| ConfigEditor.Apply | static/js/pages/AdminConfig.js:43 | the spread changes only the named property |
| ConfigEditor.FieldChange | static/js/pages/AdminConfig.js:42-44 | only fields with the id change, and only in the named property; length and order are kept |
| ConfigEditor.FieldChangeLastWins | static/js/pages/AdminConfig.js:42-44 | setting a property twice keeps the later value |
| ConfigEditor.FieldChangeKeepsIds | static/js/pages/AdminConfig.js:42-44 | editing never changes which id or name sits where |
| ConfigEditor.SplitOptions | static/js/pages/AdminConfig.js:47 | the options are the comma-separated pieces, trimmed, one more than the number of commas |
| ConfigEditor.OptionsChange | static/js/pages/AdminConfig.js:46-49 | the field with the id gets the split options; nothing else changes |
| ConfigEditor.OptionsRoundTrip | static/js/pages/AdminConfig.js:136 | trimmed, comma-free options joined with ", " split back into the same list |
| ConfigEditor.LeadingBlankPiece | static/js/pages/AdminConfig.js:47 | a blank before the first option is trimmed away |
| ConfigEditor.ClearedOptions | static/js/pages/AdminConfig.js:47 | clearing the box leaves one empty option, not none |
| ConfigEditor.OptionsBoxAsWritten | static/js/pages/AdminConfig.js:133-136 | the options box is shown for dropdown and radio fields and fails exactly when the field has no options list |
| ConfigEditor.DefaultTextFieldToDropdownThrows | static/js/pages/AdminConfig.js:125-136 | turning the default "Employee Name" field into a dropdown makes the options box fail |
| ConfigEditor.OptionsBox | static/js/pages/AdminConfig.js:133-136 | the corrected box shows "" for a missing list and otherwise the same text as written |
| ConfigEditor.OptionsBoxRoundTrip | static/js/pages/AdminConfig.js:133-136 | re-submitting the box unchanged leaves a field with clean options as it was |
| ConfigEditor.MoveField | static/js/pages/AdminConfig.js:51-59 | an in-range move is a permutation with the field at index + direction and the others in order; an out-of-range move is a no-op |
| ConfigEditor.MoveIsSwap | static/js/pages/AdminConfig.js:51-59 | a step of one swaps two neighbours |
| ConfigEditor.MoveUpThenDown | static/js/pages/AdminConfig.js:51-59 | moving up then down, or down then up, restores the list |
| ConfigEditor.HandleSave | static/js/pages/AdminConfig.js:61-65 | the working copy becomes the live, stored configuration and the success message shows |
| ConfigEditor.HandleReset | static/js/pages/AdminConfig.js:67-74 | a confirmed reset puts the default back in the editor and in storage; a declined one changes nothing |
| ConfigEditor.ResetThenReopen | static/js/pages/AdminConfig.js:67-74 | after a reset a reopened editor shows the default form |
| SubmitForm.InitialData | static/js/pages/SubmitIdea.js:10-16 | every configured name maps to '' and nothing else is present |
| SubmitForm.HandleChange | static/js/pages/SubmitIdea.js:25-28 | only the named entry changes |
| SubmitForm.HandleChangeAndSubmittable | static/js/pages/SubmitIdea.js:25-39 | when no field depends on the edited one, a filled value keeps a submittable form submittable, and a blank value in a required field on screen makes it unsubmittable |
| SubmitForm.HandleChangeAndDraftable | static/js/pages/SubmitIdea.js:25-43 | after typing a title the form is draftable exactly when the employee name is filled text and the title is not blank; emptying the employee name makes it undraftable |
| SubmitForm.Submittable | static/js/pages/SubmitIdea.js:30-39 | true iff every required field not hidden by its dependency has a non-blank value |
| SubmitForm.Shown | static/js/pages/SubmitIdea.js:103-106 | the rendered fields are the configured fields not hidden, in order |
| SubmitForm.SubmittableIffShownFilled | static/js/pages/SubmitIdea.js:103-106 | the form can be submitted exactly when every required field on screen is filled |
| SubmitForm.SubmittableDefaultIsDraftable | static/js/pages/SubmitIdea.js:30-43 | with the default form, submittable implies draftable |
| SubmitForm.FreshFormIsEmpty | static/js/pages/SubmitIdea.js:10-43 | a fresh form is neither draftable nor, with one unconditional required field, submittable |
| SubmitForm.FreshDefaultIsEmpty | static/js/pages/SubmitIdea.js:10-43 | the fresh default form can be neither saved nor submitted |
| SubmitForm.StartSubmit | static/js/pages/SubmitIdea.js:45-55 | nothing is sent while a submission is in flight; otherwise PUT for the idea being edited, else POST, with the form data, status and user id |
| SubmitForm.NoDoubleSubmit | static/js/pages/SubmitIdea.js:47 | a second click while the first is pending sends nothing |
| Text.Utf16PrefixFits | static/js/pages/SubmitIdea.js:71 | the cut of a body that is not JSON fits in 100 UTF-16 code units |
| Text.Utf16PrefixWhole | static/js/pages/SubmitIdea.js:71 | a body within 100 UTF-16 code units is shown whole |
| Text.Utf16PrefixIsLongest | static/js/pages/SubmitIdea.js:71 | the cut is the longest prefix that fits: one more character would pass 100 code units |
| Text.Utf16PrefixInBmp | static/js/pages/SubmitIdea.js:71 | within the Basic Multilingual Plane the cut is the first 100 characters |
| SubmitForm.FinishSubmit | static/js/pages/SubmitIdea.js:63-89 | success goes to "My Ideas" with the new id (or the edited one); every failure shows a non-empty error; the in-flight marker is always cleared |
| SubmitForm.SubmitAgainAfterAnswer | static/js/pages/SubmitIdea.js:87-89 | after any answer a new submission is sent |
| SubmitForm.ClickedSubmitIsComplete | static/js/pages/SubmitIdea.js:30-55 | a request sent as "Submitted" carries a complete form |
| SignupForm.PasswordProblems | static/js/components/SignupModal.js:24-31 | empty iff the UTF-16 length is at least 8 with an uppercase letter, a lowercase letter and a digit; one message per failing rule, in rule order |
| SignupForm.HandleSubmit | static/js/components/SignupModal.js:33-61 | email, then phone, then password rules, then confirmation; the first failure shows its message and `signup` is called only when all pass |
| SignupForm.SanitizePhone | static/js/components/SignupModal.js:163 | the phone box holds the first min(10, number of digits) digits of the input, in order, and nothing else |
| SignupForm.SanitizeExtends | static/js/components/SignupModal.js:163 | typing more never changes the digits already in the box |
| SignupForm.SanitizeKeepsClean | static/js/components/SignupModal.js:163 | already clean input passes through unchanged |
| SignupForm.SanitizeIdempotent | static/js/components/SignupModal.js:163 | sanitising twice is sanitising once |
| SignupForm.SanitizedPhoneCheck | static/js/components/SignupModal.js:163 | a sanitised phone is valid exactly when it has ten characters |
| Session.Logout | static/js/context/AuthContext.js:13-28 | logout clears the user, login flag, notifications, both storage entries and the timer |
| Session.LogoutIdempotent | static/js/context/AuthContext.js:13-28 | logging out twice is logging out once |
| Session.AuthHeader | static/js/context/AuthContext.js:35 | "Bearer " + token for a stored token, "" otherwise |
| Session.Headers | static/js/context/AuthContext.js:32-36 | the caller's headers are kept, JSON is the default content type, and Authorization is always overridden |
| Session.Classify | static/js/context/AuthContext.js:62 | "updated to" means a status update, otherwise "commented on" a comment, otherwise a new idea |
| Session.Format | static/js/context/AuthContext.js:57-64 | read iff `is_read === 1`, the type from the message, other fields copied |
| Session.OverrideRole | static/js/context/AuthContext.js:123-127 | the superadmin address becomes superadmin, ceo@adventz.com becomes ceo, and everyone else keeps the server's role |
| Session.OverrideRoleIdempotent | static/js/context/AuthContext.js:87-91 | overriding twice changes nothing more |
| Session.Login | static/js/context/AuthContext.js:114-137 | success stores the overridden user and token and loads notifications; failure returns the server's error after the 401 rule |
| Session.FailedLoginKeepsLoggedOutSession | static/js/context/AuthContext.js:134-136 | a failed login from a logged-out session leaves it as it was |
| Session.Restore | static/js/context/AuthContext.js:75-112 | with a stored user and token (and notifications fetched) the overridden user is logged in and polling starts; without them the session is left as it was with polling off; loading ends either way |
| Session.UnreadIds | static/js/context/AuthContext.js:153 | exactly the ids of the unread notifications |
| Session.MarkAllRead | static/js/context/AuthContext.js:152-164 | a request is sent iff something is unread; on success those become read and the rest are unchanged |
| Session.MarkAllReadClears | static/js/context/AuthContext.js:161-163 | after a successful mark-read nothing is unread and read ones are untouched |
| MultiSelect.Toggle | static/js/components/MultiSelectDropdown.js:7-11 | a selected key is removed, an unselected one appended; no other key's membership changes |
| MultiSelect.ToggleKeepsDistinct | static/js/components/MultiSelectDropdown.js:7-10 | toggling keeps a selection free of duplicates |
| MultiSelect.ToggleTwice | static/js/components/MultiSelectDropdown.js:7-10 | toggling an absent key twice restores the list; any key twice restores membership |
| MultiSelect.SummaryShowsCount | static/js/components/MultiSelectDropdown.js:31 | the button text of a non-empty selection starts with digits that read back as the number of selected charts, and selections of different sizes (empty included) never show the same text |
| ReviewIdeas.SubmittedIdeas | static/js/pages/ReviewIdeas.js:78 | the non-drafts, in order |
| ReviewIdeas.DraftIdeas | static/js/pages/ReviewIdeas.js:79 | the drafts, in order |
| ReviewIdeas.Partition | static/js/pages/ReviewIdeas.js:78-81 | the submitted and draft lists, which the two tabs show, partition the user's ideas |
| ReviewIdeas.ActionsByTab | static/js/pages/ReviewIdeas.js:182-188 | every draft may be edited and withdrawn; a submitted idea may be withdrawn only while "Submitted" and never edited |
| ReviewIdeas.StatusClass | static/js/pages/ReviewIdeas.js:66-76 | "Draft" and "Approved" get their badges and any status outside the six known ones the default |
| ReviewIdeas.StatusClassesDistinct | static/js/pages/ReviewIdeas.js:66-76 | the six badges are pairwise different and differ from the fallback |
| ReviewIdeas.ToggleExpand | static/js/pages/ReviewIdeas.js:171 | clicking the expanded row collapses it, any other row expands; at most one row is open |
| ReviewIdeas.ToggleExpandTwice | static/js/pages/ReviewIdeas.js:171 | two clicks on the same row restore the page |
| ReviewIdeas.ConfirmWithdraw | static/js/pages/ReviewIdeas.js:54-64 | no target is a no-op; otherwise the target's id is sent in a DELETE; a DELETE that throws leaves the page unchanged with the dialog open; any answer closes the dialog and clears the target; a success reloads the list |
| ReviewIdeas.WithdrawThenConfirm | static/js/pages/ReviewIdeas.js:45-64 | asking to withdraw and confirming deletes exactly that idea; an answered DELETE closes the dialog, while a thrown one leaves it open on the same idea so the next confirmation resends its id; asking to edit opens the form with the idea |
| Routing.HomeIsFirstMenuItem | static/js/components/Sidebar.js:72-78 | the landing page of each role (admins to the dashboard, the CEO to the organisation's ideas, everyone else to the form) is the first item of its menu |
| Routing.Guard | static/js/components/PrivateRoute.js:11-24 | loading shows the loading view; no login goes to the login; the page renders iff no roles are listed or the role is listed; a refused user goes home |
| Routing.SessionStaysCoherent | static/js/context/AuthContext.js:13-28 | login, logout, the 401 rule and restoring never claim a login without a user |
| Routing.CoherentNeverCrashes | static/js/components/PrivateRoute.js:17-19 | the guard's `user.role` read cannot fail on a coherent session |
| Routing.RedirectStaysInMenu | static/js/components/PrivateRoute.js:17-22 | a redirected user lands on the first item of their own sidebar |
| Routing.PathsByRole | static/js/components/Sidebar.js:72-80 | the three sidebars, path by path: the CEO's is the organisation's ideas alone; admins get Dashboard, Users, the organisation's ideas and Settings; others Submit Idea, My Ideas and the organisation's ideas |
| Routing.MenuAccess | static/js/components/Sidebar.js:72-80 | everyone sees the organisation's ideas; the admin pages appear iff the role is admin; the form and "My Ideas" appear iff the role is neither admin nor CEO |
| Routing.AtMostOneActive | static/js/components/Sidebar.js:82-83 | no two items share a path, so at most one is active |
| Text.Trim | static/js/pages/SubmitIdea.js:34 | trimming removes the surrounding whitespace (the ASCII whitespace, the no-break space, the Unicode space separators and the line and paragraph separators), and gives "" exactly for an all-space string |
| Text.Utf16Length | static/js/components/SignupModal.js:26 | JavaScript's length is between the number of characters and twice it |
| Text.Utf16LengthCountsPlanes | static/js/components/SignupModal.js:26 | JavaScript's length equals the number of characters exactly for text within the Basic Multilingual Plane, and is twice it for text wholly outside |
| Text.Split | static/js/pages/AdminConfig.js:47 | one more piece than separators, none containing the separator |
| Text.SplitJoin | static/js/pages/AdminConfig.js:47 | joining the pieces back gives the input |
| Text.JoinSplit | static/js/pages/AdminConfig.js:136 | splitting separator-free pieces joined with the separator gives them back |
| Text.NatToString | static/js/components/MultiSelectDropdown.js:31 | a number renders as a non-empty string of digits |
| Text.NatToStringRoundTrip | static/js/components/MultiSelectDropdown.js:31 | reading the digits back gives the number |
| CrossChecks.UsersPageMatchesServer | static/js/components/Sidebar.js:72-78 | the sidebar, reading the browser's address-overridden role, shows the Users page exactly when the server, reading the stored role, lets the user list users, except for two cases stated in full: the superadmin address with a stored non-admin role (page shown, 403) and the CEO address with a stored admin role (page hidden, allowed) |
| CrossChecks.SuperadminAddressSeesForbiddenPage | static/js/context/AuthContext.js:123-124 | an account at the superadmin address with the stored role "user" (the only role sign-up creates) is shown the Users page, and the server refuses it with 403 |
| CrossChecks.OptimisticMatchesServer | static/js/components/OrganizationIdeas.js:67-96 | when the browser's copy agrees with the table, the request is stored exactly when the idea and the user still exist, and then the optimistic counts and reaction are exactly those the server replies |
| CrossChecks.MergeOnlyAddsPoints | static/js/components/OrganizationIdeas.js:109-112 | hence, when the request is stored, merging the reply only brings in the points |
| CrossChecks.StatusMessagesAreStatusUpdates | app.py:723 | both status notification texts are labelled status updates in the browser |
| CrossChecks.TitleDecidesLabel | app.py:570 | a new-idea notice whose title contains "updated to" is labelled a status update |
| CrossChecks.NoTokenIsMissingToken | static/js/context/AuthContext.js:35 | no stored token yields a 401 "Token is missing!" |
| CrossChecks.HeaderCarriesToken | static/js/context/AuthContext.js:35-44 | the server checks exactly the stored token, and the browser logs out exactly when it is refused |
| CrossChecks.ClientSignupAlwaysRejected | static/js/context/AuthContext.js:139-143 | as written, every browser sign-up body (the five form fields and no OTP) is rejected as incomplete and nothing is stored |
| CrossChecks.SignupRequestWithOtp | app.py:335-339 | the body the endpoint expects, with the OTP the user received |
| CrossChecks.CorrectedSignupAccepted | static/js/components/SignupModal.js:33-61 | with the OTP sent, given a name and a valid OTP, what the form lets through is created exactly when the password has at least 8 characters and the address is not stored in any letter case, so always for a new address and a password within the Basic Multilingual Plane |
| CrossChecks.FormChecksSurviveTrim | app.py:330-333 | the server's stripping undoes none of the form's checks |

## Left out

- Network and database I/O: `fetch`, SQL, `init_db` and migrations, JWT signing, SMTP. Responses and decoded tokens are parameters. Tables are maps or sequences of rows.
- Randomness and the clock: OTP generation is out; expiry compares abstract integer instants; `submissionDate` is an integer, so `Date` parsing and locale formatting are not modelled.
- Timers and concurrency: the 30-second polling (only whether it runs is kept), message-clearing timeouts, and races between an optimistic update and its answer.
- Chart.js rendering, colours and the approval-rate card. The card uses `Math.round` on a floating-point ratio.
- Browser storage is abstract. The remember-me password of the login page is out.
- Pages with no rules beyond markup: LandingPage, Login, ViewIdeaModal, ConfirmationModal, CommentModal, ForgotPasswordModal, Notifications, FormInput, Navbar, TopBar, UserManagement, DashboardLayout, Skeleton, SkeletonRow. UserManagement's checks are those of `UserAdmin`.
- Endpoints outside the idea, reaction, status, user and sign-up rules: OTP sending, login's password check, comments, the notification endpoints, and the per-user idea list's SQL ordering.
- `ORDER BY points DESC, i.submissionDate DESC` of the idea listing. `IdeaQuery.ListIdeas` keeps table order.
- IdeaQuery.ListIdeas: the search is simplified to a case-sensitive substring test. In the source, `%` and `_` typed into the search act as `LIKE` wildcards, because the pattern is built without escaping (app.py:612-614). MySQL's default collation also compares case-insensitively, for `LIKE` and for `=`/`!=` on status, category and company, `status != 'Draft'` included (app.py:601-626). Dates compare as integers rather than through `DATE()`.
- SignupForm.ValidPhone: `\d` is read as an ASCII digit. Python's `re` also accepts other Unicode digits on the server.
- Password hashing: a stored password is the password itself. `generate_password_hash` salts every hash, so the password UPDATE always changes the row and `UserAdmin.ResetPassword` answers 200 for every existing user.
- `SUPERADMIN_EMAIL` comes from config.js, which is not part of this model. It is a parameter.
- Payload key collisions: form fields named `status`, `submissionDate` or `userId` are overwritten by the request's own keys. Requests carry them separately.
- The browser's copy of the server's `points`, `email` and `last_edited_at` columns: the server sends no `netScore`, and the browser recomputes it.
- URL encoding: `URLSearchParams` escaping and `encodeURI` on the CSV data URL are not modelled. `encodeURI` leaves `#` as is, which could cut the download short.
- The server's update-status endpoint checks no role and always answers 200. `Dashboard.StatusChange` takes the outcome as a parameter.
- Idea DELETE on the server checks neither role nor status (app.py:689-697). `Dashboard.CanDeleteIdea` is the browser's rule only.
- The confirmation dialogs' cancel button (static/js/pages/ReviewIdeas.js:89, static/js/pages/AdminConfig.js:80) only hides the dialog; the pending target or action is kept. `ReviewIdeas.ConfirmWithdraw` and `ConfigEditor.HandleConfirm` model the confirm button only.
- `confirmDelete` has no `catch`: a request that throws leaves the dialog open. This is the `!ok` case.
- Editing an idea does not prefill the form. Only the PUT/POST choice is modelled.
- JavaScript prototype keys (`acc["constructor"]` and the like) are not modelled in the counters.
- Object key order is insertion order for every key. JavaScript lists integer-like keys first.
- SubmitForm.Draftable: when employeeName or ideaTitle holds a list (a multi-select of that name), the source's `isDraftable` throws a TypeError during render, since arrays have no `.trim`; the model answers "not draftable" instead.
- SubmitForm.FinishSubmit: when the 100th UTF-16 code unit of a body that is not JSON falls inside a surrogate pair, `substring` keeps a lone high surrogate, which a Dafny string cannot hold; the model's cut (`Text.Utf16Prefix`) stops before that character.
- SignupEndpoint.Signup: the duplicate-email test (`SignupEndpoint.Taken`) folds ASCII letters only. MySQL's default `utf8mb4` collation also equates accented and other non-ASCII letters with their base letters. An email over the column's 255 characters fails the INSERT with a data error, answered 500, which the model does not have.
- Text.Trim: U+FEFF is whitespace to JavaScript's `trim` only, and U+001C to U+001F and U+0085 are whitespace to Python's `strip` only. The model removes just the characters both remove.
- ConfigEditor.SplitOptions: a piece made only of U+FEFF is kept as it is, where JavaScript's `trim` empties it (see Text.Trim).
- SubmitForm.Submittable: a value made only of U+FEFF counts as filled, where JavaScript's `trim` makes it blank (see Text.Trim).
- SignupEndpoint.PasswordError: the server and the form agree only on passwords within the Basic Multilingual Plane. The form counts UTF-16 code units and the server counts characters, so beyond that plane the server is stricter (`SignupEndpoint.EmojiPasswordSplitsRules`).
- CrossChecks.CorrectedSignupAccepted: for the same reason, a password the form accepts is created only when it has at least 8 characters.

## Findings

| source | as written | input that shows it | evidently intended | confidence | as-written member | corrected member |
|---|---|---|---|---|---|---|
| static/js/context/AuthContext.js:139-143 | the sign-up body has email, fullName, phone, password and confirmPassword but no `otp`, while app.py:335-339 rejects a body without one | any form the browser accepts, e.g. a@adventz.com, 1234567890, Passw0rd1 twice | the OTP the user received is sent with the form | not executed | CrossChecks.ClientSignupAlwaysRejected | CrossChecks.CorrectedSignupAccepted |
| static/js/pages/AdminConfig.js:133-136 | the options box calls `field.options.join(', ')` for every dropdown or radio field, but the default text fields have no `options`, so switching one to "dropdown" throws | the "Employee Name" field of the default form set to type dropdown | a missing list is shown as an empty box | not executed | ConfigEditor.DefaultTextFieldToDropdownThrows | ConfigEditor.OptionsBoxRoundTrip |
| static/js/pages/AdminDashboard.js:400-401 | only the title is quoted in the CSV, so a comma in another value adds a column | submitter "Doe, Jane" gives 8 fields under the 7-column header | every value is quoted | not executed | Csv.CommaInNameShiftsColumns | Csv.RowRoundTrip |
| app.py:502-511 | `delete_user` deletes the user's notifications, comments and ideas and then the user, but leaves reactions and other users' rows on the user's ideas, which the schema's foreign keys (app.py:116-156) refuse to orphan; the request fails with 500 and nothing is deleted | user 2 owns idea 10 and admin 1 has liked it; admin 1 deletes user 2 | the user goes with everything that depends on them, as the endpoint's own comment says ("delete their ideas too to maintain integrity") | not executed; assumes the default InnoDB foreign keys (RESTRICT) | UserAdmin.DeleteOfReactedIdeaOwnerFails | UserAdmin.DeleteUserCascade |
