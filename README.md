# Mess-Management backend rules in Dafny

This project models the rule layer of the Mess-Management backend. That backend is an
Express/Mongoose server for a hostel mess: students vote in polls, file complaints and rate
meals, and secretaries publish menus and notices and manage who may register. Each handler
runs a short sequence of guards (caller role, existence, ownership, duplicates, schema
validation) and then makes one small change to a document collection. The model keeps
exactly those guards, their order, their status codes and messages, and that change.

Layout:

- **Record shapes and value domains** come from the schema files:
  - `PollModel` models `Poll.js`;
  - `ComplaintModel` models `Complaint.js`;
  - `FeedbackModel` models `Feedback.js`;
  - `Users` models `User.js`;
  - `AllowedEmails` models `AllowedEmail.js`;
  - `Menus` models `Menu.js`.
  - Each schema becomes datatypes, with enums as datatypes and parse functions that say which texts pass validation at save.
- **Pure decisions and queries** of each controller are functions and lemmas:
  - `Polls`: resolve option texts, count a ballot, the outcome of a vote, the poll invariant;
  - `Complaints`: the role checks on status updates, the reply author, the listings;
  - `Feedbacks`: the "already today" window, the one-per-day invariant, the listings;
  - `Menus` and `Notices`: the sorted listings;
  - `Auth`: login;
  - `Middleware`: the two secretary gates;
  - `Ordering`: the `sort({ field: -1 })` and `limit(n)` steps.
- **Collections that handlers change** are classes:
  - `PollController.PollCollection`, `ComplaintController.ComplaintCollection`, `FeedbackController.FeedbackCollection`, `AllowedEmailsRoute.AllowList`, `MenuController.MenuCollection`, `NoticeController.NoticeCollection` and `AuthRoute.Accounts`.
  - Each class holds its collection as a `seq` field.
  - Where the documents have ids, the class also holds the next id: polls, complaints, allow-list entries, menus and accounts. Feedback records and notices are never looked up by id, so their classes have no counter.
  - Each handler is a method whose `ensures` gives the response for every guard and the new collection on the success path. It also states that nothing changes otherwise.
  - Every class except `NoticeCollection` has a `Valid()` invariant that its handlers keep:
    - ids strictly increasing below the counter;
    - poll tallies agreeing with the voter ledger;
    - one feedback per student, meal and day, with every rating in range;
    - unique allow-list emails and unique account emails.
  - The notice log has no invariant to keep.
  - Handlers that read the accounts take them as a read-only `seq<User>` parameter.
  - E-mails a handler sends are returned as a `seq<Mail>` of (recipient, subject) beside the response.
- `votePoll`'s two loops are the methods `Polls.ResolveOptions` and `Polls.IncrementVotes`. They are proved against the definitions `Polls.Resolve` and `Polls.Tally`.
- `requireSecretary` is a method on a `Middleware.Request` object, because it assigns `req.user`.

Conventions:

- Time is an integer count of milliseconds. The server's local offset from UTC is the constant `tz` of the feedback collection, and the local day of an instant is `(t + tz) / 86400000`.
- Where documents have ids, the ids are natural numbers drawn from a per-collection counter. They are strictly increasing in each collection and never reused.
- Missing request fields are modelled where a handler tests them:
  - an empty string stands for a missing or empty text;
  - `Option` stands for a value that may be absent.
- Some decisions are predicates that the handler contracts use directly. They carry no contract of their own:
  - `Feedbacks.MissingFields` is the falsy test `!mealType || !rating` of `Backend/controllers/feedbackController.js:11`: an empty meal type, no rating, or the rating 0;
  - `PollController.PollSaves` is what the Poll schema demands at save: a question, non-empty option texts, and a poll type in the enum (`Backend/models/Poll.js:4-18`).
- Mongoose rejects an empty string in a `required` String at save. A `required` failure, an enum failure or a reference to `user.role` with no account each answer 500 `Server error`, as the handlers' `catch` blocks do.

## Model

| member | source | states |
|---|---|---|
| PollModel.ParsePollType | Backend/models/Poll.js:8-12 | `pollType` defaults to `single` when absent; exactly `single` and `multiple` are accepted |
| Polls.NewOptions | Backend/controllers/pollController.js:20 | the option list keeps the texts in order, each with 0 votes |
| Polls.NewPollWellFormed | Backend/controllers/pollController.js:17-23 | a newly created poll satisfies the poll invariant (vote-once, indices in range, each counter equals its ballots, total votes equal total selections) |
| Polls.ZeroVotesTotal | Backend/models/Poll.js:13-18 | options whose counters are all 0 have total 0 |
| Polls.Texts | Backend/controllers/pollController.js:71 | a single selected value is treated as a one-element list; a list is taken as is |
| Polls.HasVoted | Backend/controllers/pollController.js:65 | true exactly when some ledger entry is the caller's |
| Polls.FindOption | Backend/controllers/pollController.js:76 | returns the FIRST option with exactly that text, and none exactly when no option has it |
| Polls.Resolve | Backend/controllers/pollController.js:74-81 | resolution succeeds iff every text names an option, giving their indices in order; otherwise it names the first unmatched text, all earlier texts having matched |
| Polls.ResolvedInRange | Backend/controllers/pollController.js:74-81 | every resolved index names an existing option |
| Polls.UnknownIsFinal | Backend/controllers/pollController.js:77-79 | once a prefix of the texts fails, the whole list fails on the same text; the loop may stop there |
| Polls.ResolveOptions | Backend/controllers/pollController.js:74-81 | the resolution loop, with its early 400 return, computes `Resolve` |
| Polls.Tally | Backend/controllers/pollController.js:84-86 | each counter grows by the number of times its index occurs in the ballot; texts stay; the total grows by the ballot length |
| Polls.BumpTotal | Backend/controllers/pollController.js:85 | one `votes += 1` raises the total by one |
| Polls.IncrementVotes | Backend/controllers/pollController.js:84-86 | the in-place increment loop computes `Tally` |
| Polls.Vote | Backend/controllers/pollController.js:65-93 | a caller already in the ledger is refused; otherwise the vote succeeds iff every selected text names an option; a refused text is the FIRST text naming no option, as `Resolve` returns it; success keeps the option count and appends exactly one ledger entry for the caller with one index per text |
| Polls.CastVote | Backend/controllers/pollController.js:64-93 | the duplicate check, resolution loop, increment loop and ledger push compute `Vote` |
| Polls.BallotsAppend | Backend/controllers/pollController.js:89-93 | a new ledger entry adds its own occurrences of each index to the ledger's ballots |
| Polls.SelectionsAppend | Backend/controllers/pollController.js:89-93 | a new ledger entry adds its length to the total recorded selections |
| Polls.BallotKeepsWellFormed | Backend/controllers/pollController.js:84-93 | counting a new voter's in-range ballot and appending it keeps the poll invariant |
| Polls.VoteKeepsWellFormed | Backend/controllers/pollController.js:65-93 | a successful vote keeps vote-once and total votes == total recorded selections |
| Polls.VoteCountsEachSelection | Backend/controllers/pollController.js:84-93 | after a vote, option j has its old text and old votes plus the occurrences of j in the resolved ballot; the ledger is the old one plus one entry (caller, indices, time) |
| Polls.SecondVoteRefused | Backend/controllers/pollController.js:65-68 | after a recorded vote the same user is refused, whatever they select |
| Polls.VoteIgnoresTypeAndExpiry | Backend/controllers/pollController.js:71-93 | `pollType` and `expiresAt` do not affect the vote outcome |
| Polls.SinglePollScenario | Backend/controllers/pollController.js:71-93 | a `single` poll with options A, B voted "B" lists A:0, B:1 with one ledger entry, and a second voter's two-option ballot is accepted |
| Polls.ListPolls | Backend/controllers/pollController.js:38-44 | every poll is listed, in order, with its options as `{ text, votes }` |
| PollController.PollsOkReplace | Backend/controllers/pollController.js:95 | replacing a poll by a well-formed one with the same id keeps the collection invariant |
| PollController.VoteKeepsPollsOk | Backend/controllers/pollController.js:84-95 | saving a voted poll keeps the collection invariant |
| PollController.PollCollection.CreatePoll | Backend/controllers/pollController.js:6-31 | no account answers 500; a student gets 403; a missing options list or a document the schema refuses answers 500; otherwise 201 and exactly the new poll (ordered zero-vote options, caller as creator, default type) is appended |
| PollController.PollCollection.VotePoll | Backend/controllers/pollController.js:54-105 | unknown poll 404; already voted 400; unknown text 400 naming it, nothing changed; success 200 and only that poll replaced by the counted one; invariant kept |
| PollController.PollCollection.DeletePoll | Backend/controllers/pollController.js:109-135 | role 403, then missing 404, then non-creator 403; 200 iff the caller is the secretary who created it, and then exactly that poll is removed |
| ComplaintModel.StatusOf | Backend/models/Complaint.js:16-20 | `pending` and `resolved` denote the two enum values; any other text is kept as it is |
| Complaints.TrimStart | Backend/controllers/complaintController.js:111 | a suffix of the text that does not start with whitespace (ECMAScript WhiteSpace and LineTerminator); empty iff the text is all whitespace |
| Complaints.TrimStartDropsWhitespace | Backend/controllers/complaintController.js:111 | every character that the leading trim drops is whitespace |
| Complaints.TrimEnd | Backend/controllers/complaintController.js:111 | a prefix of the text that does not end with whitespace; empty iff the text is all whitespace |
| Complaints.TrimEndDropsWhitespace | Backend/controllers/complaintController.js:111 | every character that the trailing trim drops is whitespace |
| Complaints.Trim | Backend/controllers/complaintController.js:111 | `trim()` neither starts nor ends with whitespace, and is empty exactly when the text is all whitespace |
| Complaints.BlankIffWhitespace | Backend/controllers/complaintController.js:111 | `!message \|\| message.trim() === ''` holds exactly when the message is empty or all whitespace |
| Complaints.ReplyFrom | Backend/controllers/complaintController.js:121-131 | a secretary's reply carries `secretaryId`, a student's `studentId`, never both; message and time as given |
| Complaints.StatusCheck | Backend/controllers/complaintController.js:80-85 | the update passes iff the caller is a secretary, or is the owner asking for anything but `pending`; a non-owner student gets 403 "own complaints", an owner asking `pending` gets 403 "only mark as resolved" |
| Complaints.WithStatus | Backend/controllers/complaintController.js:87-90 | the stored status is the requested one; `resolvedAt` is `now` exactly when it is `resolved`, cleared otherwise; nothing else changes |
| Complaints.TransitionTable | Backend/controllers/complaintController.js:80-90 | the owner may resolve, which stamps `resolvedAt`; a student may never ask `pending`; a secretary may reopen, which clears it; another student cannot resolve |
| Complaints.AllComplaints | Backend/controllers/complaintController.js:38-50 | listed iff the caller is a secretary, and then every complaint; a student gets 403; no account gives 500 |
| Complaints.OwnedBy | Backend/controllers/complaintController.js:56 | exactly the complaints of that student, each as many times as it is stored, and no other |
| Complaints.MyComplaints | Backend/controllers/complaintController.js:54-63 | exactly the caller's complaints, as a permutation of them, newest first |
| ComplaintController.ComplaintCollection.SubmitComplaint | Backend/controllers/complaintController.js:7-34 | empty text 500 and nothing stored; otherwise a pending, reply-less complaint owned by the caller is appended; the first secretary gets a "New Complaint Received" mail; with a secretary but no caller account the stored complaint is answered 500 |
| ComplaintController.ComplaintCollection.UpdateComplaintStatus | Backend/controllers/complaintController.js:67-97 | missing 404, then no account 500, then the role checks' 403s; 200 iff they pass, and then only that complaint gets `WithStatus` |
| ComplaintController.ComplaintCollection.AddReply | Backend/controllers/complaintController.js:101-153 | no account 500, blank message 400 (before existence), missing 404; a complaint whose stored status is outside the enum fails the save with 500, storing and mailing nothing; otherwise 200, exactly one reply appended to that complaint's thread, nothing else changed, and a secretary's reply mails the owner |
| FeedbackModel.ParseMeal | Backend/models/Feedback.js:9-13 | exactly `breakfast`, `lunch` and `dinner` are accepted, each mapping back to its text |
| FeedbackModel.MealNameInjective | Backend/models/Feedback.js:9-13 | distinct meal types have distinct stored texts |
| Feedbacks.StartOfDay | Backend/controllers/feedbackController.js:16-17 | the first instant of the local day of `now`: on that day, and the instant before it is on the previous day |
| Feedbacks.EndOfDay | Backend/controllers/feedbackController.js:18-19 | the last instant of the local day of `now`: on that day, and the instant after it is on the next day |
| Feedbacks.TodayWindowIsLocalDay | Backend/controllers/feedbackController.js:16-19 | an instant is in [local midnight, 23:59:59.999] of `now` iff it falls on the same local day |
| Feedbacks.RatedToday | Backend/controllers/feedbackController.js:21-25 | the duplicate query finds something iff some record of the student has that meal type and falls on today's local day |
| Feedbacks.InsertKeepsOnePerDay | Backend/controllers/feedbackController.js:21-37 | inserting after the query found nothing keeps one record per (student, meal, day) |
| Feedbacks.OnlySameMealSameDayBlocks | Backend/controllers/feedbackController.js:21-25 | records for another meal, or the same meal on another day, do not block |
| Feedbacks.OfMeal | Backend/controllers/feedbackController.js:67 | exactly the records with that meal type, each as many times as it is stored, and no other |
| Feedbacks.FeedbackByMealType | Backend/controllers/feedbackController.js:59-72 | listed iff the caller is a secretary, and then exactly that meal's records; a student gets 403; no account gives 500 |
| Feedbacks.ByMealIsPartOfAll | Backend/controllers/feedbackController.js:47-67 | the meal-type listing is exactly the part of the ungated full listing with that meal type |
| FeedbackController.FeedbackCollection.SubmitFeedback | Backend/controllers/feedbackController.js:6-43 | missing meal or falsy rating 400; same student, meal and day 409; unknown meal or rating outside 1..5 500; otherwise 201 and exactly one record (caller, meal, rating, description, now) appended; one-per-day and ratings-in-range kept |
| AllowedEmails.AddKeepsUnique | Backend/routes/allowedEmailsRoutes.js:23-27 | adding an unlisted email keeps emails unique, and it is listed afterwards |
| AllowedEmails.RemoveKeepsUnique | Backend/routes/allowedEmailsRoutes.js:36 | removing an entry keeps emails unique, and its email is no longer listed |
| AllowedEmailsRoute.AllowList.Add | Backend/routes/allowedEmailsRoutes.js:18-31 | the secretary gate's answer first; no email 400; a listed email 409; 201 iff neither, and then exactly that entry is appended; set unchanged otherwise |
| AllowedEmailsRoute.AllowList.Remove | Backend/routes/allowedEmailsRoutes.js:34-42 | the gate first; unknown id 404; 200 iff the id is listed, and then only that entry is removed |
| Menus.LatestMenus | Backend/controllers/menuController.js:45-52 | at most ten stored menus, in non-increasing date order, and no menu left out is later than one returned |
| Menus.WithMeals | Backend/controllers/menuController.js:66-70 | the three lists and `updatedAt` are replaced; id, date, author and creation time stay |
| MenuController.MenuCollection.CreateMenu | Backend/controllers/menuController.js:7-41 | no account 500; a student gets 403; a missing date 500; otherwise 201, exactly the new menu (caller as author) appended, and a "Menu Updated" mail to every student |
| MenuController.MenuCollection.UpdateMenu | Backend/controllers/menuController.js:56-91 | role 403, unknown id 404 with nothing changed; on 200 only that menu gets `WithMeals` and every student is mailed |
| Notices.NoticesNewestFirst | Backend/controllers/noticeController.js:38-45 | every notice, as a permutation of the log, newest first |
| Notices.CreatedNoticeIsListed | Backend/controllers/noticeController.js:16-40 | a notice just appended is listed, and when no logged notice is later it heads the listing (up to a tie in time) |
| NoticeController.NoticeCollection.CreateNotice | Backend/controllers/noticeController.js:7-34 | no account 500; a student gets 403; otherwise 201 regardless of the broadcast, exactly one notice (title, message, caller) appended, and it appears in the listing; "Notice: title" goes to every student |
| Users.ParseRole | Backend/models/User.js:18-22 | exactly `student` and `secretary` are accepted, each mapping back to its text |
| Users.Utf8Char | Backend/models/User.js:38-40 | a character encodes to 1 to 4 bytes, and to one byte exactly when it is ASCII |
| Users.Utf8 | Backend/models/User.js:38-40 | a string encodes to between one and four bytes per character |
| Users.Schedule | Backend/models/User.js:38-40 | bcrypt's key schedule reads 72 bytes of a byte string: the string and one NUL byte, repeated cyclically |
| Users.PasswordKey | Backend/models/User.js:28-40 | the password's UTF-8 bytes and one NUL byte, repeated cyclically to 72 bytes |
| Users.LongPasswordKey | Backend/models/User.js:28-40 | a password of at least 72 UTF-8 bytes is read as exactly its first 72 bytes |
| Users.CyclicKeysDiffer | Backend/models/User.js:38-40 | different zero-free byte strings shorter than 72 bytes have different schedules |
| Users.ShortKeysDiffer | Backend/models/User.js:28-40 | two passwords without U+0000 whose encodings differ and are shorter than 72 bytes are read differently |
| Users.NulPasswordCollides | Backend/models/User.js:28-40 | with an embedded U+0000 the key is not exact: "a" and "a\u0000a" are read the same |
| Users.MatchIffSameKey | Backend/models/User.js:28-40 | a stored hash accepts exactly the passwords that bcrypt's key schedule reads the same way, and always its own password |
| Users.LongPasswordsShareKey | Backend/models/User.js:28-40 | two passwords of at least 72 bytes that agree on those bytes are accepted for each other |
| Users.FindUser | Backend/middleware/secretaryMiddleware.js:10 | the account with that id, or none when no account has it |
| Users.FindByEmail | Backend/routes/authRoutes.js:26 | an account with that email, or none when no account has it |
| Users.CallerRole | Backend/controllers/pollController.js:11 | a role exactly when the caller has an account, and then that account's role |
| Users.StudentEmails | Backend/controllers/menuController.js:27-28 | one email per student account: each email occurs as often as there are student accounts with it, and no other email occurs |
| Auth.Login | Backend/routes/authRoutes.js:62-97 | empty email or password 400; an unknown email and a wrong password give the same 400 "Invalid credentials"; success is 200 with the token and view of an account with that email whose credential matches |
| Auth.LoginSucceedsIffCredentialsMatch | Backend/routes/authRoutes.js:72-81 | with unique emails, login succeeds iff some account has the email and a matching credential |
| Auth.LoginAfterRegister | Backend/routes/authRoutes.js:32-93 | after registering, logging in with the same email and password returns that account's id, name, email and role |
| Auth.WrongPasswordAfterRegister | Backend/routes/authRoutes.js:78-81 | after registering, a password that bcrypt reads differently from the registered one is refused as "Invalid credentials" |
| Auth.SameKeyAcceptedAfterRegister | Backend/routes/authRoutes.js:78-93 | after registering, a different password that bcrypt reads the same way logs in as that account |
| AuthRoute.Accounts.Register | Backend/routes/authRoutes.js:17-57 | a missing field 400; a used email 400 "User already exists"; a role outside the enum 500; otherwise 201, exactly one account appended, and its id, name, email and role returned; emails stay unique |
| Middleware.SecretaryGate | Backend/middleware/secretaryMiddleware.js:3-22 | no id 401; no account 401 "User not found"; a student 403; passes iff the caller is a secretary |
| Middleware.RequireSecretaryGate | Backend/middleware/roleMiddleware.js:3-14 | no id or no account 401; a student 403 "Forbidden"; passes iff the caller is a secretary |
| Middleware.GatesAgreeOnStatus | Backend/middleware/roleMiddleware.js:5-8 | both gates let the same requests through and refuse the others with the same status |
| Middleware.Request.RequireSecretary | Backend/middleware/roleMiddleware.js:5-10 | decides as `RequireSecretaryGate`; on pass `req.user` is the secretary's record, otherwise it is untouched |
| Ordering.InsertDesc | Backend/controllers/noticeController.js:40 | inserting into a newest-first sequence keeps it sorted and adds exactly that element |
| Ordering.SortDesc | Backend/controllers/complaintController.js:58 | `sort({ field: -1 })`: a permutation in non-increasing key order |
| Ordering.Take | Backend/controllers/menuController.js:47 | `limit(n)`: the first n elements, or all when fewer |
| Ordering.PrefixDominates | Backend/controllers/menuController.js:47 | the prefix a limit keeps of a sorted sequence dominates everything it leaves out |
| Common.IndexOf | Backend/controllers/pollController.js:59 | the first position with that key, and none exactly when no element has it |
| Common.IdLookupIsExact | Backend/controllers/pollController.js:59 | with strictly increasing ids, looking up a stored document's id finds that document |
| Common.RemoveAt | Backend/controllers/pollController.js:129 | removes exactly the element at that position and keeps the order of the others |
| Common.IdsOrderedRemove | Backend/routes/allowedEmailsRoutes.js:36 | removing a document keeps ids strictly increasing and below the counter |
| Common.MailsTo | Backend/utils/emailService.js:73-75 | one mail per recipient, in order, all with the same subject |

## Left out

- Menus: the menu is a list of dated menus, `Menu.js` as written, not a weekly grid. The item lists are taken as given; a request without them would make the notification's `.join` throw, and that is not modelled.
- AuthRoute.Accounts.Register: a duplicate registration answers 400, as the code does, not 409. The 500 for a role outside the enum is modelled, but other save failures are not.
- NoticeController.NoticeCollection.CreateNotice: `Notice.js` is not part of this model, so a notice save always succeeds and no field of it is validated.
- Password hashing (bcrypt) is replaced by a credential that keeps what bcrypt's compare depends on: the 72 bytes its key schedule reads (the UTF-8 bytes of the password and a NUL byte, repeated cyclically). The salt, the cost factor and the hash function itself are not modelled, so hash collisions are not modelled either.
- The JWT token is replaced by a value that carries the account id. The signature and the 30-day expiry are not modelled.
- E-mail delivery (SMTP through nodemailer) is not modelled: a handler returns the (recipient, subject) pairs it would send. Mail bodies are not modelled. `sendEmail` swallows its own errors, so a mail cannot fail a request.
- The PDF menu export (`menuPdf.js`) is layout and streaming only and is not modelled.
- Concurrency is not modelled: handlers run one at a time, so the read-then-write races in voting and feedback deduplication do not arise.
- Time is integer milliseconds with a fixed local offset `tz`, so daylight-saving changes inside a day are not modelled.
- FeedbackController.FeedbackCollection.SubmitFeedback: ratings are integers; a fractional rating is not modelled.
- Ordering.SortDesc: MongoDB leaves the order of equal keys unspecified, and this definition fixes one order.
- `populate`, ObjectId casting and a malformed id that makes `findById` throw are not modelled; ids are natural numbers.
- ComplaintController.ComplaintCollection.UpdateComplaintStatus: a request without `status` is not modelled. Any status text is stored as given (`ComplaintModel.ComplaintStatus.Unlisted`), because `findByIdAndUpdate` runs no validators.
- ComplaintController.ComplaintCollection.AddReply: the 403 for a role other than student or secretary cannot arise, because the role enum has only those two values.
- ComplaintController.ComplaintCollection.SubmitComplaint: `findOne({ role: 'secretary' })` is modelled as the first secretary in insertion order.
- PollController.PollCollection.VotePoll: a request without `selectedOptions` is not modelled. In the source it becomes `[undefined]`, which no option text equals, so the answer is 400 "Invalid option: undefined"; a `Polls.Selection` is always a text or a list of texts.
- PollController.PollCollection.VotePoll: an empty selection list is accepted and records an empty ballot, as the code does. `expiresAt` is stored but never checked, as in the code.
- AllowedEmailsRoute.AllowList.Add: the 201 body is the saved entry, which the model returns in the collection rather than in the response's message.
- GET /feedback and GET /allowed-emails return the whole collection; they are the identity functions `Feedbacks.AllFeedback` and `AllowedEmails.ListAllowed` and carry no contract of their own.
- The authentication middleware is not part of this model. The caller id it attaches is a parameter, optional where the gates test it.
- The Frontend, `index.js` and the route tables are wiring and UI and are not modelled.
