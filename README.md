# Technician ticketing system, modelled in Dafny

The system is a small PHP web application for repair technicians. A
technician signs up and signs in. They look up a device by its serial
number, registering it first when it is unknown. They then open a ticket
for it, record the parts used on the ticket, and close it with
post-service feedback. The dashboard lists the technician's own tickets,
latest first, with each one's device and feedback status.

The database has five tables:

- technicians
- devices
- tickets (each has one device and one technician)
- part usage rows (each belongs to a ticket)
- feedback rows (each belongs to a ticket and its technician)

The model follows the nine pages, one module per page:

| module | page |
|---|---|
| `LoginPage` | `index.php` |
| `SignupPage` | `signup.php` |
| `DashboardPage` | `dashboard.php` |
| `DeviceCheckPage` | `device_check.php` |
| `DeviceRegisterPage` | `device_register.php` |
| `CreateTicketPage` | `create_ticket.php` |
| `WorkTicketPage` | `work_ticket.php` |
| `PartUsagePage` | `part_usage.php` |
| `ServiceFeedbackPage` | `service_feedback.php` |

Four shared modules sit underneath the pages:

- **`Php`**: the PHP behaviour the pages rely on, namely `trim`, `??` on request fields, the falsy test on a GET id, and `is_numeric` with the numeric comparison.
- **`Schema`**: the five tables as a value `Db`, the lookups the pages' SQL performs, the row inserts with auto-increment ids, and the integrity invariant `Valid`.
- **`Query`**: filtering, `ORDER BY … DESC`, and the fetch loop.
- **`Storage`**: a `Store` class whose fields are the tables. Its insert methods update them in place.

A page that writes is written in two parts:

- a pure `Step` function from the tables, the session and the request to the response and the new tables;
- an imperative `Handle` method on the `Store`, following the PHP statement by statement, whose postcondition is that it does exactly what `Step` says.

A read-only page has a `Page`, `Check` or `Login` function and a `Handle` that changes nothing.

The lemmas state what each page promises:

- a rejected form writes nothing and is shown again with its messages;
- an accepted form appends exactly one row and touches no other table;
- a ticket that is not the technician's is treated like a missing one;
- every request keeps the database's integrity invariant.

`Lifecycle` puts the pages together. Any sequence of requests keeps the invariant and only adds rows. A ticket goes from open, to parts recorded, to closed, and never back. A device just registered is found by the device check. An account just created can sign in.

Three things are parameters of the page functions:

- the PHP functions `password_hash`, `password_verify` and `filter_var(…, FILTER_VALIDATE_EMAIL)`;
- the current date;
- the session, which the caller passes in (only the sign-in page returns a new one).

## Model

| member | source | states |
|---|---|---|
| Php.TrimEmptyIff | device_check.php:14-16 | a trimmed field is empty exactly when every character of the field is one of PHP's trim characters |
| Php.TrimIsTrimmed | signup.php:21-23 | the result of `trim` neither starts nor ends with a trim character |
| Php.TrimOfTrimmed | signup.php:21-23 | trimming a field that is already trimmed leaves it unchanged |
| Php.TrimIdempotent | signup.php:21-23 | trimming twice gives the same text as trimming once |
| Php.Trim | signup.php:21-23 | the result is a contiguous piece of the field: only trim characters are cut, from its start and from its end |
| Php.ParseNumber | part_usage.php:50-55 | the empty string is not numeric, and only a string starting with a minus sign gives a negative number |
| Php.ParseNatRoundTrip | part_usage.php:50-51 | the decimal digits of any natural number are numeric and parse back to that number |
| Php.ParseNegativeRoundTrip | part_usage.php:54-55 | a minus sign followed by the digits of n parses to -n, so such a cost is refused |
| Query.FindFirst | device_check.php:22-28 | returns the first row satisfying the WHERE condition, or none exactly when no row satisfies it |
| Query.Filter | dashboard.php:28 | every row kept satisfies the condition and comes from the table, and every row of the table that satisfies it is kept |
| Query.FilterCount | work_ticket.php:43 | each row occurs in the result as often as it occurs in the table when it satisfies the condition, and not at all otherwise |
| Query.SortDesc | work_ticket.php:43 | the result is ordered by date, latest first, and holds exactly the input rows with their multiplicities |
| Query.FetchAll | work_ticket.php:48-50 | the fetch loop collects every row of the result, in order |
| Schema.TechnicianByEmail | index.php:22-27 | the account found has that e-mail and is in the table; nothing is found exactly when no account has that e-mail |
| Schema.TechnicianById | work_ticket.php:25 | the account found has that id; nothing is found exactly when no account has it |
| Schema.DeviceById | create_ticket.php:20-27 | the device found has that id; nothing is found exactly when no device has it |
| Schema.DeviceBySerial | device_register.php:34-42 | the device found has that serial number; nothing is found exactly when no device has it |
| Schema.OwnedTicket | part_usage.php:20-31 | the ticket found has that id and belongs to that technician; nothing is found exactly when no such ticket exists |
| Schema.PartsOf | work_ticket.php:43-52 | the ticket's part rows, latest date first, each as often as the table holds it |
| Schema.PartsOfExactly | work_ticket.php:43 | every row listed belongs to the ticket, and the list is empty exactly when the ticket has no parts |
| Schema.OwnedTicketIffOwns | part_usage.php:20-29 | the ownership query returns a row exactly when the ticket exists and is assigned to the technician |
| Schema.DeviceBySerialUnique | device_check.php:22-32 | with unique serial numbers, the lookup returns the single device registered under a serial |
| Schema.TechnicianByEmailUnique | index.php:22-31 | with unique e-mails, the lookup returns the single account registered under an e-mail |
| Schema.AddTechnicianValid | signup.php:59-75 | inserting an account with an unused e-mail keeps the invariant and only appends |
| Schema.AddDeviceValid | device_register.php:47-63 | inserting a device with an unused serial number keeps the invariant and only appends |
| Schema.AddTicketValid | create_ticket.php:50-64 | inserting a ticket for an existing device keeps the invariant and only appends |
| Schema.AddPartValid | part_usage.php:58-70 | inserting a part row for an existing ticket, with quantity at least 1 and cost at least 0, keeps the invariant |
| Schema.AddFeedbackValid | service_feedback.php:52-73 | inserting feedback by the ticket's owner on a ticket without feedback keeps the invariant |
| Storage.Store.InsertTechnician | signup.php:61-75 | the tables afterwards are the old ones plus one account with the next id, which is returned |
| Storage.Store.InsertDevice | device_register.php:48-59 | the device table gains one row with the next id, which is returned; nothing else changes |
| Storage.Store.InsertTicket | create_ticket.php:51-62 | the ticket table gains one row with the next id, which is returned; nothing else changes |
| Storage.Store.InsertPart | part_usage.php:59-69 | the part table gains one row with the next id; nothing else changes |
| Storage.Store.InsertFeedback | service_feedback.php:62-72 | the feedback table gains one row with the next id; nothing else changes |
| Schema.AddTechnician | signup.php:61-75 | the account table gains one row at its end with the returned id, the counter moves past that id, and no other table changes; with the ids below the counters the returned id is above every existing one, and the ids stay valid |
| Schema.AddDevice | device_register.php:48-59 | the device table gains one row at its end with the returned id, the counter moves past that id, and no other table changes; with the ids below the counters the returned id is fresh and the ids stay valid |
| Schema.AddTicket | create_ticket.php:51-62 | the ticket table gains one row at its end with the returned id, the counter moves past that id, and no other table changes; with the ids below the counters the returned id is fresh and the ids stay valid |
| Schema.AddPart | part_usage.php:59-69 | the part table gains one row at its end with the next id, the counter moves past it, and no other table changes; with the ids below the counters that id is fresh and the ids stay valid |
| Schema.AddFeedback | service_feedback.php:62-72 | the feedback table gains one row at its end with the next id, the counter moves past it, and no other table changes; with the ids below the counters that id is fresh and the ids stay valid |
| LoginPage.Handle | index.php:5-42 | the handler's response and session are exactly those of the sign-in function, and it changes no table |
| LoginPage.Login | index.php:5-42 | a visitor already signed in is sent to the dashboard with the session unchanged; the session changes only on a POST, together with a redirect to the dashboard, and to an account that exists |
| LoginPage.BlankFieldsRejected | index.php:14-19 | a blank e-mail after trimming, or an empty password, is refused with the required-fields message and the e-mail kept, whatever the tables and the password check |
| LoginPage.SignInIff | index.php:13-35 | the session changes only on a POST from a signed-out visitor whose e-mail names an account and whose password the check accepts against that account's hash, and then to that account; every such POST signs in |
| LoginPage.SameMessageForUnknownAndWrong | index.php:30-37 | an unknown e-mail and a wrong password get the same message and the same session |
| LoginPage.SignsInRegisteredAccount | index.php:14-32 | with unique e-mails, the account signed in is the one registered under the trimmed e-mail, with its display name |
| SignupPage.FieldErrors | signup.php:27-41 | each of the four messages appears exactly when its own check fails, the duplicate-e-mail message never appears among them, and there are at most four |
| SignupPage.FieldErrorsEmptyIff | signup.php:27-43 | the field checks pass exactly when all four fields are filled, the e-mail is valid, and the password is at least 8 characters and confirmed |
| SignupPage.Validate | signup.php:27-41 | the messages collected by the handler are those of the field checks |
| SignupPage.Handle | signup.php:5-84 | the handler's response and new store are exactly those of the page function |
| SignupPage.Step | signup.php:5-84 | a visitor already signed in is sent to the dashboard and nothing is written; a write appends one account whose e-mail was unused, leaves every other table and counter as it was, and shows the success message with an empty form |
| SignupPage.InsertIffAccepted | signup.php:43-75 | a rejected request writes nothing; an accepted one appends exactly one account with the trimmed fields and the hashed password, and shows the success message with a cleared form |
| SignupPage.FieldErrorsHideDuplicate | signup.php:43-57 | with a field error, only the field errors are reported, even for an e-mail already taken |
| SignupPage.StoresHashOnly | signup.php:35-70 | an account is created only for a password of at least 8 characters, and it stores that password's hash |
| SignupPage.StepKeepsValid | signup.php:43-75 | every sign-up request keeps the integrity invariant and only appends |
| SignupPage.SecondSignupRejected | signup.php:44-52 | after an account is created, a second valid sign-up with the same e-mail is refused with the duplicate message and writes nothing |
| DeviceCheckPage.Check | device_check.php:5-8 | a visitor who is not signed in is sent to the sign-in page |
| DeviceCheckPage.Handle | device_check.php:5-43 | the handler's response is that of the check function; it changes nothing |
| DeviceCheckPage.BlankSerialRejected | device_check.php:14-18 | a serial made only of whitespace, or missing, is refused with its message |
| DeviceCheckPage.KnownSerialFindsDevice | device_check.php:22-33 | a registered serial, whatever whitespace surrounds it, leads to opening a ticket for that device |
| DeviceCheckPage.UnknownSerialRegisters | device_check.php:34-37 | an unknown serial leads to registering it, with the trimmed serial passed on |
| DeviceCheckPage.OutcomeCases | device_check.php:13-43 | a signed-in POST is one of three cases: a blank serial refused, a known device's ticket form, or registration of an unknown serial |
| DeviceRegisterPage.Errors | device_register.php:28-45 | no message exactly when all four fields are filled and the serial is unused; the required-fields message alone when a field is empty; the duplicate message alone when the serial is taken |
| DeviceRegisterPage.Handle | device_register.php:5-72 | the handler's response and new store are exactly those of the page function |
| DeviceRegisterPage.Step | device_register.php:5-72 | a visitor not signed in is sent to the sign-in page and nothing is written; a signed-in GET shows an empty form whose serial is the one from the query string as given, and writes nothing; a write appends one device whose serial was unused, leaves every other table and counter as it was, and redirects to open a ticket for it |
| DeviceRegisterPage.InsertIffAccepted | device_register.php:21-63 | a rejected request writes nothing; an accepted one appends exactly one device with the trimmed fields and goes on to open a ticket for it |
| DeviceRegisterPage.TakenSerialRejected | device_register.php:34-42 | a complete form with a serial already registered is refused with the duplicate message and writes nothing |
| DeviceRegisterPage.StepKeepsValid | device_register.php:21-71 | every registration request keeps the integrity invariant and only appends |
| DeviceRegisterPage.SecondRegistrationRejected | device_register.php:34-42 | registering the same serial a second time is refused and writes nothing |
| CreateTicketPage.Handle | create_ticket.php:5-74 | the handler's response and new store are exactly those of the page function |
| CreateTicketPage.Step | create_ticket.php:5-74 | a visitor not signed in is sent to the sign-in page; a missing or falsy device id, or one naming no device, sends a signed-in technician to the device check; neither writes; a write appends one ticket, owned by the signed-in technician and naming an existing device, leaves every other table and counter as it was, and redirects to its work page |
| CreateTicketPage.MissingDeviceRedirected | create_ticket.php:14-32 | a missing or falsy device id, or one naming no device, sends the technician back to the device check, and nothing is written |
| CreateTicketPage.InsertIffAccepted | create_ticket.php:40-64 | a rejected request writes nothing; an accepted one appends exactly one ticket, owned by the signed-in technician, and opens its work page |
| CreateTicketPage.IncompleteFormRejected | create_ticket.php:46-48 | a form missing the reporter or the issue is refused with its message, showing the device, and writes nothing |
| CreateTicketPage.StepKeepsValid | create_ticket.php:40-73 | every ticket request keeps the integrity invariant and only appends |
| WorkTicketPage.PanelFor | work_ticket.php:168-183 | the completed notice exactly when feedback exists; record-or-skip exactly without parts or feedback; the feedback button exactly with parts and no feedback |
| WorkTicketPage.Actions | work_ticket.php:168-183 | the completed block has no buttons, the other two have some, and every button carries the ticket's id |
| WorkTicketPage.TicketJoin | work_ticket.php:21-35 | a row found is the technician's own ticket, joined with its device and its technician from the tables |
| WorkTicketPage.Handle | work_ticket.php:5-65 | the handler's response is that of the page function; it changes nothing |
| WorkTicketPage.Page | work_ticket.php:5-65 | the visitor is sent to the sign-in page exactly when not signed in; a missing or falsy id sends a signed-in technician to the dashboard, and so does every other redirect; a page shown has no messages and shows the requested ticket from the table, owned by the signed-in technician |
| WorkTicketPage.NotOwnedRedirected | work_ticket.php:37-40 | a ticket that is not the technician's is answered like a missing one, with the dashboard |
| WorkTicketPage.ShownIff | work_ticket.php:21-40 | in a consistent database the page is shown exactly when the ticket is the technician's and the technician's row exists |
| WorkTicketPage.PartsShown | work_ticket.php:43-52 | the parts shown are exactly the ticket's part rows, latest first, and none exactly when it has no parts |
| WorkTicketPage.PanelFollowsTables | work_ticket.php:168-183 | the block and its buttons, with their captions, targets and `parts` answers, follow from whether parts and feedback exist |
| PartUsagePage.Errors | part_usage.php:46-56 | each of the three messages appears exactly when its own check fails, and no other message appears |
| PartUsagePage.ErrorsEmptyIffAcceptable | part_usage.php:46-58 | no message exactly when name and cost are filled, the quantity is numeric and at least 1, and the cost is numeric and not negative |
| PartUsagePage.EmptyCostGivesTwoErrors | part_usage.php:46-55 | an empty cost gets both the required-fields message and the invalid-cost message |
| PartUsagePage.Validate | part_usage.php:46-56 | the messages collected by the handler are those of the checks |
| PartUsagePage.RowFields | part_usage.php:61-66 | the row stores the number the cost parses to, which is not below 0, and the entered quantity with its fractional part dropped, which is at least 1 |
| PartUsagePage.Handle | part_usage.php:5-85 | the handler's response and new store are exactly those of the page function |
| PartUsagePage.Step | part_usage.php:5-85 | a visitor not signed in is sent to the sign-in page, and a missing or falsy ticket id sends a signed-in technician to the dashboard, and neither writes; a write appends one part row on the technician's own ticket, with quantity at least 1 and cost not below 0, leaves every other table and counter as it was, and shows the success message with a reset form |
| PartUsagePage.NonOwnerRedirected | part_usage.php:20-29 | a ticket that is not the technician's sends them to the dashboard, and nothing is written |
| PartUsagePage.InsertIffAccepted | part_usage.php:40-76 | a rejected request writes nothing; an accepted one appends exactly one part row, shows the success message and resets the form |
| PartUsagePage.RejectedFormKept | part_usage.php:40-57 | a refused form is shown again with what was entered and the messages of the checks that failed |
| PartUsagePage.StepKeepsValid | part_usage.php:40-85 | every part request keeps the integrity invariant and only appends |
| PartUsagePage.AcceptedStep | part_usage.php:58-69 | an accepted request's new tables are those of inserting the form's row |
| PartUsagePage.RepeatedSubmissionAppendsAgain | part_usage.php:58-76 | the page has no duplicate check: submitting the same form twice records two rows |
| ServiceFeedbackPage.Handle | service_feedback.php:5-83 | the handler's response and new store are exactly those of the page function |
| ServiceFeedbackPage.Step | service_feedback.php:5-83 | a visitor not signed in is sent to the sign-in page, and a missing or falsy ticket id sends a signed-in technician to the dashboard, and neither writes; a write appends one feedback row, with remarks, by the owner of a ticket that had no feedback, leaves every other table and counter as it was, and redirects to `dashboard.php?success=feedback`, a parameter the dashboard ignores |
| ServiceFeedbackPage.NonOwnerRedirected | service_feedback.php:20-29 | a ticket that is not the technician's sends them to the dashboard, and nothing is written |
| ServiceFeedbackPage.ClosedTicketUnchanged | service_feedback.php:33-52 | on a ticket with feedback, any request, POST or not, shows the completed state and writes nothing |
| ServiceFeedbackPage.BlankRemarksRejected | service_feedback.php:53-59 | blank remarks are refused with their message, the form is shown again, and nothing is written |
| ServiceFeedbackPage.InsertIffAccepted | service_feedback.php:52-73 | a rejected request writes nothing and an owner sees the page; an accepted one appends exactly one feedback row with the trimmed fields and redirects to `dashboard.php?success=feedback`, a parameter the dashboard ignores |
| ServiceFeedbackPage.PartsParamOnlyBanner | service_feedback.php:11 | the `parts` answer changes neither what is written nor where a redirect leads; a rendered page has the same messages and the same view apart from the banner, which follows the `parts` answer |
| ServiceFeedbackPage.StepKeepsValid | service_feedback.php:52-83 | every feedback request keeps the integrity invariant, including at most one feedback per ticket, and only appends |
| ServiceFeedbackPage.SecondSubmissionRejected | service_feedback.php:33-52 | once feedback is saved, the ticket has feedback and no later request writes to the tables |
| DashboardPage.RowsOf | dashboard.php:15-27 | a ticket yields at least one row, each with the ticket's id, reporter, issue and date and with its device's serial, model, location and OS, or no device columns when the device is missing; a ticket without feedback yields one row with "Pending", and otherwise every row's status is that of one of the ticket's feedback rows |
| DashboardPage.StatusOf | dashboard.php:24 | a ticket without feedback has the status "Pending", and a ticket with feedback has the status of one of its feedback rows |
| DashboardPage.Shown | dashboard.php:107-108 | a column present is shown as it is, one missing as "N/A" |
| DashboardPage.DeviceShown | dashboard.php:106-108 | a listed row of a ticket whose device is missing shows "N/A" for model and serial; one whose device exists shows that device's model and serial |
| DashboardPage.StatusColors | dashboard.php:115-122 | the four known statuses get their colours, and any other status, "Resolved" among them, gets the neutral colour |
| DashboardPage.Handle | dashboard.php:5-40 | the handler's response is that of the page function; it changes nothing |
| DashboardPage.Page | dashboard.php:5-40 | the visitor is sent to the sign-in page exactly when not signed in; otherwise the page has no messages and its rows are ordered by date, latest first |
| DashboardPage.Joined | dashboard.php:25-27 | every ticket yields at least one row, so the join never has fewer rows than tickets, and it is empty exactly when there are no tickets |
| DashboardPage.AssignedTo | dashboard.php:28 | every ticket kept is in the table and assigned to the technician, and every ticket of the table assigned to the technician is kept |
| DashboardPage.Listing | dashboard.php:14-30 | the rows are ordered by date, latest first, are exactly the rows of the join with their multiplicities, and are none exactly when the technician has no tickets; with at most one feedback per ticket there is one row per ticket of the technician |
| DashboardPage.StatusColor | dashboard.php:115-122 | the badge is one of the four colours, and it is the neutral one exactly when the status is none of the four known ones |
| DashboardPage.ListedRowIsJoined | dashboard.php:25-37 | every listed row is one of the joined rows |
| DashboardPage.ListedRowOwned | dashboard.php:28 | every listed row comes from one of the technician's tickets, with its date |
| DashboardPage.OwnTicketListed | dashboard.php:25-28 | every ticket of the technician is listed, with or without a device |
| DashboardPage.ListingIsOwnTickets | dashboard.php:14-40 | the listing is ordered by date, latest first, and lists the technician's tickets and no others |
| DashboardPage.RowsOfSingle | dashboard.php:27 | with at most one feedback per ticket, a ticket yields exactly one row, whose status is its feedback's or "Pending" |
| DashboardPage.JoinedLength | dashboard.php:25-27 | with at most one feedback per ticket, the join yields one row per ticket |
| DashboardPage.JoinedAt | dashboard.php:25-27 | with at most one feedback per ticket, the join's m-th row is that of the m-th ticket |
| DashboardPage.ListedRowUnderValid | dashboard.php:15-28 | in a consistent database every listed row is that of one of the technician's tickets: its id, reporter, issue, date and status, and the serial, model, location and OS of the ticket's own device, which exists |
| DashboardPage.ListingUnderValid | dashboard.php:14-30 | in a consistent database the listing has one row per ticket of the technician; each row shows its ticket's status and belongs to one of the technician's tickets whose device exists, showing that device's serial, model, location and OS |
| Lifecycle.ApplyKeepsValid | signup.php:43-75 | across the nine pages, any single request keeps the integrity invariant and only appends rows; it combines the write pages' own invariant lemmas, and the read-only pages write nothing |
| Lifecycle.RunFromEmpty | service_feedback.php:52-83 | any sequence of requests, starting from the tables as created, leaves a consistent database |
| Lifecycle.RunKeepsValid | service_feedback.php:52-83 | across the nine pages, any sequence of requests from a consistent database leaves a consistent database holding every earlier row; it is the single-request lemma applied request after request |
| Lifecycle.Apply | index.php:30-34 | across the nine pages, a request only appends rows; only the sign-in page can change the session, and the sign-in, dashboard, device check and work pages write nothing |
| Lifecycle.Run | index.php:30-34 | across the nine pages, a sequence of requests only appends rows, and one with no sign-in request leaves the session as it was |
| Lifecycle.StageOf | work_ticket.php:168-183 | a ticket is closed exactly when it has feedback, and open exactly when it has neither parts nor feedback |
| Lifecycle.PanelIsStage | work_ticket.php:168-183 | the work page's block is the ticket's stage |
| Lifecycle.StageNeverGoesBack | work_ticket.php:168-183 | whatever requests come in, no ticket goes back a stage |
| Lifecycle.NewTicketIsOpen | create_ticket.php:61-64 | a ticket just opened has no parts and no feedback, and its work page offers to record parts or skip them |
| Lifecycle.PartMovesTicketOn | part_usage.php:58-70 | recording a part on a ticket without feedback moves it to parts recorded |
| Lifecycle.FeedbackClosesTicket | service_feedback.php:61-73 | submitting feedback closes the ticket, with or without parts |
| Lifecycle.FeedbackSetsStatus | service_feedback.php:62-73 | once feedback is saved, the dashboard shows the ticket with the status submitted, trimmed, or "Completed" when none was sent |
| Lifecycle.PartsAfterClosing | part_usage.php:58-70 | a closed ticket still takes new part rows and stays closed |
| Lifecycle.FeedbackLinksSetBanner | service_feedback.php:134 | the link offered after parts turns the parts banner on; the link that skips parts leaves it off |
| Lifecycle.RegisteredDeviceIsFound | device_check.php:22-33 | a device just registered is found by the device check under the serial it was registered with |
| Lifecycle.UnknownSerialPrefillsRegistration | device_register.php:14 | an unknown serial sends the technician to registration with the trimmed serial, and the registration form then starts with that serial and the other fields empty |
| Lifecycle.SignedUpCanSignIn | index.php:13-34 | an account just created signs in with its e-mail and password, and the session holds the new account and its name |

## Left out

- Database failures are not modelled: a failed `prepare` or `execute`, together with the "unable to process" messages, the "failed to …" messages, and what a failed prepare skips. For example, a failed ownership query lets `part_usage.php` and `service_feedback.php` go on without the ownership check, and a failed serial query in `device_register.php` skips the duplicate check. The model assumes every statement succeeds.
- Concurrency is not modelled: two requests never interleave, so the model proves nothing about the race between a duplicate check and its insert.
- HTML rendering is left out: escaping, the Tailwind markup, and the date formatting on the dashboard. The pages' views are records of the values they display.
- `config.php` and `logout.php` are not part of this model. The session is a value the page functions take and, for sign-in, return.
- Password hashing, password verification and the e-mail syntax check are function parameters. The salt `password_hash` draws at random is therefore not represented.
- The clock is the parameter `today`. Dates are day numbers; the formatting is left out. A posted date is taken to be a day number already: `$_POST['date'] ?? date('Y-m-d')` keeps any string that was sent, an empty one included, since `??` replaces only a missing field, and such malformed or empty dates are outside the model.
- Php.ParseNumber: accepts an optional sign, digits and one decimal point. It leaves out the rest of `is_numeric`: exponent forms such as `1e3`, and whitespace that `trim` leaves in place, such as a form feed.
- Numbers are exact: PartUsagePage.Errors compares quantity and cost as exact `real` values where PHP compares them as floats (part_usage.php:50 and :54), so a quantity such as `0.99999999999999999999`, which PHP rounds to 1 and accepts, is refused by the model; the stored quantity is an unbounded `int`, not MySQL's fixed-width INT.
- SignupPage.FieldErrors: `strlen` counts bytes; the model counts characters, which agree for ASCII passwords.
- Schema.TechnicianByEmail: compares e-mails exactly. MySQL's default collation compares them case-insensitively, and the same holds for serial numbers in Schema.DeviceBySerial.
- A GET id is an optional integer. PHP's coercion of strings such as `"3abc"` when binding an `i` parameter is not modelled; only a missing id and the falsy id 0 are distinguished.
- The feedback status is stored as submitted, after trimming. The page offers only Completed, Finished and Resolved in its select box, but the code does not check that the value is one of them; the model follows the code.
- `create_ticket.php` does not check that the signed-in technician's account still exists. The model follows the code here, and the integrity invariant does not require a ticket's technician to exist.
- The ordering of rows with equal dates under `ORDER BY … DESC` is left to the database. Query.SortDesc fixes one order, and the contracts state only that the result is sorted and a permutation of the input.
- Nothing is left out of the dashboard's join. In SQL the left join with feedback yields one row per feedback row of a ticket, and the model reproduces this. The one-row-per-ticket property is proved under the invariant that a ticket has at most one feedback.

