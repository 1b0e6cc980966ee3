# MuckRock business rules in Dafny

This project models the business rules in MuckRock's Django models. MuckRock is a platform for filing and tracking Freedom of Information Act (FOIA) requests. The model covers:

- **Accounts.** A user profile's monthly request quota, the embargo permission, and how the locally stored credit card is reconciled with the card the payment processor reports (`src/muckrock/accounts/models.py`).
- **Agencies.** Fax normalisation and the email-or-fax fallback; the staleness decision and the bookkeeping of stale-agency tasks; the sibling query; the list of known sender addresses (`muckrock/agency/models.py`).
- **Communications.** The clean-up a communication's text gets on every save; looking requests up by primary key; moving and cloning a communication (with its files) to other requests; resending it; making its sender the request's contact (`muckrock/foia/models/communication.py`).
- **Tasks.** Resolving tasks; the status-to-verb table of the activity stream; the stale-agency task's choice of request; blacklisting the domain of an orphaned communication's sender; setting the status and tracking id of a response task; the priority among a flag's targets; approving and rejecting a new agency; the tasks shown on a request's page (`muckrock/task/models.py`).
- **News.** An article's byline, the scrub of non-breaking spaces on save, and the split into published articles and drafts (`muckrock/news/models.py`).

The ORM is modelled as an in-memory store. Every model whose fields the code updates in place is a Dafny class: `Agency`, `FoiaRequest`, `Communication`, `FoiaFile`, `Task`, `Profile` and `Article`. The tables are the sequence fields of class `Schema.Db`, in the order their rows were added, and a row is found by its primary key.

Django's multi-table task inheritance becomes one `Task` class. Its constant `kind` says which subclass the task is, and carries that subclass's foreign keys.

The apps refer to each other in a cycle: an agency creates stale-agency tasks, and a task points at its agency. Dafny modules cannot import each other in a cycle, so the entity classes are in module `Schema`, and each source file's behaviour is in its own module:

| module | file |
|---|---|
| `Accounts` | accounts.dfy |
| `Agencies` | agency.dfy |
| `Communications` | communication.dfy |
| `Tasks` | task.dfy |
| `News` | news.dfy |

`Text` holds the Python string operations the code uses, and `Wrappers` holds `Option`, `Result` and the exceptions the code raises.

Some inputs are parameters:

- The clock: `now`, `today`.
- `email.utils.parseaddr` and `validate_email`: the functions `parse` and `valid`.
- The `MONTHLY_REQUESTS` setting: a map.
- The choices of `STATUS`: a set.
- The card the payment processor reports.
- The open requests an agency has.

Exceptions become `Result`/`Option` values, and the error paths are modelled.

## Model

| member | source | states |
|---|---|---|
| Accounts.Allowance | src/muckrock/accounts/models.py:57 | an account type missing from the allowance table gets 0 requests a month |
| Accounts.NeedsRefresh | src/muckrock/accounts/models.py:53-54 | the monthly refresh is due when the stored date lies in another month or another year than now |
| Accounts.Refresh | src/muckrock/accounts/models.py:53-58 | in a new month (or year) the monthly counter becomes the allowance and the date is stamped; otherwise the quota is unchanged; the paid counter is never touched |
| Accounts.RefreshIdempotent | src/muckrock/accounts/models.py:53-58 | a second refresh in the same month changes nothing |
| Accounts.SpendTakesOne | src/muckrock/accounts/models.py:62-74 | a request is granted iff some counter is positive; a grant takes exactly one from exactly one counter, the monthly one first; a refusal changes nothing |
| Accounts.Spend | src/muckrock/accounts/models.py:64-74 | the counters and verdict of make_request on an already refreshed quota: the monthly counter first, then the paid one, else refused (its properties are stated by SpendTakesOne) |
| Accounts.QuotaStaysNonNegative | src/muckrock/accounts/models.py:50-74 | with non-negative allowances, neither the refresh nor spending makes a counter negative |
| Accounts.NewMonthGrantsRequest | src/muckrock/accounts/models.py:53-68 | with a positive allowance, the first request of a new month is granted from the monthly counter |
| Accounts.Profile.GetMonthlyRequests | src/muckrock/accounts/models.py:50-60 | the profile's counters become the refreshed quota, and the result is the monthly counter |
| Accounts.Profile.MakeRequest | src/muckrock/accounts/models.py:62-74 | the new counters and the verdict are those of spending from the refreshed quota |
| Accounts.ReconcileMirrorsRemote | src/muckrock/accounts/models.py:88-103 | after reconciliation a local card exists iff a remote one does, and its last4 and card type are the remote card's |
| Accounts.Reconcile | src/muckrock/accounts/models.py:88-103 | get_cc's three branches: create the local card from the remote one, delete it when there is no remote card, or copy last4 and type when they differ (ReconcileMirrorsRemote states the outcome) |
| Accounts.ReconcileKeepsAgreeingCard | src/muckrock/accounts/models.py:97-103 | a local card that already agrees is left as it is |
| Accounts.Profile.GetCc | src/muckrock/accounts/models.py:81-103 | the card table's row for the user is created, deleted or updated to match the remote card, and no other row changes |
| Accounts.EmbargoForAllButCommunity | src/muckrock/accounts/models.py:76-79 | among the account types, exactly the community accounts cannot embargo |
| Accounts.CanEmbargo | src/muckrock/accounts/models.py:76-79 | the account type is one of admin, beta and pro (EmbargoForAllButCommunity states the consequence) |
| Agencies.Save | muckrock/agency/models.py:126-131 | saving strips the email and the name |
| Agencies.SaveIdempotent | muckrock/agency/models.py:128-130 | saving twice gives the same email and name as saving once |
| Agencies.Digits | muckrock/agency/models.py:136 | only (ASCII) digits are kept, so the result is no longer than the input |
| Agencies.DigitsOfDigits | muckrock/agency/models.py:136 | a string of digits keeps every character |
| Agencies.DigitsAppend | muckrock/agency/models.py:136 | the filter works character by character: the digits of a concatenation are the digits of each part, in order |
| Agencies.DigitsOne | muckrock/agency/models.py:136 | a single character is kept iff it is a digit |
| Agencies.NormalizeFax | muckrock/agency/models.py:133-141 | a number is returned iff the digits number 10, or 11 with a leading 1; it is then an 11-digit number starting with 1 that ends with those digits |
| Agencies.NormalizeFaxIdempotent | muckrock/agency/models.py:133-141 | a normalised fax number normalises to itself |
| Agencies.GetEmail | muckrock/agency/models.py:143-151 | the email when there is one; otherwise the normalised fax, or '' exactly when the fax does not normalise |
| Agencies.ResponseAges | muckrock/agency/models.py:179-183 | the list holds the latest-response age of exactly the open requests with a truthy response |
| Agencies.Min | muckrock/agency/models.py:185 | min() is an element no greater than any other |
| Agencies.BySubmission | muckrock/agency/models.py:175 | `order_by('date_submitted')`: the open requests come oldest first, which the staleness decision requires |
| Agencies.StaleVerdict | muckrock/agency/models.py:164-187 | on requests in date_submitted order: a manually stale agency is stale; one with no open request is not |
| Agencies.IsStale | muckrock/agency/models.py:164-187 | on requests in date_submitted order, the loop's verdict is the staleness decision on the agency's open requests |
| Agencies.StaleIffEveryResponseOld | muckrock/agency/models.py:179-185 | when some open request has a response, the agency is stale iff every response is at least 120 days old |
| Agencies.StaleIffSomeRequestOld | muckrock/agency/models.py:175-187 | when no open request has a response, the agency is stale iff some open request was submitted at least 120 days ago |
| Agencies.AnsweredTodayIsUnanswered | muckrock/agency/models.py:181-183 | a response age of 0 is falsy and counts as no response |
| Agencies.OpenStaleTasks | muckrock/agency/models.py:195 | the query holds exactly the agency's unresolved stale-agency tasks |
| Agencies.FindOpenStaleTask | muckrock/agency/models.py:195-202 | finds the position of the first unresolved stale task of the agency, or reports there is none |
| Agencies.GetOrCreateStaleTask | muckrock/agency/models.py:194-202 | returns the first unresolved stale task of the agency; a new one is appended only when there is none |
| Agencies.CreateStaleTask | muckrock/agency/models.py:195-197 | with no open stale task, the new unresolved task is appended and becomes the agency's only open stale task |
| Agencies.MarkStale | muckrock/agency/models.py:189-204 | the agency is flagged stale with the given manual flag and saved; the returned task is an unresolved stale task of the agency, reused when one exists |
| Agencies.FirstOpenStaleTask | muckrock/agency/models.py:198-202 | an unresolved stale task with none before it is the first of the query |
| Agencies.NoOpenStaleTasks | muckrock/agency/models.py:211-213 | a list without unresolved stale tasks of the agency gives an empty query |
| Agencies.ResolveStaleTasks | muckrock/agency/models.py:211-213 | afterwards the agency has no unresolved stale task, and exactly its stale tasks became resolved |
| Agencies.UnmarkStale | muckrock/agency/models.py:206-213 | both flags are cleared, the agency is saved, and no unresolved stale task of it remains |
| Agencies.NameLeTotal | muckrock/agency/models.py:55 | any two names are ordered one way or the other |
| Agencies.InsertByNameSorted | muckrock/agency/models.py:55 | inserting into a name-sorted list keeps it sorted |
| Agencies.InsertByNamePermutes | muckrock/agency/models.py:55 | inserting adds exactly the one agency and drops none |
| Agencies.InsertSortStep | muckrock/agency/models.py:55 | inserting the first agency into a sorted permutation of the rest gives a sorted permutation of the whole list, with the same members |
| Agencies.SortByName | muckrock/agency/models.py:55 | order_by('name') gives a sorted permutation |
| Agencies.FilterSiblings | muckrock/agency/models.py:52-54 | keeps exactly the approved agencies of the same jurisdiction other than the agency itself |
| Agencies.GetSiblings | muckrock/agency/models.py:50-55 | the siblings, sorted by name, never including the agency itself |
| Agencies.ResponseSenders | muckrock/agency/models.py:242-245 | the senders of exactly the responses to requests of the agency |
| Agencies.DistinctValues | muckrock/agency/models.py:244 | DISTINCT keeps every value once and no duplicate |
| Agencies.ParsedAddresses | muckrock/agency/models.py:248 | exactly the lower-cased non-empty parsed addresses |
| Agencies.KnownEmailsAreResponseSenders | muckrock/agency/models.py:240-248 | every known email is the non-empty lower-cased address of a response's sender, and every such address is known |
| Agencies.GetAllKnownEmails | muckrock/agency/models.py:240-248 | the parsed, lower-cased addresses of the distinct senders of responses on the agency's requests (KnownEmailsAreResponseSenders states what they are) |
| Agencies.LowerIdempotent | muckrock/agency/models.py:248 | lower-casing twice is lower-casing once |
| Schema.FindFoia | muckrock/foia/models/communication.py:35 | the request with the key, or None exactly when no request has it |
| Schema.AgencyName | muckrock/foia/models/communication.py:219-220 | the name of the request's agency exactly when the request and its agency exist |
| Communications.PkList | muckrock/foia/models/communication.py:31-32 | a single key becomes a one-element list; a list is kept |
| Communications.IsFalsy | muckrock/foia/models/communication.py:101 | `not foia_pks`: an empty list or the key 0 |
| Communications.Resolve | muckrock/foia/models/communication.py:33-39 | yields only requests of the table whose keys were given, and every request a given key names |
| Communications.ResolveAppend | muckrock/foia/models/communication.py:33-39 | keys are looked up in order: resolving a concatenation concatenates the results |
| Communications.ResolveSnoc | muckrock/foia/models/communication.py:33-39 | one more key adds the request it names, if any, at the end |
| Communications.ResolveEmpty | muckrock/foia/models/communication.py:33-40 | nothing resolves iff no key names a request |
| Communications.ResolveSingle | muckrock/foia/models/communication.py:31-39 | a single key resolves like a one-element list |
| Communications.RequestsFromPks | muckrock/foia/models/communication.py:27-40 | the loop returns the requests of the keys, in key order, unknown keys skipped |
| Communications.RemoveControl | muckrock/foia/models/communication.py:83-84 | the result has no control character; a clean string is unchanged |
| Communications.RemoveControlKeepsOthers | muckrock/foia/models/communication.py:83-84 | every character other than the deleted controls occurs as often as before |
| Communications.RemoveControlAppend | muckrock/foia/models/communication.py:83-84 | translate works character by character: the result for a concatenation is the results for its parts, in order |
| Communications.RemoveControlOne | muckrock/foia/models/communication.py:83-84 | a single character is deleted iff it is a control character |
| Communications.SpecialHandling | muckrock/foia/models/communication.py:213-242 | the body is only ever cut to a prefix |
| Communications.Sanitized | muckrock/foia/models/communication.py:83-88 | a saved body is at most 150 000 characters |
| Communications.SanitizedProperties | muckrock/foia/models/communication.py:83-88 | a saved body has no control character, and no longer contains its agency's cut-off marker |
| Communications.SanitizedKeepsCleanBody | muckrock/foia/models/communication.py:83-88 | a clean, short enough body without its agency's marker is saved as it is |
| Communications.SanitizedIdempotent | muckrock/foia/models/communication.py:81-89 | saving twice stores the same body as saving once |
| Communications.SpecialHandlingOnlyCuts | muckrock/foia/models/communication.py:222-242 | only Bureau of Prisons and Phoenix Police bodies are cut, just before the first occurrence of their marker: the marker follows the cut and occurs nowhere before it |
| Communications.SaveComm | muckrock/foia/models/communication.py:81-89 | the stored body is the sanitised body for the request's agency |
| Communications.FilesOf | muckrock/foia/models/communication.py:138 | exactly the files attached to the communication |
| Communications.DataNames | muckrock/foia/models/communication.py:150-156 | exactly the files whose data can be read are copied |
| Communications.CloneRows | muckrock/foia/models/communication.py:144-159 | one row per readable file, attached to the clone and its request |
| Communications.ExpectedRowsCount | muckrock/foia/models/communication.py:139-159 | the file copies number the clones times the readable files |
| Communications.AgencyNames | muckrock/foia/models/communication.py:143 | the agency name of each request, in order |
| Communications.SaveCopy | muckrock/foia/models/communication.py:140-143 | a new communication copying the original, attached to the request and saved with the body cut for that request's agency |
| Communications.AddFileCopy | muckrock/foia/models/communication.py:145-159 | a new file row for the clone and its request |
| Communications.CopyFiles | muckrock/foia/models/communication.py:144-160 | exactly the readable files are copied, in order, onto the clone |
| Communications.CloneComm | muckrock/foia/models/communication.py:140-143 | the copies so far, plus a saved copy for the next request |
| Communications.CloneFiles | muckrock/foia/models/communication.py:144-160 | the file rows so far, plus the next clone's copies |
| Communications.CloneOne | muckrock/foia/models/communication.py:139-162 | one iteration of the loop adds one clone and its files |
| Communications.ClonedForStep | muckrock/foia/models/communication.py:139-162 | a correct copy for the next request extends the correct clones |
| Communications.CloneEach | muckrock/foia/models/communication.py:139-164 | one fresh clone per request, in order, each a copy of the original attached to its request with the body saved for that request's agency; the files copied are one per clone and readable file |
| Communications.Clone | muckrock/foia/models/communication.py:120-164 | raises ValueError when no key resolves; otherwise the clones described for CloneEach; the original communication and the existing files are unchanged |
| Communications.MoveFiles | muckrock/foia/models/communication.py:107-109 | the communication's files follow it to the target; other files keep their request |
| Communications.Reattach | muckrock/foia/models/communication.py:106-110 | the communication is attached to the target, its files follow, and it is saved for the target's agency |
| Communications.Move | muckrock/foia/models/communication.py:95-118 | a falsy argument raises ValueError and an unknown first key Http404, before any change; otherwise the communication and its files move to the first request; with one key or a clone that raises ValueError no row is added; otherwise the result is the communication followed by fresh clones for the other keys, appended to the communications, with their file rows as clone makes them |
| Communications.MoveTo | muckrock/foia/models/communication.py:105-118 | once the target is found: the communication and its files move to it and the body is saved; the tables are then changed by the clone only |
| Communications.CloneRest | muckrock/foia/models/communication.py:114-118 | the communication followed by clone's result for the other keys, with clone's effect on the tables |
| Communications.Resend | muckrock/foia/models/communication.py:166-184 | an orphan raises ValueError and is unchanged; otherwise it is stamped and saved, and the request is resubmitted: by email to a valid address (invalid raises), by snail mail without one |
| Communications.GetSenderEmail | muckrock/foia/models/communication.py:192-200 | the parsed sender address exactly when it is valid |
| Communications.SenderEmailNeverEmpty | muckrock/foia/models/communication.py:204-206 | the falsy test only ever sees None, since the empty address is invalid |
| Communications.MakeSenderPrimaryContact | muckrock/foia/models/communication.py:202-211 | an invalid sender or an orphan raises ValueError and changes nothing; otherwise the request's email becomes the sender address |
| Tasks.StatusVerb | muckrock/task/models.py:25-34 | the verb listed for the status, else 'is processing' |
| Tasks.StatusVerbIdentifiesStatus | muckrock/task/models.py:25-34 | the listed statuses have distinct verbs, none of them the default, so the verb determines the status |
| Tasks.StatusAction | muckrock/task/models.py:21-35 | no action iff the request has no agency; otherwise the agency acts on the request, with the default verb iff the status is not listed |
| Tasks.ResolveTask | muckrock/task/models.py:114-119 | the task is resolved by the user, dated now |
| Tasks.Resolve | muckrock/task/models.py:274-278 | every task is resolved by the user, dated now; a stale-agency task first clears its agency's stale flag and saves the agency |
| Tasks.ResolvedTaskNotOpen | muckrock/task/models.py:114-119 | a resolved task is no longer among its agency's unresolved stale tasks |
| Tasks.AgencyRequests | muckrock/task/models.py:282 | exactly the open requests of the agency |
| Tasks.StaleRequests | muckrock/task/models.py:280-287 | what the method returns is every open request of the agency, however recent its response |
| Tasks.PyGeTotal | muckrock/task/models.py:294 | Python 2's >= on numbers and None is total |
| Tasks.PyGeTransitive | muckrock/task/models.py:294 | and transitive |
| Tasks.LatestResponses | muckrock/task/models.py:294 | each request's latest response, in order |
| Tasks.LastMaxIndex | muckrock/task/models.py:292-295 | the kept position holds a greatest value, and no later value is at least as great |
| Tasks.StalestIndex | muckrock/task/models.py:292-296 | the scan keeps the last greatest latest response |
| Tasks.StalestRequest | muckrock/task/models.py:289-296 | IndexError iff the agency has no open request; otherwise the request with the last greatest latest response |
| Tasks.SecondField | muckrock/task/models.py:173 | split('@')[1] contains no '@' |
| Tasks.DomainOf | muckrock/task/models.py:170-173 | None iff the address has no '@' |
| Tasks.DomainOfSplits | muckrock/task/models.py:170-173 | the address is local '@' domain rest, with no '@' in local or domain, and rest empty or starting with '@' |
| Tasks.DomainOfSimpleAddress | muckrock/task/models.py:170-173 | an address with a single '@' gives back its domain |
| Tasks.GetSenderDomain | muckrock/task/models.py:167-173 | the domain of the parsed sender address |
| Tasks.EmptyDomainMatchesEveryOrphan | muckrock/task/models.py:92-94 | the empty domain is contained in every sender, so it matches every orphan task |
| Tasks.IsOrphanFrom | muckrock/task/models.py:92-94 | an orphan task whose communication's sender contains the domain, ignoring (ASCII) case |
| Tasks.ResolveMatches | muckrock/task/models.py:507-512 | every orphan task whose sender contains the domain, ignoring case, is resolved with no user; every other task is unchanged |
| Tasks.Blacklist | muckrock/task/models.py:175-185 | without a domain nothing changes; otherwise the domain is on the blacklist exactly once more than before or as before, and the matching orphan tasks are resolved |
| Tasks.SetStatus | muckrock/task/models.py:411-429 | an unknown status raises ValueError before any change; otherwise the communication gets the status and is saved; with set_foia the request gets it too, date_done becomes the communication's date for the four final statuses, and the status action is returned |
| Tasks.SetTrackingId | muckrock/task/models.py:400-409 | a non-unicode id or an orphaned communication raises ValueError and changes nothing; otherwise the request's tracking id is set |
| Tasks.FlaggedObjectPriority | muckrock/task/models.py:328-337 | raises iff nothing is flagged; otherwise the request, else the agency, else the jurisdiction |
| Tasks.FlaggedObject | muckrock/task/models.py:328-337 | the request, else the agency, else the jurisdiction, else AttributeError (FlaggedObjectPriority states the priority) |
| Tasks.Pending | muckrock/task/models.py:354-356 | the filter of pending_requests: the request is the agency's and its status is not 'started' |
| Tasks.PendingRequests | muckrock/task/models.py:354-356 | exactly the agency's requests not in status 'started' |
| Tasks.PendingRequestsDistinct | muckrock/task/models.py:354-356 | a filter over distinct rows yields no repeats |
| Tasks.CommsOf | muckrock/task/models.py:364 | exactly the communications of the request |
| Tasks.EarliestIndex | muckrock/foia/models/communication.py:245-247 | `comms[0]` under `ordering = ['date']`: a communication of the earliest date, the first in table order among equal dates |
| Tasks.ResendFirst | muckrock/task/models.py:364-367 | a request without communications is unchanged; otherwise its earliest-dated communication is resent and stamped now: the request is resubmitted to the address, or by snail mail without one, and an invalid address raises |
| Tasks.ResendOne | muckrock/task/models.py:373-380 | the request moves to the replacement when rejecting, then its first communication is resent |
| Tasks.ResendPending | muckrock/task/models.py:363-380 | unless a resend raises, every request of the agency not in status 'started' is resubmitted once iff it has a communication, and moved when a replacement is given |
| Tasks.ResendAll | muckrock/task/models.py:363-380 | unless a resend raises, every pending request is moved (when rejecting) and resubmitted once iff it has a communication |
| Tasks.Approve | muckrock/task/models.py:358-367 | the agency is approved and saved; unless a resend raises, each request of the agency not in status 'started' that has a communication is resubmitted once to the agency's get_email() address (by snail mail when it is '') |
| Tasks.Reject | muckrock/task/models.py:369-380 | the agency is rejected and saved; unless a resend raises, each request of the agency not in status 'started' moves to the replacement and, when it has a communication, is resubmitted to the replacement's email |
| Tasks.Select | muckrock/task/models.py:62-86 | exactly the tasks of one type that belong to the request |
| Tasks.SelectAll | muckrock/task/models.py:62-86 | exactly the tasks matching one of the types |
| Tasks.FilterByFoia | muckrock/task/models.py:47-87 | exactly the tasks of the request of the types the user may see |
| Tasks.NonStaffSeeNewAgencyTasksOnly | muckrock/task/models.py:58-87 | a non-staff user sees exactly the new-agency tasks of the request's agency, and nothing when it has no agency |
| Tasks.StaffSeeEveryTaskOfRequest | muckrock/task/models.py:47-87 | staff see a task iff it belongs to the request, through its communication, its request, or the request's agency |
| News.Article.Save | muckrock/news/models.py:97-104 | the saved body is the scrubbed body and has no non-breaking space |
| News.Article.AuthorsNames | muckrock/news/models.py:106-114 | the byline of the article's authors |
| News.Scrubbed | muckrock/news/models.py:100 | the scrub keeps the length |
| News.ScrubbedHasNoNbsp | muckrock/news/models.py:100 | a scrubbed body has no non-breaking space, and keeps every other character in place |
| News.ScrubIdempotent | muckrock/news/models.py:100 | saving twice gives the body saving once gives; a body without non-breaking spaces is kept |
| News.ScrubClean | muckrock/news/models.py:100 | a body without non-breaking spaces is kept |
| News.Byline | muckrock/news/models.py:106-114 | IndexError iff there is no author |
| News.BylineOfOne | muckrock/news/models.py:108-113 | one author: the byline is the name |
| News.BylineOfThree | muckrock/news/models.py:108-111 | "A, B & C" |
| News.BylineDropsEmptyLead | muckrock/news/models.py:109-113 | with two or more authors the byline is the last name alone iff there are two and the first has no name |
| News.BylineNamesEveryAuthor | muckrock/news/models.py:108-114 | every author's name occurs in the byline, which ends with the last author's name |
| News.Published | muckrock/news/models.py:25-27 | exactly the articles to publish whose date has come |
| News.Drafts | muckrock/news/models.py:29-31 | exactly the articles not to publish |
| News.PublishedAndDraftsSplit | muckrock/news/models.py:25-31 | no article is both published and a draft; every article is one of them or scheduled for later |
| Text.StripRemovesOnlySurroundingSpace | muckrock/agency/models.py:128 | str.strip gives a contiguous slice of the input with only whitespace outside it |
| Text.StripIdempotent | muckrock/agency/models.py:128-130 | stripping twice is stripping once |
| Text.CutBefore | muckrock/foia/models/communication.py:226-228 | the text before the first occurrence of the marker (the marker follows it and occurs nowhere before it), or all of it |
| Text.CutBeforeRemovesMarker | muckrock/foia/models/communication.py:226-228 | the cut text no longer contains the marker |
| Text.UpTo | muckrock/task/models.py:173 | the part of the string before the first occurrence of the character, which it does not contain |
| Text.UpToStopsAtFirst | muckrock/task/models.py:173 | the part ends exactly at the first occurrence |
| Text.UpToWhole | muckrock/task/models.py:173 | without the character, the whole string is kept |
| Text.JoinEmpty | muckrock/news/models.py:109-110 | a join is empty iff nothing or a single empty string is joined |
| Text.JoinContainsEach | muckrock/news/models.py:109 | every joined string occurs in the join |
| Text.ReplaceChar | muckrock/news/models.py:100 | each occurrence of the character is replaced, everything else kept in place |

## Left out

- The payment gateway (`pay`, `save_cc`, `get_customer`, `save_customer`) is not part of this model. The card the processor reports is an input of `Accounts.Profile.GetCc`.
- `Agencies.Save`: the slug (`slugify`) is not modelled; only the stripping of the email and the name is.
- `FOIARequest` (muckrock/foia/models/request.py) is not part of this model:
  - `latest_response()` is a field holding the value it reports;
  - `get_open()` is the list of open requests, passed in;
  - `submit()` is recorded in a list of submissions (true for snail mail);
  - `update()` and its own `save()` are not modelled.
- `STATUS` and `MONTHLY_REQUESTS` are not visible: they are parameters.
- The activity stream: `Tasks.StatusAction` returns the action `generate_status_action` sends.
- Not modelled:
  - logging;
  - the template-cache invalidation in `Article.save`;
  - the asynchronous DocumentCloud upload in `clone`.
- File storage: a file whose data cannot be read is a `FoiaFile` with `hasData` false. Copying the stored bytes is not modelled.
- Ordering:
  - `foia.communications.all()` follows FOIACommunication's `ordering = ['date']` where its order matters: approve and reject resend the earliest-dated communication (`Tasks.EarliestIndex`). Among communications of the same date, the database's order is unspecified; the model takes the first in table order.
  - Where only membership matters, the order is not modelled: `Tasks.CommsOf`, `Communications.FilesOf`, `News.Published` and `News.Drafts` keep table order, not the `date` and `-pub_date` orderings.
  - Tasks are appended when created, so table order is `ordering = ['date_created']` when the clock does not go backwards.
  - The request queries and `files.all()` are taken in table order.
  - The database collation used by `order_by('name')` is not modelled: names compare by code point.
- `Agencies.NormalizeFax`: `unicode.isdigit` accepts every Unicode digit (fullwidth digits, superscripts and others), but the model counts only the ASCII digits '0'-'9', through `Agencies.Digits`.
- `Agencies.Digits`: keeps only the ASCII digits '0'-'9', where `unicode.isdigit` keeps every Unicode digit.
- `Agencies.ParsedAddresses`: `unicode.lower()` folds every cased letter; the model lower-cases only the ASCII letters A-Z (`Text.Lower`), and so do `Agencies.GetAllKnownEmails` and `Agencies.KnownEmailsAreResponseSenders`.
- `Agencies.IsStale`: requires the open requests in `order_by('date_submitted')` order (`Agencies.BySubmission`), as `Agencies.StaleVerdict` does.
- `Agencies.StaleVerdict`: the query's `order_by('date_submitted')` is a requirement on the list of open requests passed in (`Agencies.BySubmission`), since the list is a parameter.
- `Tasks.IsOrphanFrom` uses `icontains`, but lower-cases only ASCII letters; the database's case folding of other letters is not modelled.
- `Tasks.StaleRequests`: the loop that builds the list of requests with an old latest response has no effect, since the method returns all the agency's open requests. The model returns that list and leaves out the discarded one.
- `Tasks.FilterByFoia` follows the code: its docstring's response tasks for advanced users are not implemented there, so they are not modelled.
- `Tasks.Approve`: `get_email()` is evaluated once before the loop rather than at each turn. Nothing in the loop changes the agency, so the value is the same.
- `Tasks.Approve`, `Tasks.Reject` and `Tasks.ResendPending` require the request table to hold distinct objects, as rows with distinct keys do.
- `Tasks.Approve`, `Tasks.Reject`, `Tasks.ResendPending`, `Tasks.ResendAll`: these contracts state the requests' new email, submissions and agency, but not the new date and body of each resent communication. `Tasks.ResendFirst` states the date, and `Communications.Resend` states both.
- `Tasks.Blacklist`: the `MultipleObjectsReturned` fallback picks an existing row with the same domain, so only the domain value is modelled.
- Task operations outside the modelled core are not part of this model:
  - `OrphanTask.move` and `OrphanTask.reject`;
  - `SnailMailTask.set_status`, `update_date`, `update_text` and `record_check`;
  - `RejectedEmailTask.agencies` and `RejectedEmailTask.foias`;
  - `StaleAgencyTask.update_email`;
  - `FlaggedTask.reply`;
  - `ResponseTask.move`, `set_price` and `set_date_estimate`.
- Python's `unicode()` conversion is not modelled: text is a sequence of code points.
- Python 2's ordering of `None` against numbers is modelled where the code compares latest responses (`Tasks.PyGe`).
