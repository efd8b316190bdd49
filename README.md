# PTT scraper scheduler, modelled in Dafny

The PTT scraper is a cloud function. Cloud Scheduler triggers it, and each run does the following:
- reads the active watch configurations from the configuration store;
- keeps those whose schedule (hourly, daily at a clock time, or a custom interval in minutes) is due;
- for each due configuration, fetches the board's listing page and picks the newest articles that match the keywords, up to a count;
- formats the articles as Markdown messages that fit Telegram's 4096-character limit;
- delivers the messages through the Telegram Bot API, retrying transport failures with exponential back-off;
- records each job's outcome on the configuration and in the execution log;
- answers with a summary of the run.

The model covers that pipeline, one Dafny module per stage:

- `Schedule` (`schedule.dfy`) covers when a configuration is due and when it would run next.
  - Instants are whole minutes of the UTC clock.
  - An out-of-range daily time, one that makes the clock replacement raise, is "not due" and "no next time", as the function's outer handler makes it.
- `Selection` (`selection.dfy`) covers the article loop over the entries of a parsed listing page.
  - The loop reads at most `post_count * 2` entries, with Python's slice semantics for a negative stop.
  - It skips an entry without a title link and drops titles that match no keyword, ignoring case.
  - It stops once `post_count` articles are held.
  - An entry whose title cell is missing, or whose link has no `href`, makes the whole scrape fail, just as the exception does in the code.
- `Chunking` (`chunking.dfy`) covers the message formatter.
  - It is proved equal to a greedy packing of the numbered entry texts into blocks.
  - Each message is one block's text, stripped.
- `Delivery` (`delivery.dfy`) covers the sender.
  - The replies the API gives are a parameter, and every run produces a trace of requests, back-offs and pauses.
  - A transport failure is retried up to three attempts in all.
  - Any other failure, including a reply whose `ok` is false, stops delivery at once.
  - A one-second pause follows every delivered message but the last.
- `Jobs` (`jobs.dfy`) covers one job and the whole run.
  - The configuration store is the class `Store`, with the two writes the function makes: the status update and the execution record.
  - One job always ends with exactly one status update and one record, whatever happened before.
- `Text` (`text.dfy`) holds the Python string built-ins the code relies on: `strip`, `lower`, `in`, `split`, `int()` and `str()`.
- `Wrappers` and `Seqs` are generic helpers: Option/Result, and three sequence identities.

Inputs that the model treats as parameters:
- the bot token, `None` when the secret cannot be read or is empty;
- the listing page of each board, already parsed into entries, `None` when it cannot be fetched;
- the reply to the `k`-th Telegram request of the run;
- the one clock reading `now` of the run, which also stands in for every server timestamp the run writes.

Facts proved about the source that a reader may not expect:
- **Next execution time can disagree with "due".** For a daily schedule, the "next execution time" from `calculate_next_execution_time` is today's slot when a run happens before the slot. Yet `is_configuration_due` does not make that run due again until the next day (`DailyNextBeforeSlotIsNotDue`). Likewise, the hourly next time (the next whole hour) precedes the moment an off-the-hour run is due again (`HourlyNextOffHourIsNotDue`). When a daily run happens at or after its slot, and for custom intervals, the two functions agree exactly (`DailyNextIsFirstDueAfterSlot`, `CustomNextIsFirstDue`).
- **A header can go out alone.** When the first entry does not fit after the header, the header is sent as a message of its own (`PackedAt` allows a first block with no entries).
- **An over-long entry gives an over-long message.** An entry too long for a message of its own still goes out in one, which is longer than the limit; `MessagesFit` therefore assumes every entry fits after the continued header.
- **A second run in the same minute reruns nothing with a positive interval.** Any configuration that ran is no longer due, unless its custom interval is zero or negative (`RanIsNoLongerDue`); the bounds of `datetime` are left out, as "## Left out" says.
- **One malformed entry fails the whole scrape.** Only an entry whose title cell has no link is skipped. An entry with no title cell, or with a link that has no `href`, raises inside the loop, and the scrape fails (`Selection.ExamineSpec`, `Selection.SelectSpec`).
- **A job never fails past its own handler.** `execute_scraping_job` returns from its `finally` block, so no exception reaches `main`'s per-job handler. That handler is not modelled, and `ExecuteJob` always returns a result.

## Model

| member | source | states |
|---|---|---|
| Schedule.IsDue | functions/ptt-scraper/main.py:78-145 | a configuration never executed is due whatever its schedule; an unrecognised schedule type is never due once it has run |
| Schedule.NeverExecutedIsDue | functions/ptt-scraper/main.py:91-94 | with no `lastExecuted` the configuration is due for every schedule and instant |
| Schedule.HourlyDue | functions/ptt-scraper/main.py:104-108 | hourly is due exactly when 60 minutes have passed since the last run |
| Schedule.DailyDue | functions/ptt-scraper/main.py:110-129 | daily with a usable clock time is due exactly when the last run was on an earlier date and today's minute has reached the scheduled one |
| Schedule.DailyOutOfRangeNeverDue | functions/ptt-scraper/main.py:110-145 | a daily time outside 00:00-23:59 makes the clock replacement raise, so the configuration is never due once it has run |
| Schedule.DailyAtMostOncePerDay | functions/ptt-scraper/main.py:122-123 | after a daily run no instant of the same date is due: at most one daily run per date |
| Schedule.CustomDue | functions/ptt-scraper/main.py:131-137 | custom is due exactly when the interval has passed; with no interval it behaves as hourly (60 minutes) |
| Schedule.RunClearsDue | functions/ptt-scraper/main.py:104-137 | a run recorded at `now` leaves the configuration not due at `now`, if and only if it is not a custom schedule of zero or negative interval |
| Schedule.StaysDue | functions/ptt-scraper/main.py:104-137 | once due, a configuration stays due as time passes (a daily one within the same date) |
| Schedule.DefaultTimeIsFallback | functions/ptt-scraper/main.py:112-117 | the default text `09:00` parses to the fallback clock 9:00, so a missing `time` and an unreadable one both mean 09:00 |
| Schedule.ParseTimeOfClock | functions/ptt-scraper/main.py:114 | `map(int, text.split(':'))` reads any zero-padded `HH:MM` text back as its hour and minute |
| Schedule.NextExecution | functions/ptt-scraper/main.py:170-203 | hourly gives the next whole hour within 60 minutes; daily with a usable time gives an instant within the next day at the scheduled minute of day; an unusable daily time or unknown type gives none; custom gives `now` plus the interval |
| Schedule.NextHour | functions/ptt-scraper/main.py:177-179 | the next execution of an hourly schedule is a whole hour, after `now` and at most an hour later |
| Schedule.NextDailyTime | functions/ptt-scraper/main.py:188-193 | the next daily execution is after `now`, at most a day later, at the scheduled minute of day |
| Schedule.DailyNextIsFirstOccurrence | functions/ptt-scraper/main.py:188-193 | no instant strictly between `now` and the next daily execution falls on the scheduled minute: it is the first occurrence |
| Schedule.CustomNextIsFirstDue | functions/ptt-scraper/main.py:195-197 | for custom schedules the next execution is exactly the first instant at which a run made now is due again |
| Schedule.DailyNextIsFirstDueAfterSlot | functions/ptt-scraper/main.py:181-193 | for a daily run at or after the slot, the next execution is exactly the first instant at which the configuration is due again |
| Schedule.DailyNextBeforeSlotIsNotDue | functions/ptt-scraper/main.py:181-193 | for a daily run before the slot, the reported next execution is not an instant at which the configuration is due |
| Schedule.HourlyNextOffHourIsNotDue | functions/ptt-scraper/main.py:177-179 | for an hourly run off the hour, the reported next execution comes before the run is due again |
| Text.Strip | functions/ptt-scraper/main.py:238 | `strip()` leaves no white space at either end, is no longer than its input, and is empty exactly when the input is all white space |
| Text.StripIsInfix | functions/ptt-scraper/main.py:238 | `strip()` returns the part of the text that starts where `lstrip()` does, with only white space before and after it: nothing else is removed |
| Text.Lower | functions/ptt-scraper/main.py:250 | `lower()` keeps the length, leaves no ASCII capital, turns each one into its small letter and keeps every other character |
| Text.StripTrimmed | functions/ptt-scraper/main.py:238 | a text with no white space at either end is unchanged by `strip()` |
| Text.ContainsIffOccurs | functions/ptt-scraper/main.py:250 | Python's substring test holds exactly when the keyword occurs at some position of the title |
| Text.JoinSplit | functions/ptt-scraper/main.py:114 | joining the pieces of `split(':')` with `:` gives the text back |
| Text.SplitPiecesHaveNoSeparator | functions/ptt-scraper/main.py:114 | no piece of `split(':')` contains `:` |
| Text.SplitPair | functions/ptt-scraper/main.py:114 | `split(':')` of two separator-free parts joined by `:` is exactly those two parts |
| Text.ParseIntOfIntToString | functions/ptt-scraper/main.py:114 | `int()` reads back `str(n)` as `n` for every integer |
| Text.ParseIntOfZeroPad | functions/ptt-scraper/main.py:114 | `int()` reads a zero-padded two-digit field as its value |
| Text.NumeralValueOfNatToString | functions/ptt-scraper/main.py:278 | the digits `str(n)` writes denote `n` |
| Selection.SliceLength | functions/ptt-scraper/main.py:233 | `entries[:stop]` keeps exactly the first `k` indices, where an index is kept when it is below `stop`, or below `n + stop` for a negative stop |
| Selection.BudgetBound | functions/ptt-scraper/main.py:233 | the loop reads at most `2 * post_count` entries and no more than the page has |
| Selection.ExamineSpec | functions/ptt-scraper/main.py:234-259 | one entry raises exactly when its title cell is missing or its link has no `href`; an unlinked title is skipped; a link is kept exactly when its stripped title matches a keyword, and then gives the article with that title, the stripped author and date ("Unknown" for a missing cell), the site-absolute link and the board |
| Selection.KeptAdmissible | functions/ptt-scraper/main.py:238-259 | every kept article links into the PTT site, passes the keyword filter and names its board |
| Selection.ScanIsKeptPrefix | functions/ptt-scraper/main.py:233-262 | the loop returns the kept articles of a well-formed prefix of the entries, in order; it stops early only right after the article that reaches the count, never exceeds it, and raises exactly at a malformed entry reached while below the count, all entries before it well formed |
| Selection.SelectSpec | functions/ptt-scraper/main.py:230-262 | the articles are those kept from the first `k` entries within the budget, all well formed; it stops before the budget only right after the article that reaches `post_count`; never more than `post_count`, each admissible; failure is a malformed entry within the budget, with every earlier entry well formed and the count not yet reached |
| Selection.SelectSucceedsOnWellFormed | functions/ptt-scraper/main.py:233-237 | with no malformed entry within the budget the selection succeeds |
| Selection.SelectArticles | functions/ptt-scraper/main.py:230-262 | the loop with its early `break` computes the selection `Select` |
| Selection.ScrapeArticles | functions/ptt-scraper/main.py:206-269 | a page that could not be fetched is a scraping error; otherwise the selection over its entries |
| Chunking.EntryTextNamesArticle | functions/ptt-scraper/main.py:280-283 | an entry's text shows the article's title, author, date and link |
| Chunking.FormatArticles | functions/ptt-scraper/main.py:272-296 | the formatting loop computes `Messages`: one "no articles" message for an empty list, otherwise the messages of the packing |
| Chunking.FormatIsPacking | functions/ptt-scraper/main.py:280-294 | building messages text by text gives the messages of the greedy block packing |
| Chunking.BlocksPacked | functions/ptt-scraper/main.py:280-291 | the packing is greedy (a block ends only when the next entry would overflow it, and only an initial text can overflow), uses the main then the continued header, and holds every entry text once in order |
| Chunking.MessagesAreBlocks | functions/ptt-scraper/main.py:272-296 | with no articles one message naming the board; otherwise exactly one message per block, the block's text stripped, with blocks packed as above and holding all entry texts in order; no message is empty |
| Chunking.MessagesOfVisible | functions/ptt-scraper/main.py:287-294 | blocks whose headers start with a visible character are never dropped by the `strip()` test |
| Chunking.PushVisible | functions/ptt-scraper/main.py:287-288 | a text starting with a visible character is appended, stripped, after the earlier messages |
| Chunking.MessagesFit | functions/ptt-scraper/main.py:285-291 | every message fits the 4096 limit when the header fits and each entry fits after the continued header |
| Chunking.BlocksFit | functions/ptt-scraper/main.py:285-291 | in a greedy packing every block fits when its first header fits and each entry fits after the continued header |
| Chunking.NoArticlesMessageNamesBoard | functions/ptt-scraper/main.py:274-275 | the message sent for no articles names the board |
| Delivery.SendWithRetry | functions/ptt-scraper/main.py:302-338 | the retry loop for one message computes `Attempts` |
| Delivery.SendMessages | functions/ptt-scraper/main.py:299-338 | the sender computes `Deliver`: messages in order, stopping at the first that fails |
| Delivery.AttemptsSpec | functions/ptt-scraper/main.py:302-338 | the attempts at one message advance the cursor by their requests, make at most three, send only that message's text, wait only scheduled back-offs, either deliver it once (pausing unless it is last) or stop with the error for it, and have the shape `AttemptsMade` gives |
| Delivery.AttemptsMade | functions/ptt-scraper/main.py:303-338 | the attempts at one message are some transport failures, each followed by its back-off, then one final request; only a transport failure is retried, and a final transport failure is the third attempt; the error is none for a delivery, retries exhausted for a transport failure, and an abort otherwise; a pause follows only a delivery of a message that is not last |
| Delivery.FailuresAt | functions/ptt-scraper/main.py:328-335 | the failed attempts alternate a failed request and its back-off, the `k`-th back-off being `min(2^k, 10)` seconds |
| Delivery.SegmentEnd | functions/ptt-scraper/main.py:317-326 | the attempts at a message end with its final request, followed by the pause only when it delivered a message that is not the last |
| Delivery.DeliverFromTried | functions/ptt-scraper/main.py:301-338 | delivering from message `i` on is one segment of attempts per message tried, in order; the `k`-th request got the `k`-th reply of the script from the cursor on, and the cursor advances by one per request; every message tried before the last was delivered; success exactly when every message was tried and delivered; otherwise the error of the last one tried |
| Delivery.DeliverFromSpec | functions/ptt-scraper/main.py:301-338 | from message `i` on: the requests got the script's replies in order and advance the cursor by one each; requests stay within the remaining messages, each at most three times; success delivers every remaining message once in order, with one pause fewer than messages; an error at `j` delivered exactly those before `j` and attempted nothing after |
| Delivery.DeliverSpec | functions/ptt-scraper/main.py:299-338 | delivery returns normally exactly when the texts delivered are the messages, in order, with `n - 1` pauses; on an error at message `j` exactly the messages before `j` went out and none after `j` was attempted; every back-off is scheduled; the `k`-th request got the `k`-th reply of the script, one reply per request; the last request is the one whose reply raised the error; the trace is the segments of `DeliverFromTried`, so each pause follows a delivered message that is not the last |
| Delivery.TriedEndsAtError | functions/ptt-scraper/main.py:328-338 | a delivery that stopped ends with the final request to the last message tried, whose reply raised the error |
| Delivery.AttemptsScripted | functions/ptt-scraper/main.py:302-338 | the attempts at one message got the script's replies in order, one per request, and advance the cursor by their requests |
| Delivery.RejectionAborts | functions/ptt-scraper/main.py:312-338 | a rejected first request is not retried: delivery stops with the abort for message 0 after that one request |
| Delivery.BackoffSchedule | functions/ptt-scraper/main.py:333 | the back-off after the first failure is 2 seconds, after the second 4, never above 10 |
| Delivery.RetryThenDeliver | functions/ptt-scraper/main.py:328-335 | a transport failure then a success delivers the message on the second request, after a 2-second back-off |
| Delivery.ThreeFailuresExhaust | functions/ptt-scraper/main.py:328-335 | three transport failures exhaust the retries of the first message: exactly three failed requests with back-offs of 2 and 4 seconds between them |
| Jobs.Store.UpdateConfigurationStatus | functions/ptt-scraper/main.py:362-376 | the document with the id gets the status, message and timestamps; the execution log is untouched |
| Jobs.Store.CreateExecutionRecord | functions/ptt-scraper/main.py:341-359 | one record is appended to the execution log; the configurations are untouched |
| Jobs.ExecuteJob | functions/ptt-scraper/main.py:379-448 | the job computes `RunJob` and, whatever happened, makes one status update with its outcome and appends one execution record of it |
| Jobs.RunJobOutcome | functions/ptt-scraper/main.py:379-448 | `success` exactly when there is no error and articles were found, and then every message went out in order and all found were sent; `no_articles` exactly when nothing was found, with Telegram untouched; `error` exactly when there is an error, with nothing sent; a missing board or chat id never reaches Telegram |
| Jobs.RunJobs | functions/ptt-scraper/main.py:508-522 | the job loop yields one result per due configuration |
| Jobs.RunDueJobs | functions/ptt-scraper/main.py:507-522 | the job loop's results are `RunJobs`, its log gains one record per result in order, and the configurations get the results' status updates in order |
| Jobs.RunScheduler | functions/ptt-scraper/main.py:451-549 | `main` computes `Run`; only a completed run writes to the store, with one record and one status update per job |
| Jobs.ActiveIff | functions/ptt-scraper/main.py:474-483 | a configuration is listed exactly when it is in the store and active |
| Jobs.DueInIff | functions/ptt-scraper/main.py:496-503 | a listed configuration is kept exactly when it is due |
| Jobs.DueIff | functions/ptt-scraper/main.py:474-505 | a configuration runs exactly when it is in the store, active and due at `now` |
| Jobs.RunJobsSpec | functions/ptt-scraper/main.py:507-522 | the `i`-th result belongs to the `i`-th due configuration and is classified (success, no articles or error with the counts that go with it) |
| Jobs.TotalSentIsFoundBySuccessful | functions/ptt-scraper/main.py:526-527 | the total sent equals the articles found by the successful jobs, and the successful jobs are no more than all jobs |
| Jobs.RunSpec | functions/ptt-scraper/main.py:451-549 | no token exactly when the run reports failure; no active configuration exactly when it reports none; otherwise one classified result per due active configuration, in store order; the success count is the number of results whose status is success, and the sent total is the articles found by the successful jobs |
| Jobs.SuccessfulCounts | functions/ptt-scraper/main.py:526 | the success count equals the number of positions of the results whose status is success |
| Jobs.AppliedUpdates | functions/ptt-scraper/main.py:362-376 | after the run's status updates each configuration keeps its id, schedule and place; one that ran was last executed `now`; one that did not is untouched |
| Jobs.RecordsOfResults | functions/ptt-scraper/main.py:341-359 | the execution log gains one record per job, in order, stamped `now`, with the job's status, counts and error |
| Jobs.RanIsNoLongerDue | functions/ptt-scraper/main.py:427-438 | once its status update is applied, a configuration that ran is not due at the same instant, unless its custom interval is not positive |

## Left out

- Store I/O: the Firestore clients, the Secret Manager and the HTTP entry point are outside the model. A store read is the `configs` field of `Store`, and the token is a parameter.
- A failure of the query that lists the configurations is not modelled. In the code it ends in the run's "critical error" response with no results.
- Failures of the two store writes are not modelled. The code logs them and goes on, and the model's writes always succeed.
- Fetching and parsing the board page are not modelled: the `cloudscraper` session, the 18+ consent post and BeautifulSoup. The listing arrives as a sequence of parsed entries, or `None` when it could not be obtained.
- Time: `datetime` values are whole minutes of the UTC clock. Converting Firestore timestamps and ISO strings, seconds and microseconds, and a `lastExecuted` of another type are not modelled.
- Durations (`execution_time`, `executionDuration`) and the real sleeps are not modelled. Back-offs and pauses appear only as events in the delivery trace, with their nominal seconds.
- The texts of errors and log messages are not modelled. An error is a datatype naming its cause, and logging is left out.
- Text is a sequence of code points, as Python's `len` counts it. Telegram's own length count in UTF-16 units and the Markdown rendering are not modelled.
- `lower()` is modelled for ASCII letters only, with no Unicode case mapping.
- Schedule.IsDue, Schedule.CustomDue, Schedule.RunClearsDue, Schedule.NextExecution: the limits of Python's `datetime` (years 1 to 9999) and of `int()` (at most 4300 digits) are not modelled, and both raise in the code. A custom interval of -2000000000 minutes from a `lastExecuted` in 2026 overflows: the code says "not due" and gives no next time (functions/ptt-scraper/main.py:133, 143-145 and 197), while the model says due and gives `now + interval`. A daily time of 4301 ones followed by ":00" makes `int()` raise, so the code falls back to 09:00, while the model reads an out-of-range hour and never makes the configuration due.
- Text.ParseInt: `int()` is modelled for ASCII digits only. Python also reads the decimal digits of other scripts, so a fullwidth daily time such as "１０:３０" means 10:30 in the code but falls back to 09:00 in the model.
- Configuration fields of an unexpected type are not modelled, such as a `postCount` that is not an integer or `keywords` that are not a list. A daily `time` that is not text is modelled (`Schedule.NotText`).
- Which failures count as transport failures is not modelled: `raise_for_status`, a JSON body that does not decode, or a timeout. Each sendMessage reply arrives already classified as `Delivery.Reply`.
- `main`'s per-job exception handler is not modelled, because `execute_scraping_job` never raises past its `finally`.
- `log_scheduler_trigger`, `get_telegram_bot_token`'s environment lookups, the deployment script and the test files are outside the modelled core.
- Chunking.MessagesFit: states the 4096 limit only under its two length premises, because an over-long single entry does produce an over-long message in the code.
