# Reddit Post Notifier — a Dafny model

Reddit Post Notifier is a small daemon, `app.py`. It watches a set of subreddits for new submissions. It checks each submission's title against that subreddit's include and exclude keyword lists, and sends a notification through Apprise when the title matches. This project models the logic between the configuration file and the network:

- **Title filter and notification** (`process_submission`, `notify`). A title matches when some include term occurs in the lower-cased title and no exclude term does. The check is plain substring containment. The notification carries the title unchanged, with `https://www.reddit.com` followed by the permalink as its body (module `Filter`, built on `Text`).
- **Dedup stream loop** (`stream_submissions`). A class `Monitor.Coordinator` holds the set of processed submission ids and the log of notifications handed to Apprise. The unbounded stream is a finite trace of events: a submission, or an API error. An API error stands for the handler that logs, sleeps 30 seconds and reopens the stream. The processed set is created once, before the retry loop, so it survives reconnections. The class's methods are proved against the specification functions `Step` and `Replay`, and the lemmas prove the loop's promises about those functions.
- **Configuration validation** (`validate_config`). The parsed YAML document is a `YValue`. The six top-level shape checks run in a fixed order, then each subreddit entry is checked. On success every term and every subreddit name is lower-cased (module `Config`). The method `ValidateConfig` follows the source's loop; the function `Validate` specifies it. An independent flat list of checks (`AllChecks`) states the order in which failures are reported.
- **Subreddit existence check** (`validate_subreddits`). A redirect is fatal and names the subreddit. Any other API error is reported and the scan continues (module `Startup`).

Two consequences of the filter code are worth stating:

- An empty include list matches nothing, because `any(...)` over no terms is false (app.py:80). A subreddit with no include terms never notifies (`Filter.EmptyIncludeNeverMatches`).
- Nothing checks that terms are non-empty, and an empty include term matches every title (`Filter.EmptyTermMatchesEverything`).

The YAML loader keeps only the last value of a key repeated in the file, so no mapping that reaches validation holds a key twice. `Config.WellFormed` states this at every depth of the document, and the validation members require it of their input.

## Model

| member | source | states |
|---|---|---|
| Text.Lower | app.py:80 | the lower-cased title has the same length, each character lower-cased, and no upper-case letter left |
| Filter.AnyContained | app.py:80 | `any(term in text for term in terms)` is true iff some term occurs as a substring of the text |
| Filter.Matches | app.py:76-80 | a title matches iff at least one include term is a substring of the lower-cased title and no exclude term is |
| Filter.EmptyIncludeNeverMatches | app.py:76-80 | with an empty include list no title ever matches, whatever the exclude list |
| Filter.ExcludeVetoes | app.py:80 | an exclude term occurring in the lower-cased title vetoes it, whatever the include terms |
| Filter.EmptyTermMatchesEverything | app.py:80 | an empty include term (nothing rejects it) lets every title through |
| Filter.SubstringNotWord | app.py:80 | matching is on substrings, not words: include "cat" matches the title "Category" |
| Filter.ElectionResultsNotify | app.py:76-81 | with include ["election"] and exclude ["satire"], "Election results delayed" matches |
| Filter.ElectionSatireVetoed | app.py:76-81 | with the same filters, "Election satire roundup" is vetoed by its exclude term |
| Filter.LocalWeatherIgnored | app.py:76-81 | with the same filters, "Local weather" does not match |
| Filter.Notify | app.py:87-92 | the notification title is the submission title unchanged; the body is "https://www.reddit.com" followed by exactly the permalink |
| Filter.NotifyInjective | app.py:91 | two notifications are equal only for the same title and permalink |
| Filter.Process | app.py:70-85 | a submission produces a notification iff its subreddit's filters (looked up by the lower-cased name) match its title, and that notification carries the title and the link |
| Monitor.ReplayAppend | app.py:51-57 | consuming one stretch of the stream and then another is the same as consuming both in one go, so state carries across reconnections |
| Monitor.ReplayGrows | app.py:54-57 | after a run the processed set is the old set plus every submission id seen, matched or not; it only grows, and earlier notifications stay in the log |
| Monitor.ReplayAtMostOnce | app.py:49-57 | every delivered id is processed and no two deliveries share an id, even when the stream redelivers; no id processed before the run is delivered again |
| Monitor.ApiErrorsInert | app.py:62-67 | API errors change nothing: the run gives the same state with the errors removed from the trace |
| Monitor.DeliveriesMatched | app.py:53-57 | each new delivery is the notification of a submission of the trace that passed its subreddit's filter |
| Monitor.NewMatchDelivered | app.py:53-57 | a submission whose id is new to the run and that passes its filter is delivered |
| Monitor.RedeliveryAfterReconnect | app.py:49-67 | a submission delivered, then an API error, then the same submission again yields at most one notification |
| Monitor.Coordinator.constructor | app.py:49 | the coordinator starts with an empty processed set and an empty notification log |
| Monitor.Coordinator.Handle | app.py:54-57 | one event: an unprocessed submission is filtered, notified if it matches, and marked processed; anything else changes nothing (the specification step) |
| Monitor.Coordinator.Run | app.py:51-67 | consuming a trace leaves the state given by the specification replay; the processed set gains exactly the trace's ids, and the log only grows |
| Config.GetFound | app.py:152-170 | a lookup `m[key]` returns the value stored under that key |
| Config.PutSpec | app.py:195 | storing a key in an insertion-ordered dictionary makes it map to the new value, leaves the other keys alone and keeps keys distinct |
| Config.PutPosition | app.py:195 | storing a key already present keeps its position in the dictionary's order; a new key is appended at the end |
| Config.LowerKeysKeys | app.py:195 | lower-casing the dictionary's keys gives distinct keys, exactly the lower-cased original keys |
| Config.LowerKeysLastWins | app.py:195 | each lower-cased key holds the value of the last original entry whose key lower-cases to it |
| Config.NormaliseEntry | app.py:176-191 | a normalised entry has only lower-case terms; a failure carries one of the three messages naming that subreddit |
| Config.NormaliseEntryTerms | app.py:179-191 | a missing include or exclude becomes the empty list; a present one keeps its terms in order, each lower-cased |
| Config.NormaliseAllStops | app.py:175-186 | the first failing subreddit entry ends the loop with its message |
| Config.NormaliseAllShape | app.py:175-191 | after the loop every entry keeps its name and position and holds its normalised filters |
| Config.ValidateConfig | app.py:150-196 | the step-by-step validation (early exits, then the loop over subreddit entries, then the lower-cased names) gives exactly the result of `Validate` |
| Config.EntryChecksAgree | app.py:176-186 | one entry is accepted iff its three checks pass, and otherwise fails with the first failing check's message |
| Config.NormaliseAllChecks | app.py:175-186 | the subreddit loop succeeds iff every entry check passes, and otherwise fails with the first failing one in document order |
| Config.TopChecksAgree | app.py:152-170 | a failing top-level check stops validation with the first failing one's message; when all pass, the outcome is that of the subreddit loop |
| Config.ValidateReportsFirstFailure | app.py:152-186 | validation succeeds iff all checks pass, and otherwise reports the first failing check in the order reddit, client, secret, agent, subreddits, apprise, then each subreddit entry's mapping, include and exclude checks |
| Config.ValidateLowercases | app.py:188-195 | a valid configuration has distinct, lower-case subreddit names, exactly the lower-cased configured names, and only lower-case terms |
| Config.ValidateLastEntryWins | app.py:188-195 | each lower-cased subreddit name holds the normalised filters of the last entry whose name lower-cases to it |
| Startup.ValidateSubreddits | app.py:199-211 | the check is fatal iff some lookup is a redirect; the message is "Invalid Subreddit: " plus the first such name; earlier lookups are all non-redirects; with no redirect, every subreddit is looked up despite other API errors |

## Left out

- Text.Lower: lower-cases only the ASCII letters A-Z. Python's `str.lower` also maps non-ASCII letters, so titles and terms are compared here as if they were ASCII.
- YAML parsing, the config-file existence check and the environment settings `RPN_CONFIG` and `RPN_LOGGING` (app.py:12-13, app.py:114-147) are file I/O and library calls. The model starts from the parsed document.
- The document is taken to be a mapping whose keys are all strings, so no other document can be represented. In the code, such documents go as follows:
  - A top-level list or string reaches the `"reddit" not in config` test (app.py:152). It stops with "Invalid config: missing reddit config" when it does not hold "reddit". When it does, indexing it raises `TypeError` on the same line.
  - A top-level number raises `TypeError` at app.py:152.
  - Non-string keys at the top level, in the `reddit` section or in a filter mapping are never looked up, so they do not change the outcome.
  - A non-string subreddit name is reported by its text when its filters are malformed (app.py:177, app.py:183, app.py:186). When its filters are valid, it raises `AttributeError` at app.py:195.
- The Reddit client (PRAW): client construction (app.py:95-101), the combined `"+".join(...)` subscription (app.py:44-46), `skip_existing=True` and the blocking iteration belong to the library. The stream is a finite trace of submissions and API errors, and its end stands for the keyboard interrupt.
- The Apprise client (app.py:104-111) and its delivery are foreign calls. A notification is appended to the coordinator's log.
- `time.sleep(30)`, the interrupt's exit message, every `print`, and the `LOGGING` branch with its float timestamp (app.py:59-67, app.py:82-84) are timing, signals and console output.
- A submission from a subreddit that is not configured raises `KeyError` at app.py:74. `Filter.Process` and the stream instead require the lower-cased subreddit name to be configured, because the stream only delivers configured subreddits.
- Exceptions other than PRAW and prawcore ones, raised while streaming or while checking subreddits, end the program. They are not modelled.
- `main` (app.py:23-39) only wires the pieces together: validated configuration, then the subreddit check, then the stream. That composition is not a separate member.
