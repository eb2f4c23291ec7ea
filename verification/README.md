# OOLA story platform: checkout lifecycle model

OOLA is a collaborative story platform. An author creates a story in one of
the platform's languages, and the story's text lives as a Markdown file in
that language's remote repository. To contribute, an author checks the story
out, which gives that author exclusive use of it for seven days. The author
then checks in between 50 and 1312 words. The check-in appends those words
to the remote file, credits the author as a contributor and makes the story
available again. An hourly sweep reclaims checkouts that are more than seven
days old.

This project models that lifecycle in Dafny:

- `Platform.Server` is a class. Its fields are the relational tables the
  handlers read and write: stories, the checkout log, the contributor table
  and the story id counter. It also holds the remote content store as a
  value. Each handler is a method that changes these fields.
- `Tables` holds the rows. It also holds the two log queries, "the latest
  open checkout" and "the expired checkouts". Finally, it holds the
  invariant the lifecycle keeps:
  - a story is `checked_out` exactly when it has one open log entry, and
    otherwise it has none;
  - open entries still carry their column defaults;
  - a story's word total is the sum of its log entries' `words_added`;
  - the contributor table holds exactly the (story, user) pairs of the
    entries their holder closed by a check-in.

  There is one preservation lemma per table change.
- `ContentStore` models the remote repositories as a versioned map. Each
  file has a version token, and a write must name the file's current token.
- `Filename`, `Template`, `Words` and `Decimal` model the pure string code:
  - the file name built from the title;
  - the Markdown of a new story file and of a contribution;
  - trimming and word counting;
  - decimal rendering of ids and counts.

The host's availability and the clock are parameters (`reachable`, `now`,
`today`).

## Model

| member | source | states |
|---|---|---|
| ContentStore.CreateStoryFile | github-service.js:11-25 | A create succeeds exactly when the host answers and the path has no file. On success the file holds the content under a fresh token. On failure the store is unchanged. |
| ContentStore.GetStoryContent | github-service.js:27-40 | A read succeeds exactly when the host answers and the file exists, and it returns that file's text and token. It reports NotFound only when the host answered. |
| ContentStore.UpdateStoryFile | github-service.js:42-57 | A write succeeds exactly when the host answers, the file exists and the given token is the current one. On success it returns the new token. A refused write leaves the store unchanged. Token freshness is preserved. |
| ContentStore.ReadYourWrite | github-service.js:27-57 | Reading right after a successful write returns the written text with the token the write returned. |
| ContentStore.WriteWithFreshSha | server.js:365-371 | A write that names the token just read fails only when the host does not answer. |
| ContentStore.SecondWriterRefused | github-service.js:42-57 | When two writers used the same token, the second write is refused with StaleSha and the first writer's text stays (no lost update). |
| ContentStore.CreateOnce | github-service.js:11-25 | A second create on the same path fails with AlreadyExists and keeps the first text. |
| Decimal.Show | server.js:326 | The rendering of a number is a non-empty run of digits, and it starts with `0` only for zero. |
| Decimal.ValueOfShow | github-service.js:76 | Reading the rendered digits back gives the number. |
| Decimal.ShowInjective | github-service.js:76 | Different numbers render differently. |
| Words.Trim | server.js:303 | `trim` gives the input with its leading and trailing whitespace runs removed. The result is empty exactly when the input is all whitespace. Otherwise it neither starts nor ends with whitespace. |
| Words.Split | server.js:320 | Splitting on whitespace runs gives at least one piece. No piece holds whitespace, and only the first and the last piece can be empty. The first is non-empty when the text starts with a non-space. |
| Words.WordCount | server.js:320 | The count is never below one, and whitespace-only text counts exactly one. |
| Words.SplitOfTrimmed | server.js:320 | On trimmed non-empty text, splitting on whitespace runs gives exactly the maximal non-whitespace tokens. |
| Words.WordCountIsTokenCount | server.js:320 | The handler's count equals the number of whitespace-separated tokens of any text that is not whitespace only. |
| Words.TokensOfJoin | server.js:320 | Words joined by single spaces tokenise back into the same words. |
| Words.WordCountOfJoin | server.js:320-324 | A text of k single-spaced words counts k. It is accepted exactly when 50 <= k <= 1312, so 49 and 1313 are refused. |
| Filename.LowerChar | github-service.js:73 | An ASCII capital becomes the lower-case letter at the same position in the alphabet. Every other character except U+0130 and U+212A is kept as it is. No result holds an ASCII capital. |
| Filename.Lower | github-service.js:73 | Lower-casing never shortens the text and leaves no ASCII capital. |
| Filename.LowerCharwise | github-service.js:73 | Without U+0130, lower-casing keeps the length, and each character becomes its own lower case at the same position. |
| Filename.LowerOfAppend | github-service.js:73 | Lower-casing works character by character: the lower case of a concatenation is the concatenation of the lower cases. |
| Filename.CollapseRuns | github-service.js:74 | After replacement, only `[a-z0-9-]` remains and no two dashes are adjacent. A leading letter or digit is kept. |
| Filename.CollapseIsJoinedRuns | github-service.js:74 | The replacement gives the maximal runs of letters and digits joined by single dashes. One dash is added in front when the text starts with a separator, and one behind when it ends with one after a run. Text of separators only becomes a single dash. |
| Filename.TrimDashes | github-service.js:75 | Trimming removes a run of dashes from each end and nothing else. The result is empty exactly when the input is all dashes, and otherwise neither starts nor ends with a dash. A collapsed string trims to a slug: letters, digits and single inner dashes. |
| Filename.Clean | github-service.js:72-75 | The cleaned title is always a slug. |
| Filename.CleanIsJoinedRuns | github-service.js:72-75 | The cleaned title is the maximal runs of letters and digits of the lower-cased title, joined by single dashes. |
| Filename.GenerateFilename | github-service.js:71-77 | The file name starts with `story-`, ends with `.md` and uses only `[a-z0-9.-]`. |
| Filename.FilenameNamesItsStory | github-service.js:76 | The story id can be read back from the digits after `story-`, whatever the title. |
| Filename.DistinctStoriesDistinctFiles | server.js:161-164 | Two different story ids never get the same file name, even with equal titles. |
| Filename.CleanKeepsSlugs | github-service.js:72-75 | A title that is already a slug comes out unchanged. |
| Filename.CleanIdempotent | github-service.js:72-75 | Cleaning twice gives the same result as cleaning once. |
| Filename.CleanKeepsLettersAndDigits | github-service.js:72-75 | Cleaning keeps every letter and digit of the lower-cased title, in order. Only separators change. |
| Template.FormatStoryContent | github-service.js:79-97 | The file starts with the preamble: the title line, then the genre, language, creator and theme lines. It ends with the `---` / `## Story Content` heading followed by the content. The plot section comes right after the preamble exactly when there is an initial plot, and it holds that plot. Without a plot, the file is the preamble, then the content heading, then the content. |
| Template.AppendContribution | server.js:355-362 | The merged file starts with the stored text and ends with the new text. Between them is the contribution banner with the author and the date. |
| Template.ContributionReportsCount | server.js:355-362 | The number just above the contributed text reads back as the word count. |
| Tables.AuthorName | server.js:352 | The shown name is the pen name when it is set, and the username otherwise. It is empty only when both are empty. |
| Tables.LatestOpen | server.js:309-313 | The query finds nothing exactly when no matching open entry exists. Otherwise it gives a matching open entry with the latest checkout time, and no later row has the same time. |
| Tables.ExpiredEntries | server.js:482-489 | The sweep's query gives, in increasing log order, exactly the positions of the open entries more than seven days old whose story and language rows exist. |
| Tables.CheckedOutIffOneOpen | server.js:278-285 | Under the invariant, a story never has two open checkouts. It is checked out exactly when it has one. |
| Tables.LatestOpenIsTheCheckout | server.js:441-448 | Under the invariant, the latest-open query finds the story's single open entry (when its holder qualifies). It finds nothing for a story that is not checked out. |
| Tables.CheckoutKeepsInvariant | server.js:278-285 | Flipping an available story to checked out and logging one open entry keeps the invariant. |
| Tables.CheckinKeepsInvariant | server.js:377-394 | Closing the holder's entry with its words, crediting the story total with the same count, making the story available and adding the (story, holder) pair keeps the invariant. |
| Tables.ReclaimKeepsInvariant | server.js:494-506 | Closing an open entry with the auto flag and making its story available keeps the invariant. Totals and contributors are untouched. |
| Tables.NewStoryKeepsInvariant | server.js:155-161 | Inserting a new available row with no words and no log entries keeps the invariant. |
| Tables.DropStoryKeepsInvariant | server.js:197-198 | Deleting a row that no log entry names keeps the invariant. |
| Platform.HttpStatus | server.js:145-403 | Every error reply is 400, 403, 404 or 500. It is 404 exactly for a missing story and 403 exactly for a non-author checkout. |
| Platform.Message | server.js:145-403 | An error message starts with "Failed to " exactly when its status is 500. |
| Platform.OutOfRangeMessageReportsCount | server.js:324-327 | The rejection message's count reads back as the exact word count. |
| Platform.ValidateCheckin | server.js:303-328 | The check-in's checks, in the handler's order: blank content, then no open checkout held by the user, then a count outside 50..1312, each with its error. On success, it returns the user's latest open checkout and a token count within bounds. |
| Platform.ExpiredSweep | server.js:491-507 | Reclaiming the query's positions in order reclaims exactly the expired entries. It releases exactly the stories that have one. |
| Platform.Server.Locate | server.js:331-338 | When the tables are consistent, the check-in's story join finds a row exactly when the story exists. The row gives the repository of the story's language and the story's file path. |
| Platform.Server.InsertStory | server.js:155-161 | The row is stored under the next counter value, which no row or log entry used before. The invariant is kept. |
| Platform.Server.AttachFile | server.js:188-189 | Only the row's file path and the remote store change. |
| Platform.Server.DropStory | server.js:197-198 | Only the row is removed. |
| Platform.Server.PublishStory | server.js:163-200 | The file is created exactly when the host answers and the path is free, with the formatted story card as its text, and the row records the path. Otherwise the row is deleted and the store is unchanged. |
| Platform.Server.CreateStory | server.js:141-205 | A missing field is refused with nothing changed. A missing genre, language or user makes the INSERT fail, with CreateFailed and nothing changed. Otherwise the story exists afterwards exactly when its file was created, and a refusal leaves the tables and the store as they were. The invariant is kept. |
| Platform.Server.Checkout | server.js:258-296 | It succeeds exactly when the story exists and is available and the caller is an author. The errors come in the handler's order, and each changes nothing. On success the story is checked out and exactly one open entry is appended, whose row id is returned. The invariant is kept. |
| Platform.Server.CommitCheckin | server.js:377-394 | The entry is closed with its words, the story total rises by the same count, the story is available and the holder is a contributor. |
| Platform.Server.RemoteFault | server.js:330-375 | No step fails exactly when the story joins to a file path that exists in the store, both host calls are answered and the holder has a user row. Otherwise it gives the first failing step's error: a failed join or a missing holder is CheckinFailed, a failed read is RemoteReadFailed, and a failed write is RemoteUpdateFailed. |
| Platform.Server.MergeContribution | server.js:340-394 | When a remote step fails, nothing changes. Otherwise the file becomes the stored text plus the contribution, and then the tables are committed. |
| Platform.Server.Checkin | server.js:298-405 | A validation or remote failure returns its error and changes no table or file. Success returns the word count, writes the merged file and commits the check-in to the tables. The invariant is kept. |
| Platform.Server.CheckoutStatus | server.js:437-461 | Reports no checkout exactly when the story has no open entry whose holder has a user row. Otherwise it reports the latest such entry, its holder's name, whether the holder is the caller, and a deadline seven days after it began. |
| Platform.Server.StatusMatchesStoryTable | server.js:437-461 | The status query reports a checkout exactly when the story row is checked out, and then it names the single holder and that checkout's deadline. |
| Platform.Server.Reclaim | server.js:494-506 | One open entry is closed with the auto flag, and its story becomes available. |
| Platform.Server.ReclaimAll | server.js:491-507 | Reclaiming the given positions one by one gives the swept log and the released stories. |
| Platform.Server.AutoCheckin | server.js:480-515 | Every expired entry is closed with the auto flag and every other entry is unchanged. A story becomes available exactly when one of its entries expired. Words, contributors and files are untouched. The invariant is kept. |

## Left out

- HTTP, sessions and authentication are not modelled. The caller's user id is a parameter, and each error is a value of `Platform.Error` with its status code and message.
- Registration, login, the listing and detail queries, the contributors query, image requests and `public/app.js` are not part of this model.
- `checkRepoExists` (github-service.js:59-69) is not modelled. None of the modelled handlers calls it.
- The Octokit transport and base64 encoding are not modelled. The host's answer is the `reachable` flag, and its error text is abstracted to one fixed string per failure kind (`Platform.ReasonText`).
- The `setInterval` timer and the console logging are not modelled. A sweep is one `AutoCheckin(now)` call.
- Clock values are integers in seconds. The contribution heading's date is the `today` parameter.
- Concurrency between handlers is not modelled. Every handler runs to completion before the next one starts. A second writer is covered only at the content-store level, by `ContentStore.SecondWriterRefused`.
- No database statement fails except the `stories` INSERT that a foreign key refuses (see `Platform.Server.CreateStory`). I/O and locking errors of the database are not modelled. The other failures modelled are missing rows and refused remote calls.
- Platform.Server.AutoCheckin: the code runs the whole sweep in one `try`, so an exception would stop the remaining entries. In this model no statement can fail, so every expired entry is processed.
- Ids are unbounded naturals, and 0 stands for a missing (falsy) id. JavaScript number precision and SQLite's 64-bit row ids are not modelled.
- Filename.Clean: lower-casing is exact for ASCII and for the two other code points whose lower case contains an ASCII letter (U+0130 and U+212A). Every other character is kept as it is. This cannot change the result, because neither such a character nor its real lower case is in `[a-z0-9]`, so both are replaced by a dash.
- Words.Trim: whitespace is the ECMAScript WhiteSpace and LineTerminator set. A missing `content` is treated as empty text.
- Platform.Server.RemoteFault: a story whose `github_file_path` is NULL counts as a failed read. The source passes NULL to the host, which refuses the read.
- Tables.LatestOpen: among open entries with equal checkout times, the later row is chosen. SQLite leaves that order unspecified.
- The `finished` status is in the schema (init-db.js:69), but no modelled handler sets it.
- Platform.Server.CreateStory: the store is assumed to enforce the foreign keys of `stories` (init-db.js:72-74), which better-sqlite3 does by default. So an INSERT naming a missing genre, language or user fails and leaves no row. Without that enforcement, the row would stay behind with no file.
- ContentStore.SecondWriterRefused: a version token here is a write counter, so every write makes a new one. The host's sha is a hash of the file's content, so two writes of the same text would give the same sha. This does not affect check-ins: the merged text is always longer than the stored one (`Template.AppendContribution`), so its hash differs too, unless two texts collide.
- Platform.Server.Checkout: the reply carries the new log row's id, as in server.js:290, not the deadline.
