# theqoo keyword alerts — a Dafny model

The repository holds two small programs. Both watch the BL board of theqoo
(`https://theqoo.net/bl`) and send a Telegram message when a post title
contains one of a few watched words.

* `theqoo_scraper.py` fetches the board every five minutes.
  * It keeps one piece of state between runs: the title of the last post it dealt with (`last_checked_title`).
  * It reverses the fetched list and resumes just after that title. It alerts once for every later post whose title contains `도둑들`, `밤식` or `범식`, then remembers a new title.
  * `run_scraper` retries a run that fetched nothing, up to three attempts, sleeping after each failure.
* `theqoo-fetcher/index.js` renders the page and extracts up to 30 posts with regular expressions.
  * For each title cell it picks the category ("preface") anchor and the main anchor.
  * It cleans the title: strips tags, decodes five HTML entities, collapses whitespace and trims.
  * It drops titles of one code unit or less, then builds the url and the prefixed full title.
  * It sends `🐣 title` for posts mentioning `도둑들`, and `🌰 title` plus the url for posts mentioning `주한` or `민재`.

The model has four modules:

* `Scraper` (`scraper.dfy`) is imperative, like the Python code.
  * A `ScraperState` class holds `lastCheckedTitle` and an `outbox` of sent messages.
  * `CheckForNewPosts`, `ScanAndAlert` and `RunScraper` are methods over it.
  * The reversal is done in place on an array, and the start search and keyword loop are `while` loops.
  * Each method is proved against a function of its inputs: `CheckForNewPosts` and `RunScraper` against `NewAlerts` and `NextTitle`, `ScanAndAlert` against `Alerted`, `ReversePosts` against `Reverse`, `FindStart` against `StartIndex`, `MatchKeywords` against `HasKeyword`. The deduplication promise is proved about `NewAlerts` and `NextTitle`.
* `Fetcher` (`fetcher.dfy`) is the JavaScript core.
  * The anchor loop, the 30-match loop and the message loop are methods with loops, and the per-cell body is a method. Each is proved equal to a function (`MainUrlOf`/`PrefaceOf`, `Candidate`, `ExtractPosts`, `Notifications`).
  * Lemmas about those functions state what a post and an alert look like.
* `Text` (`text.dfy`) gives the string operations explicit definitions:
  * substring search;
  * JavaScript `\s` whitespace and `trim`;
  * `replace(/<[^>]*>/g, '')`;
  * a literal global `replace`;
  * `replace(/\s+/g, ' ')`;
  * `length` in UTF-16 code units.
* `Options` (`options.dfy`) holds `Option` and `Somes`, the values of the `Some`s in a sequence.

**The model follows the code, which is narrower than a keyword watcher might be:**
* Keyword matching is a case-sensitive substring test.
* The scraper has no set of seen posts, only the single remembered title.
* The fetcher keeps no state between runs, so it alerts again on every run.

**The dedup promise needs non-empty titles.** Python's `if last_checked_title:` treats a remembered empty title as "nothing remembered". `NoDuplicateAlerts` therefore needs distinct, non-empty titles. `EmptyTitleReAlerts` gives the concrete list on which the promise fails without that condition.

## Model

| member | source | states |
|---|---|---|
| Scraper.ScraperState.CheckForNewPosts | theqoo_scraper.py:75-120 | An empty fetch reports failure and leaves the title and the outbox as they were. Otherwise it reports success, the outbox grows by exactly one alert text per post of `NewAlerts` in order, and the remembered title becomes `NextTitle` (the last alerted title, or else the newest post's title). |
| Scraper.ScraperState.ScanAndAlert | theqoo_scraper.py:101-111 | The posts alerted from `posts[start..]` are exactly those whose title has a keyword, in list order, each once however many keywords it has. The outbox grows by their alert texts. |
| Scraper.ScraperState.RunScraper | theqoo_scraper.py:122-135 | The attempts stop at the first attempt that fetches posts; that run's effect happens, with one sleep per earlier failure. If all three attempts fetch nothing: three attempts, three sleeps, state unchanged. |
| Scraper.ScraperState.constructor | theqoo_scraper.py:26-28 | The program starts with no remembered title (`""`) and nothing sent. |
| Scraper.Reverse | theqoo_scraper.py:88 | Definition: the list in reverse order, position i holding the old position n-1-i. |
| Scraper.HasKeyword | theqoo_scraper.py:106-107 | Definition: some keyword of the list is a substring of the title. |
| Scraper.AlertMessage | theqoo_scraper.py:108 | Definition: the alert text, `새로운 글 알림!`, a blank line, then the title line and the link line. |
| Scraper.Messages | theqoo_scraper.py:108-109 | Definition: one alert text per alerted post, in order. |
| Scraper.Alerted | theqoo_scraper.py:101-111 | Definition: the posts of a list whose title has a keyword, in order, each once. |
| Scraper.NewAlerts | theqoo_scraper.py:88-111 | Definition: one run's alerts, the keyword posts of the reversed list from the resume point on. |
| Scraper.NextTitle | theqoo_scraper.py:113-118 | Definition: the title remembered after a run. It stays the same for an empty fetch, becomes the last alerted title if any, and otherwise the last post of the reversed list (the newest). |
| Scraper.ReversePosts | theqoo_scraper.py:88 | The array afterwards holds the old contents in reverse order. |
| Scraper.FindStart | theqoo_scraper.py:92-99 | The linear search returns the scan start `StartIndex` for the remembered title. |
| Scraper.StartIndex | theqoo_scraper.py:92-99 | The start is 0 exactly when no title is remembered or no post carries it. Otherwise it is just after the first post carrying the title. |
| Scraper.TitleIndex | theqoo_scraper.py:96 | Returns the first position whose post has the title, or None when no post has it. |
| Scraper.MatchKeywords | theqoo_scraper.py:106-111 | The loop that stops at the first matching keyword returns true exactly when some keyword occurs in the title. |
| Scraper.FirstSuccess | theqoo_scraper.py:126-133 | Returns the first attempt below `MAX_RETRIES` whose fetch is non-empty, with every earlier attempt empty. None means all attempts are empty. |
| Scraper.AlertedStep | theqoo_scraper.py:101-111 | Scanning one more post adds that post to the alerts exactly when its title has a keyword. |
| Scraper.ScanStep | theqoo_scraper.py:101-111 | Scanning the next post of the list adds it to the alerts exactly when its title has a keyword. |
| Scraper.MessagesStep | theqoo_scraper.py:108-109 | One more alerted post adds exactly its alert text. |
| Scraper.AlertedAppend | theqoo_scraper.py:101-111 | Scanning two lists in turn alerts the first's hits, then the second's. |
| Scraper.AlertedCount | theqoo_scraper.py:106-111 | A post occurring n times is alerted n times if its title has a keyword and 0 times otherwise. |
| Scraper.AlertedMembers | theqoo_scraper.py:101-111 | A post is alerted exactly when it is in the scanned list and its title has a keyword. |
| Scraper.LastAlertHit | theqoo_scraper.py:113-115 | The last alerted post is a keyword hit in the list, and no post after it is alerted. |
| Scraper.StartAfterTitle | theqoo_scraper.py:93-96 | With distinct titles, resuming after a post's non-empty title resumes just after that post. |
| Scraper.ReverseDistinct | theqoo_scraper.py:88 | Reversal keeps titles distinct. |
| Scraper.ResumeAfterLastAlert | theqoo_scraper.py:113-115 | Resuming after the last alerted title finds nothing more to alert. |
| Scraper.LastAlertAt | theqoo_scraper.py:113-115 | Locates the last post alerted from a suffix of the list: nothing after it is alerted. |
| Scraper.ResumeAfter | theqoo_scraper.py:93-96 | Resuming after a post (distinct, non-empty titles) with no keyword post after it alerts nothing. |
| Scraper.NoDuplicateAlerts | theqoo_scraper.py:26-28 | For fetched titles that are distinct and non-empty, a second run on the same list, from the state the first run left, alerts on nothing. |
| Scraper.EmptyTitleReAlerts | theqoo_scraper.py:116-118 | Counterexample: a list whose newest title is empty makes the first run remember "". A second run on the same list then alerts on a post the first run had already passed. |
| Fetcher.SelectAnchors | theqoo-fetcher/index.js:22-32 | The anchor loop's results. `preface` is the last preface anchor's stripped, trimmed content. `mainUrl` is the trimmed href of the first non-preface anchor whose href is not all whitespace, and `mainTitle` is that anchor's trimmed content. |
| Fetcher.SelectStep | theqoo-fetcher/index.js:26-30 | One turn of the anchor loop keeps the three loop variables equal to the main url, main title and preface of the anchors seen so far, in each of the code's three branches. |
| Fetcher.IsPreface | theqoo-fetcher/index.js:26 | Definition: the anchor's whole matched text contains `class='preface'`. |
| Fetcher.IsMainCandidate | theqoo-fetcher/index.js:28-29 | Definition: a non-preface anchor whose href is not all whitespace, so its trimmed href is non-empty. |
| Fetcher.FirstMain | theqoo-fetcher/index.js:28-30 | Definition: the first anchor that supplies the main url and title. |
| Fetcher.PrefaceOf | theqoo-fetcher/index.js:26-27 | Definition: the last preface anchor's content, tags stripped and trimmed, or `""`. |
| Fetcher.PrefaceStep | theqoo-fetcher/index.js:26-27 | A later preface anchor overrides an earlier one; other anchors leave the preface alone. |
| Fetcher.MainStep | theqoo-fetcher/index.js:28-30 | The main choice changes only when the code's test passes: a non-preface anchor, no main url yet, and a non-empty href. An all-blank href leaves `mainUrl` empty, so the search goes on. |
| Fetcher.MainUrlOf | theqoo-fetcher/index.js:28-29 | The main url is empty exactly when no anchor can supply it. |
| Fetcher.FirstWhere | theqoo-fetcher/index.js:28 | Returns the first position satisfying the test, or None when none does. |
| Fetcher.FirstWhereSnoc | theqoo-fetcher/index.js:28 | Once a position is found, further elements do not change it. |
| Fetcher.LastWhere | theqoo-fetcher/index.js:26-27 | Returns the last position satisfying the test, or None when none does. |
| Fetcher.CleanTitleSpec | theqoo-fetcher/index.js:35-43 | A cleaned title has no whitespace at its ends, no two whitespace characters in a row, and only plain spaces as whitespace. It keeps every non-whitespace character of the decoded, tag-stripped text. |
| Fetcher.CleanTitleRun | theqoo-fetcher/index.js:35-43 | When the decoded, tag-stripped text is a part ending in non-whitespace, a whitespace run and a part starting with non-whitespace, the cleaned title is the two parts, each cleaned on its own, joined by exactly one space. |
| Fetcher.DecodeEntities | theqoo-fetcher/index.js:37-41 | Definition: five single global replacements in the code's order: `&quot;`, `&amp;`, `&lt;`, `&gt;`, `&nbsp;`. |
| Fetcher.CleanTitle | theqoo-fetcher/index.js:35-43 | Definition: strip tags, decode entities, collapse whitespace, trim. |
| Fetcher.Candidate | theqoo-fetcher/index.js:34-53 | Definition: the post built from a cell. None when there is no main anchor, the main title is empty or the cleaned title is at most one code unit. Otherwise the url is `https://theqoo.net` + main url and the full title has the `[preface] ` prefix when the preface is non-empty. |
| Fetcher.CandidateSpec | theqoo-fetcher/index.js:34-53 | A cell yields a post exactly when it has a main anchor whose cleaned title is longer than one UTF-16 code unit. Such a post is well formed: a clean title, url = `https://theqoo.net` + a non-empty path, a trimmed preface, and full title `[preface] title` or just the title. |
| Fetcher.PostFromCell | theqoo-fetcher/index.js:18-53 | The loop body for one cell yields exactly `Candidate`. |
| Fetcher.GetPostsFromHtml | theqoo-fetcher/index.js:12-60 | Only the first 30 matches are examined. The result is the posts they yield in match order, at most 30, all well formed. |
| Fetcher.ExtractPosts | theqoo-fetcher/index.js:12-52 | Definition: the posts the cells yield, in cell order, dropped cells left out. |
| Fetcher.ExtractSnoc | theqoo-fetcher/index.js:52 | One more cell appends its post, if it yields one. |
| Fetcher.ExtractLength | theqoo-fetcher/index.js:12-53 | At most one post per cell. |
| Fetcher.ExtractMembers | theqoo-fetcher/index.js:46-52 | A post is extracted exactly when some cell yields it. |
| Fetcher.ExtractWellFormed | theqoo-fetcher/index.js:45-52 | Every extracted post is well formed. |
| Fetcher.ExtractAppend | theqoo-fetcher/index.js:12-52 | Extraction keeps cell order. |
| Fetcher.ChooseTemplate | theqoo-fetcher/index.js:89-93 | `도둑들` selects the chick template, even when `주한` or `민재` also occurs. Otherwise `주한` or `민재` selects the chestnut template, and else no message. |
| Fetcher.DisplayTitle | theqoo-fetcher/index.js:87 | Definition: `fullTitle`, or `title` when `fullTitle` is empty. |
| Fetcher.Render | theqoo-fetcher/index.js:90-92 | Definition: `🐣 ` + title, or `🌰 ` + title + newline + url. |
| Fetcher.MessageFor | theqoo-fetcher/index.js:87-93 | Definition: the alert text for a post's shown title under the chosen template, or None. |
| Fetcher.ParseRender | theqoo-fetcher/index.js:90-92 | An alert text gives back its template and the whole title it was made from. |
| Fetcher.DisplayTitleOfWellFormed | theqoo-fetcher/index.js:87 | For an extracted post the alert shows the full title, preface included, and decodes to it. |
| Fetcher.NotifyPosts | theqoo-fetcher/index.js:86-99 | The messages sent are exactly `Notifications` of the posts, at most one per post. |
| Fetcher.Notifications | theqoo-fetcher/index.js:86-99 | Definition: the messages of the posts that have one, in post order. |
| Fetcher.NotificationsSnoc | theqoo-fetcher/index.js:95-96 | One more post appends its message, if it has one. |
| Fetcher.NotificationsAppend | theqoo-fetcher/index.js:86-99 | Alerts go out in post order. |
| Fetcher.NotifiedIff | theqoo-fetcher/index.js:95-96 | A message is sent exactly when some post's choice produces it. |
| Fetcher.NotificationsExample | theqoo-fetcher/index.js:86-99 | Three posts (a `도둑들` one, a `주한`/`민재` one, one with neither) send exactly the chick alert, then the chestnut alert with its url. |
| Fetcher.ReplaceMissesAfterHead | theqoo-fetcher/index.js:37-41 | An entity cannot match at an `&` whose next character differs from the entity's second. |
| Fetcher.ReplaceLeadingEntity | theqoo-fetcher/index.js:37-41 | A text that starts with the entity and has no other `&` loses exactly that entity. |
| Fetcher.QuotPassSkipsEscaped | theqoo-fetcher/index.js:37 | The `&quot;` pass leaves `&amp;` alone. |
| Fetcher.AmpPassUnescapes | theqoo-fetcher/index.js:38 | The `&amp;` pass turns `&amp;` into `&`. |
| Fetcher.FirstTwoPasses | theqoo-fetcher/index.js:37-38 | The `&quot;` and `&amp;` passes turn a leading `&amp;` into `&` and leave the rest alone. |
| Fetcher.DecodeAmpThenLt | theqoo-fetcher/index.js:37-41 | Because the passes run in order, `&amp;lt;` decodes all the way to `<`. |
| Fetcher.LastThreeAfterLt | theqoo-fetcher/index.js:39-41 | The `&lt;`, `&gt;` and `&nbsp;` passes decode a leading `&lt;` and nothing else. |
| Fetcher.DecodeAmpThenQuot | theqoo-fetcher/index.js:37-41 | `&amp;quot;` decodes only to `&quot;`, because the `&quot;` pass has already run. |
| Fetcher.LastThreeKeepQuot | theqoo-fetcher/index.js:39-41 | The `&lt;`, `&gt;` and `&nbsp;` passes leave a leading `&quot;` alone. |
| Fetcher.QuotSurvives | theqoo-fetcher/index.js:39-41 | The later passes leave `&quot;` alone. |
| Fetcher.DecodeWithoutAmpersand | theqoo-fetcher/index.js:37-41 | Text without `&` is not changed by decoding. |
| Fetcher.DecodeLeavesNoNbsp | theqoo-fetcher/index.js:41 | Decoded text holds no `&nbsp;`. |
| Fetcher.AmpPassNotIdempotent | theqoo-fetcher/index.js:38 | One `&amp;` pass can leave an `&amp;` behind: `&amp;amp;` becomes `&amp;`. |
| Text.Contains | theqoo_scraper.py:107 | The substring test holds exactly when the pattern occurs at some position. |
| Text.IsSpace | theqoo-fetcher/index.js:42-43 | Definition: the characters JavaScript's `\s` and `trim` treat as whitespace (tab, line feed, vertical tab, form feed, carriage return, space, no-break space, the Unicode space separators, line and paragraph separators, byte-order mark). |
| Text.ShiftOccurrence | theqoo-fetcher/index.js:26 | Occurrences in the tail are the occurrences after position 0. |
| Text.NonSpaceAppend | theqoo-fetcher/index.js:42-43 | The non-whitespace characters of a concatenation are those of each part. |
| Text.TrimStart | theqoo-fetcher/index.js:43 | Definition: drops leading whitespace; never longer than its input. |
| Text.TrimStartSuffix | theqoo-fetcher/index.js:43 | Trimming the start removes only leading whitespace. |
| Text.TrimStartHead | theqoo-fetcher/index.js:43 | The result starts with non-whitespace, and is empty exactly for all-whitespace input. |
| Text.TrimStartNonSpace | theqoo-fetcher/index.js:43 | Trimming the start keeps all non-whitespace. |
| Text.TrimEnd | theqoo-fetcher/index.js:43 | Definition: drops trailing whitespace. |
| Text.TrimEndPrefix | theqoo-fetcher/index.js:43 | Trimming the end removes only trailing whitespace. |
| Text.TrimEndLast | theqoo-fetcher/index.js:43 | The result ends with non-whitespace. |
| Text.TrimEndNonSpace | theqoo-fetcher/index.js:43 | Trimming the end keeps all non-whitespace. |
| Text.Trim | theqoo-fetcher/index.js:27-30 | Definition: `trim`, dropping whitespace at both ends. |
| Text.TrimSlice | theqoo-fetcher/index.js:27 | `trim` gives a slice of its input with only whitespace cut off at either end. |
| Text.TrimOuter | theqoo-fetcher/index.js:29-30 | A trimmed text has no whitespace at either end. |
| Text.TrimEmpty | theqoo-fetcher/index.js:28-34 | A text trims to "" exactly when it is all whitespace. |
| Text.TrimNonSpace | theqoo-fetcher/index.js:43 | `trim` keeps every non-whitespace character. |
| Text.SliceNoDoubleSpace | theqoo-fetcher/index.js:43 | A slice of a text without two whitespace characters in a row has none either. |
| Text.TrimNoDoubleSpace | theqoo-fetcher/index.js:42-43 | Trimming keeps "no two whitespace in a row". |
| Text.TrimSpacesArePlain | theqoo-fetcher/index.js:42-43 | Trimming keeps "only plain spaces". |
| Text.CollapseSpaces | theqoo-fetcher/index.js:42 | Definition: each maximal whitespace run becomes one plain space. |
| Text.CollapseSpec | theqoo-fetcher/index.js:42 | Collapsing is empty exactly for empty input, and starts with a space exactly when the input does. It leaves no two whitespace characters in a row, only plain spaces, and every non-whitespace character. |
| Text.TrimStartSpaces | theqoo-fetcher/index.js:42 | Whitespace in front of text that starts with non-whitespace is exactly what `TrimStart` removes. |
| Text.TrimStartKeepsTail | theqoo-fetcher/index.js:43 | For text ending in non-whitespace, `TrimStart` stops inside it: what follows is kept whole, and so is the final character. |
| Text.TrimEndKeepsHead | theqoo-fetcher/index.js:43 | For text starting with non-whitespace, `TrimEnd` stops inside it: what comes before is kept whole. |
| Text.TrimJoin | theqoo-fetcher/index.js:43 | Trimming two words joined by one space trims each word only on its outer side, the space staying between them. |
| Text.CollapseLast | theqoo-fetcher/index.js:42 | A final non-whitespace character survives collapsing. |
| Text.CollapseAppend | theqoo-fetcher/index.js:42 | Text ending in non-whitespace collapses on its own: collapsing it followed by more text is collapsing each part. |
| Text.CollapseRun | theqoo-fetcher/index.js:42 | A non-empty whitespace run between a part ending in non-whitespace and a part starting with non-whitespace becomes exactly one plain space, each side collapsing on its own. |
| Text.Utf16Length | theqoo-fetcher/index.js:45 | `length` counts each character once or twice, between the character count and twice it. |
| Text.FirstIndexOf | theqoo-fetcher/index.js:36 | Returns the first position of the character. |
| Text.StripTags | theqoo-fetcher/index.js:36 | Definition: removes each `<` up to the first `>` after it, scanning left to right. A `<` with no later `>` is kept. |
| Text.StripTagsNoNewClose | theqoo-fetcher/index.js:36 | Stripping tags introduces no `>`. |
| Text.StripTagsTagFree | theqoo-fetcher/index.js:36 | After stripping, no `<` is followed by a `>`: no tag is left. |
| Text.StripTagsUnchanged | theqoo-fetcher/index.js:36 | Text with no `<` or no `>` is unchanged. |
| Text.FirstIndexAfter | theqoo-fetcher/index.js:36 | The first `c` after a `c`-free prefix is right after it. |
| Text.StripLeadingTag | theqoo-fetcher/index.js:27 | A leading tag is removed. |
| Text.StripKeepsFirst | theqoo-fetcher/index.js:36 | A first character other than `<` is kept. |
| Text.StripKeepsPrefix | theqoo-fetcher/index.js:36 | A `<`-free prefix passes through unchanged. |
| Text.StripTagsRemovesTag | theqoo-fetcher/index.js:36 | A tag after a `<`-free prefix is removed as one piece. |
| Text.ReplaceAll | theqoo-fetcher/index.js:37-41 | Definition: a literal global replace, scanning left to right without rescanning inserted text. |
| Text.ReplaceAllAbsent | theqoo-fetcher/index.js:37-41 | Replacing an absent pattern changes nothing. |
| Text.NoHeadAbsent | theqoo-fetcher/index.js:37-41 | A pattern whose first character is missing from the text does not occur in it. |
| Text.ReplaceAllNoHead | theqoo-fetcher/index.js:37-41 | Text without the pattern's first character is unchanged. |
| Text.ReplaceAllSelf | theqoo-fetcher/index.js:37-41 | Replacing a pattern by itself changes nothing. |
| Text.PrefixBeforeReplace | theqoo-fetcher/index.js:37-41 | A prefix foreign to the replacement text was already there before the pass. |
| Text.ForeignPrefixAddsNothing | theqoo-fetcher/index.js:37-41 | Prepending characters foreign to the pattern creates no occurrence of it. |
| Text.ReplaceAllLeavesNone | theqoo-fetcher/index.js:37-41 | When the replacement shares no character with the pattern, one pass leaves no occurrence. |
| Options.Somes | theqoo-fetcher/index.js:52 | Definition: the values of the `Some` entries in order (`posts.push` only for kept cells). |
| Options.SomesAppend | theqoo-fetcher/index.js:52 | Collecting the results of two runs of cells in turn concatenates them. |
| Options.SomesLength | theqoo-fetcher/index.js:52 | At most one value per entry. |
| Options.SomesMembers | theqoo-fetcher/index.js:52 | The values collected are exactly those some entry holds. |

## Left out

- Fetching the board (`get_latest_posts`, theqoo_scraper.py:30-63, with requests and BeautifulSoup): a run receives the fetched list as a parameter, and a failed request is the empty list.
- Telegram (`send_telegram_message`, theqoo_scraper.py:65-73; `sendToTelegram`, index.js:107-118): a sent alert is appended to `outbox`, or to the returned list in the fetcher. Send errors are not modelled, and the two programs differ there: Python catches a `TelegramError` per message (theqoo_scraper.py:72-73) and goes on with the next post, while in index.js a rejected `fetch` or `res.json()` (:109-117) leaves the `for` loop of :86 for the `catch` at :100, so the later posts get no alert.
- Scheduling (`main`, theqoo_scraper.py:138-152) and the five-minute interval: one run or one `run_scraper` call is modelled, not the endless schedule loop.
- The sleep of `RETRY_INTERVAL_SECONDS`: the model counts sleeps, not time.
- Console output (`print`, `console.log`): it has no effect on the state.
- The browser session in index.js:63-84 and 100-104 (Playwright, page load, timeouts), and the `try`/`catch` around extraction and sending. The model starts from the posts or from the regular-expression matches.
- The two regular expressions of index.js:9-16 (the title cell and its anchors): the model is given, for each title cell, its anchor matches as text, href and content.
  - The regex guarantees a non-empty href without `"`; the model accepts any href.
  - Cells beyond the first 30 are ignored as in the code.
- Exceptions out of `get_latest_posts`: only a request error (theqoo_scraper.py:61-63) and a missing table (:46-47) give the empty list the model's `fetch` returns. A missing `tbody.hide_notice` (:50) or a row without `td.title` (:55) raises AttributeError, and an anchor without `href` (:58) raises KeyError. None of these is caught, so the error leaves `check_for_new_posts` and `run_scraper` without a retry or a sleep. The model's `fetch: nat -> seq<Post>` always returns a list, so it does not capture these aborting runs.
