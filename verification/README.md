# Blog article index — a Dafny model

The blog keeps its articles in one index, `blog/articles.json`. Each record
has an id, title, date, tags, excerpt, status, read time and icon. It also
names the HTML page (`contentFile`, `blog/posts/<date>-<id>.html`) that is
rendered from `blog/post-template.html`. Several programs read or write that
index:

- the API server (`api/server.js`): a key check on every `/api` request, and
  list / get / create / update / delete handlers that keep the index and the
  pages in step;
- the command-line tool (`scripts/add-article.js`): asks for the fields,
  renders the page and adds the record;
- the validator (`scripts/validate-blog.js`): checks the index structure,
  each record and each page's `article-id` meta tag, and picks an exit code;
- the list page (`js/blog.js`): published records sorted by date, filtered by
  tag and search text, with each tag offered once, cached for an hour;
- the article page (`js/article.js`): published records newest first, the
  previous and next links, up to three related records, and the display date;
- the example Telegram bot (`api/telegram-bot-example.js`): a per-chat
  dialogue that collects a draft and posts it to the server.

The model is functional. The index is a `seq<Article>` and the files on disk
are a `map<string, string>` from path to contents. Each handler takes a store
and returns the new store with its reply. A thrown exception is an error
value, except in the bot: there nothing catches it, the process stops, and
the model returns the `Crashed` effect with every draft lost. Dates are
`YYYY-MM-DD` strings. They are ordered as strings, and
`Dates.IsoOrderIsChronological` proves that this order is the calendar order
for well-formed dates. `Array.prototype.sort` is modelled as a stable
insertion sort (`Articles.SortByDate`). The engine's `new Date(s)` is a
parameter of type `DateParser`. The template, today's date, the fetched JSON
and the `localStorage` entry are also parameters.

Modules: `Options`, `Strings` (JavaScript string built-ins), `Seqs`, `Slug`
(`generateId`), `Dates`, `Articles` (the record, lookup, the date sort),
`Template` (page rendering and reading the body back), `Auth`, `Server`,
`Cli`, `Validator`, `Blog`, `ArticlePage`, `Bot`.

## Model

| member | source | states |
|---|---|---|
| Auth.ApiKey | api/server.js:18 | An unset or empty `API_KEY` means no key; otherwise it is the key. |
| Auth.PresentedKey | api/server.js:39 | A non-empty X-API-Key header is the key presented. Otherwise a key is presented exactly when an Authorization header is present. |
| Auth.Authenticate | api/server.js:27-56 | Requests pass when auth is off, on a public GET of the articles, or with the configured key. Otherwise the result is 401 when no key is presented and 403 when a different one is presented. All three outcomes are stated as if-and-only-if. |
| Auth.XApiKeyTakesPrecedence | api/server.js:39 | With a non-empty X-API-Key, the Authorization header cannot change the decision. |
| Auth.BearerPresentsKey | api/server.js:39 | `Authorization: Bearer k` presents `k`. |
| Auth.EnabledWithoutKeyForbidsAll | api/server.js:18-19 | With `AUTH_ENABLED=true` and no key configured, every non-public request that carries a key is refused with 403. |
| Auth.KeyEnablesAuth | api/server.js:19 | Setting a non-empty `API_KEY` alone turns authentication on. |
| Auth.StrippedPathNeedsKey | api/server.js:33-35 | A path that starts with `/articles` is never a public read, so such a request passes only with the right key. |
| Auth.MountedListReadRefused | api/server.js:59 | As mounted under `/api`, a GET of the article list with no key is refused with 401 once authentication is on. |
| Auth.AuthenticateMounted | api/server.js:27-59 | The decision with the public-read test made on the full path (mount prefix restored). All three outcomes are stated as if-and-only-if. |
| Auth.MountedListReadAllowed | api/server.js:33-35 | With the prefix restored, anyone may GET the article list. |
| Auth.MountedWritesUnchanged | api/server.js:27-59 | The correction changes no decision for a verb other than GET. |
| Slug.StripDisallowed | api/server.js:65 | Only `a-z`, `0-9`, `-` and whitespace remain. |
| Slug.SpacesToHyphens | api/server.js:66 | Each whitespace run becomes one hyphen, so the result is in the slug alphabet. |
| Slug.SqueezeHyphens | api/server.js:67 | Hyphen runs collapse: the result never has two hyphens in a row. |
| Slug.GenerateId | api/server.js:62-69 | An id holds only `a-z`, `0-9` and `-`, and never two hyphens in a row. |
| Slug.TrimDoesNothing | api/server.js:68 | The final `trim()` never changes an id, because ids contain no whitespace. |
| Slug.EdgeHyphensSurvive | api/server.js:62-69 | The title `" a "` gives the id `"-a-"`: edge hyphens are kept. |
| Slug.GenerateIdIdempotent | scripts/add-article.js:27-34 | An id is its own id. |
| Slug.GenerateIdKeepsAlnums | api/server.js:62-69 | The id keeps exactly the lower-cased title's letters and digits, in order. |
| Slug.NoLatinGivesEmptyId | api/server.js:62-69 | A title with no ASCII letters, digits, hyphens or whitespace, such as a Cyrillic one, gets the empty id. |
| Strings.ParseIntToString | scripts/add-article.js:185 | `parseInt` reads back every integer that `String(n)` writes. |
| Strings.StringToNumberToString | scripts/validate-blog.js:101-104 | `Number`, applied by the excerpt length comparisons, reads back every integer that `String(n)` writes. |
| Strings.CommaIsNaN | scripts/validate-blog.js:101-104 | A text holding a comma converts to `NaN`, so both excerpt length comparisons are false. |
| Dates.FormatDateRoundTrip | js/article.js:218-230 | The display date "day month-name year" reads back to the same day, month and year. |
| Dates.MonthNamesDistinct | js/article.js:220-223 | Each genitive month name belongs to exactly one month. |
| Dates.IsoOrderIsChronological | api/server.js:268 | For `YYYY-MM-DD` strings, string order is the order of the day numbers. |
| Articles.FindById | api/server.js:281 | `findIndex` by id: found exactly when some record has the id; the index found is the first such record. |
| Articles.FindByIdUnique | js/article.js:236 | With unique ids, the record found is the one that carries the id. |
| Articles.SortByDate | api/server.js:268 | The result is sorted by date and is a permutation of the input. Records with the same date keep their relative order (stable sort). |
| Articles.Insert | api/server.js:267-268 | Inserting into a sorted index keeps it sorted and adds exactly that record, placing it after the other records with its date. |
| Articles.AppendedLandsLast | api/server.js:267-268 | A pushed record is sorted to just after the records that share its date. |
| Articles.UniqueIdsPermutation | api/server.js:268 | Re-sorting keeps ids unique. |
| Template.FirstMatchFrom | api/server.js:93-150 | Finds the leftmost position where a pattern matches, and no earlier match exists. |
| Template.ReplaceLeftmost | api/server.js:93-150 | `replace` with a non-global pattern changes only the leftmost match and keeps the rest of the text. |
| Template.RenderPage | api/server.js:145-150 | When the record has non-empty content and the header has a body block, the page's body reads back as that content, trimmed and cut at its first `</div>`. Without content the body block keeps the template's placeholder. A header with no body block is the whole page. |
| Template.BeforeClose | api/server.js:209 | The text up to the first `</div>`: a prefix of the content with no `</div>` in it. It is shorter than the content exactly when the content contains `</div>`. |
| Template.InnerSubstituted | api/server.js:146-149 | The lazy body pattern reads back the substituted content, trimmed and cut at its first closing tag. |
| Template.ExtractSubstituted | api/server.js:209-212 | Reading the body of a page whose body was substituted gives the trimmed content when it has no `</div>`, and otherwise only the part before it. |
| Server.LastSegment | api/server.js:153 | `split('/').pop()` contains no `/`. |
| Server.WritePathIsContentFile | api/server.js:153 | For a date and an id with no `/`, the page is written exactly at the record's `contentFile`. |
| Server.WritePage | api/server.js:85-157 | Succeeds exactly when the template exists. It writes the rendered page at the write path and leaves every other file as it was. |
| Server.NewRecord | api/server.js:232-250 | The created record: a generated id from the title. Each of date, excerpt, status, icon and content is the sent value when truthy and its default otherwise. Tags are the sent list when present and `[]` otherwise. The read time is the sent value unless missing or 0, when it is 5. |
| Server.Create | api/server.js:222-275 | 400 exactly when the title is missing or its id exists. 500 exactly when the template is then missing. A failure changes nothing. On success the new record is added once, its page written, and the index kept sorted. |
| Server.CreateLandsAfterSameDate | api/server.js:267-268 | The created record comes right after the existing records with its date. |
| Server.CreatePreservesUniqueIds | api/server.js:253-256 | Creating keeps ids unique. |
| Server.List | api/server.js:176-191 | Without a status the list is the whole index. With a status the list is the records with that status, in index order. `total` is the length. |
| Server.Get | api/server.js:194-219 | 404 exactly when no record has the id. Otherwise the first such record, with its content read from its page. |
| Server.CreateThenGet | api/server.js:209-212 | After a create, reading the new id gives the record with its content trimmed. This holds when the content has no `</div>` and the template has a body block. |
| Server.PageAtContentFile | api/server.js:153-154 | The page written for a slug id lies at `contentFile`. |
| Server.GetUnique | api/server.js:194-219 | With unique ids, reading any record's id returns that record. |
| Server.Merge | api/server.js:291-296 | An update never changes `id` or `contentFile`. Every other field is the sent value when it is sent and the old value otherwise, so an empty update changes nothing. |
| Server.MergeIdempotent | api/server.js:291-296 | Applying the same update twice equals applying it once. |
| Server.Update | api/server.js:278-316 | 404 exactly when the id is unknown. 500 exactly when the page must be re-rendered and the template is missing. Otherwise the first record with the id is replaced in place by the merged record. The page is re-rendered exactly when the content is sent, or a truthy title, date, tags or read time is sent. |
| Server.UpdateTouchesOneRecord | api/server.js:309 | An update keeps the length and unique ids, and changes no record with another id. |
| Server.Delete | api/server.js:319-344 | 404 exactly when the id is unknown. Otherwise the first record with the id and its page are removed, and nothing else changes. |
| Server.DeleteThenGet | api/server.js:319-344 | With unique ids, reading a deleted id gives 404, and ids stay unique. |
| Server.DeleteKeepsOrder | api/server.js:337 | Deleting keeps the other records in order. |
| Cli.ParseTags | scripts/add-article.js:178 | Every parsed tag is non-empty, trimmed and free of commas. |
| Cli.ParseTagsJoin | scripts/add-article.js:178 | Tags joined with commas parse back to the same tags. |
| Cli.ParseReadTime | scripts/add-article.js:185 | `parseInt(x) \|\| 5`: 5 when the input is unparsable or 0, otherwise the parsed integer, which is never 0. |
| Cli.ReadTimeRoundTrip | scripts/add-article.js:185 | Any non-zero integer, negatives included, reads back as itself. |
| Cli.BuildRecord | scripts/add-article.js:160-219 | An empty title is an error. So is a status other than published or draft. Otherwise the record has the given or generated id, the given date or today, the trimmed excerpt, the given status or `draft`, the parsed tags and read time, and the icon file name. Its `contentFile` is built from the date and id. |
| Cli.AddToIndex | scripts/add-article.js:128-149 | An error exactly when the id exists. Otherwise the record is added once, the index stays sorted, and the record follows the others with its date. |
| Cli.AddToIndexPreservesUniqueIds | scripts/add-article.js:139-143 | Adding keeps ids unique. |
| Cli.AddArticle | scripts/add-article.js:160-244 | A blank title fails with `NoTitle` exactly when the trimmed title is empty, and an unknown status with `BadStatus` exactly when the title is present and the status is neither published nor draft. A failure never changes the index, and a missing template changes nothing. A success adds a new id and grows the index by one. With a template, a slash-free answered or generated id and date, and no hand-made `blog/posts/blog/posts`, the run fails and changes nothing. |
| Cli.SaveRecord | scripts/add-article.js:221-244 | A missing template, or a missing directory for the nested path, fails and changes nothing. Otherwise the page is written at the nested path before the index is touched, and the index changes exactly when the id is new. |
| Cli.WriteNestedPage | scripts/add-article.js:46-110 | Writing fails exactly when the template or the target directory is missing. Otherwise the rendered page is at the nested path and every other file is unchanged. |
| Cli.ParentDir | scripts/add-article.js:106-107 | The directory of a path is the part before its last `/`, so the rest is slash-free; a path without `/` has none. |
| Cli.ParentDirAppend | scripts/add-article.js:106-107 | A slash-free file name joined to a directory lies in that directory. |
| Cli.NestedDirOfRecord | scripts/add-article.js:221-224 | The nested page lies in `blog/posts/blog/posts`, which the tool never creates. |
| Cli.SaveFailsAsWritten | scripts/add-article.js:221-244 | Unless `blog/posts/blog/posts` exists beforehand, a record whose date and id hold no `/` fails at the write, and the files and index are unchanged. |
| Cli.DuplicateStillOverwrites | scripts/add-article.js:226-234 | Where the nested directory exists, a duplicate id is reported only after the page there has been overwritten, and the index stays unchanged. |
| Cli.NestedWritePathMisses | scripts/add-article.js:106 | As written, the page goes to `blog/posts/blog/posts/<file>`, never to the record's `contentFile`. |
| Cli.CorrectedPathIsContentFile | scripts/add-article.js:215 | With the server's rule for the write path, the page lands at the record's `contentFile`. |
| Cli.AddArticleCorrected | scripts/add-article.js:160-244 | The tool with the corrected save step. It fails with `NoTitle` and `BadStatus` on the same answers as the tool as written, never changes the index on a failure, and changes nothing without a template. A success adds the record to the index. With a template, a slash-free new id and date, a title and a known status, it succeeds: the record has the answered or generated id, and its page sits at the `contentFile` it points to. |
| Cli.SaveRecordCorrected | scripts/add-article.js:221-234 | With the page written where the server writes it: a missing template changes nothing. Otherwise the page is written before the index is touched, and the index changes exactly when the id is new. |
| Cli.CorrectedSavesRecord | scripts/add-article.js:221-234 | The corrected save step adds a record with a new id, and the page it writes is the one `contentFile` names. |
| Validator.MissingFrom | scripts/validate-blog.js:58-62 | A field is reported missing exactly when it is required and absent. |
| Validator.DateProblems | scripts/validate-blog.js:78-88 | A truthy date is either malformed or unparsable, never both, each reported exactly when it applies. |
| Validator.Utf16Length | scripts/validate-blog.js:101-104 | A string's `length` counts UTF-16 code units: between one and two per character, and one per character exactly when none lies outside the Basic Multilingual Plane. |
| Validator.MissingFieldIff | scripts/validate-blog.js:58-62 | A record's missing-field error is reported exactly for the required fields it lacks. |
| Validator.DuplicateProblemIff | scripts/validate-blog.js:65-69 | The duplicate-id error is reported exactly when the id was seen before. |
| Validator.DateProblemsIff | scripts/validate-blog.js:78-88 | The date-format and invalid-date errors are each reported exactly when they apply. |
| Validator.TagsProblemIff | scripts/validate-blog.js:91-94 | The tags error is reported exactly when truthy tags are not an array. |
| Validator.StatusProblemIff | scripts/validate-blog.js:110-112 | The status error is reported exactly when a truthy status is neither published nor draft. |
| Validator.FileProblemIff | scripts/validate-blog.js:122-126 | The missing-file error is reported exactly when a truthy `contentFile` names no existing file. |
| Validator.ArticleAdviceIff | scripts/validate-blog.js:71-119 | Each of the non-slug id, empty tags and bad read time warnings is issued exactly when its condition holds. |
| Validator.NumberOfIsNumberOfText | scripts/validate-blog.js:101-104 | Apart from `null` and booleans, a value compared with a number converts to what its text `String(v)` reads as; arrays included. |
| Validator.ObjectLengthConverted | scripts/validate-blog.js:101-104 | An excerpt object's `length` is converted before comparing: the text of an integer reads as that integer, `null` as 0 and `true` as 1. |
| Validator.ExcerptAdviceIff | scripts/validate-blog.js:100-107 | The excerpt warnings are issued exactly when its length is over 300 or under 50. |
| Validator.ExcerptAdviceExclusive | scripts/validate-blog.js:100-107 | An excerpt is never both too long and too short. |
| Validator.CheckArticle | scripts/validate-blog.js:54-128 | The check of one record throws exactly on the inputs that make the source throw. Every error it reports is about that record. |
| Validator.IdsBeforeMembers | scripts/validate-blog.js:52-69 | The seen-id set holds exactly the truthy primitive ids of earlier records. |
| Validator.DuplicateIff | scripts/validate-blog.js:65-69 | A record is flagged as a duplicate exactly when an earlier record has the same id. |
| Validator.CheckFrom | scripts/validate-blog.js:54-128 | The pass over the records finishes exactly when no record makes it throw. Each record from the start on has exactly its own problems as errors and its own advice as warnings, and nothing is said about earlier records. |
| Validator.DuplicatesFrom | scripts/validate-blog.js:65-69 | Over the whole pass, record k is reported as a duplicate exactly when it repeats an earlier id. |
| Validator.ValidateStructure | scripts/validate-blog.js:42-131 | A missing or non-array `articles` gives exactly one error and no warnings. Otherwise the check finishes exactly when no record throws, and each record has exactly its own problems and advice in the report. |
| Validator.DuplicatesAreRepeats | scripts/validate-blog.js:65-69 | In the structure report, record k has a duplicate-id error exactly when it repeats an earlier id. |
| Validator.FirstMetaId | scripts/validate-blog.js:156 | The first `article-id` meta match yields a non-empty value without quotes. |
| Validator.CheckFile | scripts/validate-blog.js:138-160 | The page check throws on the inputs that make the source throw, and reports nothing for a falsy `contentFile`. Otherwise it reports at most one thing: a missing file exactly when it is absent, a missing meta tag as its only warning exactly when the page lacks `name="article-id"` and no warning otherwise, and an id mismatch exactly when the first meta match differs from the record's id, naming both ids. |
| Validator.ValidateFiles | scripts/validate-blog.js:134-164 | Finishes exactly when every record's page check does. It reports only missing files and id mismatches, and each error or warning is exactly one that some record's own check reports. |
| Validator.MissingPagesReported | scripts/validate-blog.js:138-147 | A missing page is reported exactly when some record names it and it does not exist. |
| Validator.MismatchesReported | scripts/validate-blog.js:149-159 | An id mismatch is reported exactly when some record's page has a first meta id other than that record's id. |
| Validator.SurvivorsPassFileChecks | scripts/validate-blog.js:189-198 | When the structure pass finished, the page pass finishes too. |
| Validator.MetaIdReadsBack | scripts/validate-blog.js:156 | The meta pattern reads back the id written in an `article-id` tag laid out as the template writes it. |
| Validator.MetaTagLaidOut | api/server.js:93-96 | The rendered `article-id` tag has the layout that the validator's pattern reads. |
| Validator.OwnMetaTagNoMismatch | scripts/validate-blog.js:138-160 | A page whose first meta tag is the one rendered for its record passes the page check with no errors and no warnings. |
| Validator.ValidateBlog | scripts/validate-blog.js:167-238 | The run finishes exactly when the index was read and parsed and no check threw. A missing `articles` gives exactly its one error. Otherwise the report is the structure report followed by the page report, and each record has exactly its own problems among the errors. |
| Validator.BlogReportsEachRecord | scripts/validate-blog.js:185-198 | In a finished run, each record has exactly its own problems among the errors; the page checks add none of that kind. |
| Validator.ExitCode | scripts/validate-blog.js:228-237 | Exit 0 exactly when the run finished with no errors; otherwise exit 1. |
| Blog.GetCached | js/blog.js:284-302 | A cached list is returned exactly when an entry exists and is at most an hour old. A stale entry is removed. |
| Blog.LoadArticles | js/blog.js:40-78 | A fresh cache is used as stored. Otherwise the fetched list is used: published records only, as a sorted permutation, cached with the current time. A failed fetch gives an empty list. |
| Blog.ReloadWithinHourUsesCache | js/blog.js:272-297 | A list loaded from the network is served unchanged from the cache for the next hour. |
| Blog.CacheExpires | js/blog.js:290-295 | After more than an hour the cache entry is dropped. |
| Blog.ApplyFilters | js/blog.js:223-245 | The shown list keeps index order and holds exactly the records that pass both the tag filter and the case-insensitive search. |
| Blog.NoFiltersShowAll | js/blog.js:223-243 | With no tag and no search, every record is shown in order. |
| Blog.FilterByTag | js/blog.js:215-220 | `all` clears the filter; any other tag becomes the filter. The shown list keeps index order and holds exactly the records that carry the tag and match the search. |
| Blog.Search | js/blog.js:259-262 | The query becomes the search. The shown list keeps index order and holds exactly the records that pass the tag filter and mention the query in the title, excerpt or a tag. |
| Blog.SearchInput | js/blog.js:252-255 | The search box searches for the trimmed input. |
| Blog.SortBy | js/blog.js:265-269 | Changing the order re-sorts the records as a permutation. The shown list follows the new order and holds exactly the records that pass both filters. |
| Blog.AllTagsMembers | js/blog.js:182-185 | A tag is collected exactly when some record carries it. |
| Blog.FilterTags | js/blog.js:181-190 | Each tag carried by some record gets exactly one button, with buttons ordered by each tag's first occurrence. |
| ArticlePage.LoadAll | js/article.js:54-76 | The list holds exactly the published records, newest first. A failed fetch gives an empty list. |
| ArticlePage.Neighbours | js/article.js:233-263 | The previous link exists exactly when the record is not first, and the next link exactly when it is not last. Each is the adjacent record. |
| ArticlePage.NeighboursByDate | js/article.js:64-69 | The previous link is never older, and the next link never newer, than the current record. |
| ArticlePage.Related | js/article.js:266-282 | At most three other records that share a tag with the current one, in list order. |
| ArticlePage.RelatedAreFirst | js/article.js:273-282 | Related records are the first three qualifying records, or all of them when there are fewer. |
| ArticlePage.RelatedNewestFirst | js/article.js:273-282 | Related records stay newest first. |
| ArticlePage.Init | js/article.js:13-45 | Nothing is shown without an id. Not-found is reported exactly when no published record has the id. Otherwise the first published record with that id is found. When its date cannot be read, the page stops there (`toISOString` throws), before navigation and related records. When it can, the navigation is its neighbours and the related records are shown. |
| ArticlePage.DisplayDate | js/article.js:218-230 | A parsable date is shown in a form that reads back to the same date. An unparsable one shows as "NaN undefined NaN". |
| Bot.NewArticle | api/telegram-bot-example.js:94-98 | `/new_article` starts a fresh draft for that chat, whatever it held, and touches no other chat. |
| Bot.WrapContent | api/telegram-bot-example.js:192-195 | Text is left alone exactly when it starts with `<` after trimming. The result always starts with `<` after trimming. |
| Bot.WrapContentIdempotent | api/telegram-bot-example.js:192-195 | Wrapping twice is the same as wrapping once. |
| Bot.Advance | api/telegram-bot-example.js:185-236 | Each step stores its answer and moves to the next step. A request is submitted exactly at the excerpt step, and that request is a draft. A message without text at the content step crashes the process, and every draft is lost. Otherwise other chats are untouched. |
| Bot.OnMessage | api/telegram-bot-example.js:171-238 | Messages starting with `/`, and chats with no draft, change nothing. The handler crashes exactly on a message without text at the content step. Otherwise other chats are never touched. |
| Bot.TitleStep | api/telegram-bot-example.js:186-189 | The title message stores the title and asks for content. |
| Bot.ContentStep | api/telegram-bot-example.js:191-198 | The content message stores the wrapped content and asks for tags. |
| Bot.TagsStep | api/telegram-bot-example.js:200-206 | The tags message stores the parsed tags and asks for the excerpt. |
| Bot.ExcerptStep | api/telegram-bot-example.js:208-236 | The excerpt message submits the draft with the trimmed excerpt and forgets the chat. |
| Bot.Receive | api/telegram-bot-example.js:94-238 | A message that does not mention `/new_article` is handled by the message handler alone. One that mentions it anywhere also starts a fresh draft, so the chat ends at the title step with nothing submitted. The exception is a plain message at the excerpt step: it submits the draft and the chat is forgotten. Other chats are never touched. |
| Bot.CommandStartsDraft | api/telegram-bot-example.js:94-98 | `/new_article` itself skips the message handler and starts a fresh draft. |
| Bot.MentionRestarts | api/telegram-bot-example.js:94-206 | A plain message that mentions `/new_article` while the title, body or tags are awaited is stored and then discarded: the chat is back at the title step. |
| Bot.Dialogue | api/telegram-bot-example.js:94-238 | `/new_article` followed by four plain messages that do not mention it submits exactly one draft built from them, and then forgets the chat. |
| Bot.BotCreatesDrafts | api/telegram-bot-example.js:19-38 | A record the server creates from the bot's request is a draft carrying the collected content. |
| Bot.SkipIsIgnored | api/telegram-bot-example.js:176-178 | As written, `/skip` at the tags or excerpt step changes nothing. |
| Bot.OnMessageWithSkip | api/telegram-bot-example.js:171-238 | The handler with `/skip` let through: other commands and unknown chats still change nothing, and it crashes exactly where the original does. |
| Bot.SkipSkips | api/telegram-bot-example.js:200-209 | With the correction, `/skip` stores no tags, or submits an empty excerpt. |
| Bot.SkipFixChangesOnlySkip | api/telegram-bot-example.js:176-178 | The correction behaves as the original on every message other than `/skip`. |

## Left out

- File and network I/O, Express routing, `fetch`, `localStorage`, `readline`, the DOM, HTML rendering of cards, SEO tags and JSON-LD. The index, pages, template, fetched JSON and cache entry are values passed in and returned, and the bot's chat replies are not modelled.
- `loadArticles`/`saveArticles` JSON serialisation: the index is held as parsed records. The API handlers' 500 replies from I/O exceptions are not modelled; only the 500 for a missing template is.
- The JavaScript engine's `new Date(s)`, time zones and `toISOString`. Parsing is a `DateParser` parameter, and today's date is an input. The sort comparators subtract two `Date` values. The model orders by the date string instead, and `Dates.IsoOrderIsChronological` shows the two agree on `YYYY-MM-DD` dates. For other strings the engine's NaN comparisons are not modelled.
- `Array.prototype.sort` is modelled as a stable sort, which the ECMAScript standard requires since its 2019 edition.
- `toLowerCase` covers ASCII and the basic Cyrillic block only. Other Unicode case mappings are not modelled.
- `String.prototype.replace` is modelled with the replacement text taken literally. `$` patterns in the replacement are not expanded.
- Numbers are integers: a fractional `readTime` is not modelled, and `JSON.stringify` number formatting is the integer's decimal form.
- `Auth`: the middleware's path is taken as given. Express's removal of the `/api` mount prefix is recorded as a finding below, not modelled inside `Auth.Authenticate`.
- `Template`: the source's patterns are modelled by their three shapes, not by a general regular-expression engine.
- `Server.CreateThenGet` is weaker than a full round trip: it needs content without `</div>`, because the lazy body pattern stops at the first `</div>`. `Template.ExtractSubstituted` states what is read back otherwise.
- `Validator.CheckArticle` states only that its errors are about the record and when it throws. Which errors it reports is stated by the per-problem lemmas, which take the record's fields as JSON values with JavaScript truthiness.
- The bot's `/start`, `/help`, `/list_articles`, `/list_drafts` and `/publish` commands only format replies and forward calls to the server, so they are not modelled. Like `/new_article`, their patterns match anywhere in a text, so a plain message that mentions one also gets that command's reply. The Python bot, `js/main.js` and the 3D cube script are outside this model.
- `Validator.LengthOf`: an excerpt object's `length` that is a string converts only when it is blank or an optionally signed run of decimal digits. A fraction, an exponent, a `0x`/`0o`/`0b` prefix or `Infinity` reads as `NaN` here, whereas JavaScript reads them as numbers.
- `Cli.AddArticle`: the directories on disk are an input set. The ones `mkdirSync` creates count for the write, but the returned store does not carry them.
- `Bot.Receive`: the order of the handlers comes from the Telegram library, which is not part of this model. The model takes the message handler to run first, up to its first `await`, and then every text pattern that matches.
- `Bot.Advance`: each step is one atomic update. In the source the excerpt step waits for the server's reply before it forgets the chat, so a second message in that window submits the draft again; interleaved handlers are not modelled.
- Request bodies are typed records whose fields are present or absent. JSON `null`, values of the wrong type (a numeric title, a string `tags`) and extra keys, which `...updates` copies into the stored record, are not modelled.
- A slug might be expected to have no leading or trailing hyphens. The code keeps them, because `trim()` runs after whitespace has become hyphens (`Slug.EdgeHyphensSurvive`), and the model follows the code.

## Findings

| source | as written | input that shows it | evidently intended | confidence | as-written member | corrected member |
|---|---|---|---|---|---|---|
| scripts/add-article.js:106 | The page is written to `path.join(POSTS_DIR, contentFile)`, where `contentFile` already starts with `blog/posts/`. Only `blog/posts` is created, so the write throws and the tool exits with status 1 before touching the index. | Any record, e.g. date `2024-01-01` and id `a`: the path is `blog/posts/blog/posts/2024-01-01-a.html`, in a directory that does not exist. | The page lands at `contentFile`, as the server's `split('/').pop()` achieves, and the record is added. | medium, not executed | Cli.SaveFailsAsWritten | Cli.CorrectedSavesRecord |
| api/telegram-bot-example.js:176-178 | Any text starting with `/` is dropped before the step switch, so the `/skip` tests at lines 201 and 209 never see `/skip`. | Send `/skip` at the tags step: the draft stays at that step. | `/skip` leaves the tags empty or the excerpt empty, as the prompts promise. | high, not executed | Bot.SkipIsIgnored | Bot.SkipSkips |
| api/server.js:59 | `authenticate` is mounted under `/api`, so `req.path` lacks that prefix, and the public-read test on `/api/articles` never matches. | With `API_KEY` set, `GET /api/articles` with no key gets 401. | Reading articles needs no key, as the comments at lines 33 and 58 say. | medium, not executed | Auth.MountedListReadRefused | Auth.AuthenticateMounted |
