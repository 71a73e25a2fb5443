# Activity feed generator: a Dafny model of its pipeline

The repository builds one RSS 2.0 feed of a person's recent activity on
GitHub, Mastodon and Letterboxd. It has two interchangeable generators:
`rss-generator.js` (Node.js) and `rss.php` (PHP). Both run the same pipeline:

1. each source adapter turns what its source returned into activities (a
   title, a description, a link, a date, a guid and a platform);
2. the three lists are merged in a fixed order;
3. the merged list is sorted most recent first and cut to twenty;
4. the result is rendered as an RSS document.

This project models both generators, step by step, and proves what each
step promises. It also proves where the two generators agree and, where they
part ways, on which inputs they do.

| file | module | what it holds |
|---|---|---|
| `feed.dfy` | `Feed` | the records: GitHub event, feed item, activity, platform, settled promise |
| `text.dfy` | `Text` | whitespace classes of both dialects, tag stripping (JavaScript's regular expression and PHP's `strip_tags`), whitespace collapsing, `trim`, `ucfirst`, decimal counts |
| `escape.dfy` | `Escape` | the three replacement passes of the JavaScript escaper and unescaper, PHP's `htmlspecialchars`, a reference XML entity decoder, reading an element's text |
| `letterboxd.dfy` | `LetterboxdTitle` | the rating-suffix pattern and the year pattern applied to Letterboxd titles |
| `ordering.dfy` | `Ordering` | the stable sort by date, most recent first, and `slice(0, n)` |
| `blocks.dfy` | `Blocks` | the rendered items, one block per activity, in order |
| `js_github.dfy`, `js_feeds.dfy`, `js_render.dfy`, `js_main.dfy` | `JsGitHub`, `JsFeeds`, `JsRender`, `JsMain` | rss-generator.js |
| `php_github.dfy`, `php_feeds.dfy`, `php_render.dfy`, `php_main.dfy` | `PhpGitHub`, `PhpFeeds`, `PhpRender`, `PhpMain` | rss.php |
| `rating_bytes.dfy` | `RatingBytes` | rss.php's rating pattern as PCRE runs it without the `u` modifier |
| `variants.dfy` | `Variants` | where the two generators agree and where they differ |

The adapters and the two renderers are methods with loops. The two `main`s
are methods that call them in order, with no loop of their own. Each
method's `ensures` ties its result to a function of its inputs, and lemmas
about those functions state what the source promises. The text steps, the
patterns, the merge and the sort are functions with lemmas.

The inputs are values: a fetch that failed is `None`, and what a fetch
returned is a sequence of events or items. Dates are whole seconds. The
date formatters (`toUTCString`, `date('r', ·)`) and `md5` are function
parameters.

## Model

| member | source | states |
|---|---|---|
| `Text.StripTagsLeavesNoTag` | rss-generator.js:136 | after `replace(/<[^>]*>/g, '')` no `<` is followed anywhere later by a `>` |
| `Text.StripTagsKeepsPlainText` | rss-generator.js:136 | text without a tag passes through unchanged, so stripping is idempotent |
| `Text.StripTagsChars` | rss-generator.js:136 | stripping tags introduces no character |
| `Text.PhpStripTagsLeavesNoTagOpen` | rss.php:121 | after `strip_tags` every `<` is followed by whitespace, and the text does not end in `<` |
| `Text.PhpStripTagsKeepsText` | rss.php:121 | text in which nothing opens a tag passes through `strip_tags` unchanged |
| `Text.CollapseLeavesSingleSpaces` | rss-generator.js:136 | after `replace(/\s+/g, ' ')`, in either dialect, every whitespace is a plain space and no two are adjacent |
| `Text.CollapseChars` | rss.php:122 | collapsing adds no character other than the space |
| `Text.CollapseKeepsCollapsed` | rss.php:122 | already collapsed text passes through unchanged |
| `Text.CollapseKeepsNoTag` | rss-generator.js:136 | collapsing whitespace cannot create a tag |
| `Text.CollapseKeepsNoTagOpen` | rss.php:121-122 | collapsing PHP whitespace cannot open a tag |
| `Text.Trim` | rss.php:123 | `trim` keeps a segment of the text that starts and ends with a kept character; everything before and after it is trimmed |
| `Text.TrimKeepsTrimmed` | rss-generator.js:136 | text with nothing to trim at either end is unchanged |
| `Text.TrimKeepsCollapsed` | rss.php:123 | trimming keeps collapsed text collapsed |
| `Text.TrimKeepsNoTag` | rss-generator.js:136 | trimming keeps text free of tags |
| `Text.TrimKeepsNoTagOpen` | rss.php:123 | trimming keeps text free of tag openings |
| `Text.UpperFirst` | rss-generator.js:70 | `charAt(0).toUpperCase() + slice(1)`: same length, same text after the first character, first character upper-cased |
| `Text.NatToStringRoundTrip` | rss-generator.js:51-52 | the rendered commit count reads back as the count |
| `Escape.JsEscapeCharwise` | rss-generator.js:237 | the three global replacements amount to escaping each character once |
| `Escape.JsEscapeRoundTrip` | rss-generator.js:131 | the unescaping passes undo the escaping passes of the renderer |
| `Escape.JsEscapeNoMarkup` | rss-generator.js:237-238 | escaped text holds no raw `<` or `>` |
| `Escape.JsEscapeDecodes` | rss-generator.js:237-238 | an XML reader decodes the escaped text to the original |
| `Escape.JsUnescapePlain` | rss-generator.js:131 | text without `&` is left as it is by the unescaper |
| `Escape.ReplaceAllOneChar` | rss-generator.js:237 | a global replacement of a one-character pattern replaces each occurrence |
| `Escape.HtmlSpecialCharsDecodes` | rss.php:234-237 | an XML reader decodes whatever `htmlspecialchars` escaped to the original |
| `Escape.HtmlSpecialCharsNoMarkup` | rss.php:234-237 | `htmlspecialchars` leaves no raw `<`, `>`, `"` or `'` |
| `Escape.EscapersAgreeWithoutQuotes` | rss.php:234 | the PHP and JavaScript escapers agree exactly on text without a quote |
| `LetterboxdTitle.SkipSpaces` | rss-generator.js:194 | `\s*` from a position runs to the first non-whitespace character |
| `LetterboxdTitle.RatingAtIsPattern` | rss-generator.js:194 | the greedy reading of `\s*-\s*[★☆]+.*$` matches at a position exactly when some split of the text matches the pattern literally |
| `LetterboxdTitle.FirstRating` | rss-generator.js:194 | the position found is a match and no earlier position is |
| `LetterboxdTitle.StripRatingCutsAtFirstMatch` | rss-generator.js:194 | the title is cut at the leftmost match and keeps nothing after it, except in PHP a final `\n`; it is unchanged exactly when the pattern matches nowhere |
| `LetterboxdTitle.StripRatingIdempotent` | rss.php:189 | on a single-line title, removing the rating a second time changes nothing |
| `LetterboxdTitle.FirstYearFrom` | rss-generator.js:195 | the position found holds `, dddd` and no earlier position does |
| `LetterboxdTitle.RemoveFirstYear` | rss-generator.js:196 | `replace(/, \d{4}/, '')` removes the six characters of the first year, and only those; with no year the title is unchanged |
| `LetterboxdTitle.FirstYear` | rss.php:193-194 | the captured year is empty exactly when there is no year, and is otherwise four digits |
| `LetterboxdTitle.YearRoundTrip` | rss-generator.js:195-196 | putting `, ` and the captured year back where the year was removed gives the title back |
| `LetterboxdTitle.RemoveAllYearsLength` | rss.php:195 | `preg_replace` removes six characters per year it removes |
| `LetterboxdTitle.RemoveAllYearsSpec` | rss.php:195 | the title is unchanged exactly when it has no year, and every year is removed rather than the first only exactly when no year follows the first |
| `LetterboxdTitle.ExampleRatingStartsAfterYear` | rss-generator.js:193 | in the documented example the rating match starts right after the year |
| `LetterboxdTitle.ExampleStripped` | rss-generator.js:193-194 | the documented example loses exactly its rating |
| `LetterboxdTitle.ExampleYear` | rss-generator.js:195-196 | `Film, 2024` has one year, `2024`, and becomes `Film` |
| `Ordering.Take` | rss-generator.js:283 | `slice(0, n)` keeps the first `min(length, n)` elements |
| `Ordering.SortPermutes` | rss-generator.js:280 | the sort returns a permutation of the merged list |
| `Ordering.SortSorts` | rss-generator.js:280 | the sort returns the list most recent first |
| `Ordering.SortIsStable` | rss.php:211-213 | activities with the same date keep their merge order |
| `Ordering.SortAndTake` | rss-generator.js:279-283 | sorting then cutting keeps `min(length, n)` activities of the list, sorted, and none left out is more recent than one kept |
| `Ordering.SortAndTakeStable` | rss.php:210-216 | among activities with the same date, the ones kept are the first of them in merge order |
| `Blocks.JoinAppend` | rss-generator.js:235-245 | the blocks of two lists one after the other are the blocks of the first list followed by those of the second |
| `Blocks.JoinInOrder` | rss.php:232-241 | the block of the `k`-th activity stands after the blocks of the activities before it and before those after it |
| `JsGitHub.FetchGitHubActivity` | rss-generator.js:28-100 | no activity when the request fails; otherwise the activities of the loop, or none once an event has thrown |
| `JsGitHub.PushTemplate` | rss-generator.js:50-54 | a push names its commit count (0 when the list is missing) and adds `s` exactly when the count is not 1 |
| `JsGitHub.CreateTemplate` | rss-generator.js:55-60 | a creation names `repository`, `branch` or `resource`, then the reference, or the repository when the reference is missing or empty |
| `JsGitHub.ActionTemplate` | rss-generator.js:69-80 | a pull request or issue event throws exactly when its action is missing; otherwise it names the action with its first letter upper-cased, the noun, and the title or the noun |
| `JsGitHub.SkipsExactlyUnknownKinds` | rss-generator.js:81-82 | exactly the events of the six known kinds are described |
| `JsGitHub.ActivitiesAppend` | rss-generator.js:45-93 | going through two lists of events is going through the first, then the second |
| `JsGitHub.UnknownKindContributesNothing` | rss-generator.js:81-82 | an event of an unknown kind changes nothing, wherever it stands |
| `JsGitHub.ThrowIsFinal` | rss-generator.js:96-98 | once an event has thrown, the whole list has failed |
| `JsGitHub.ThrowAt` | rss-generator.js:70 | an event that throws, wherever it stands, costs every activity |
| `JsGitHub.NoThrowSucceeds` | rss-generator.js:45-95 | a list in which no event throws yields its activities |
| `JsGitHub.ActivitiesFailIff` | rss-generator.js:45-99 | the list fails exactly when one of its events throws |
| `JsGitHub.ActivitiesFromEvents` | rss-generator.js:85-92 | one activity per event of a known kind, each with its description as title, the repository link, the event's id, date and the platform GitHub |
| `JsFeeds.FetchMastodonActivity` | rss-generator.js:103-158 | the activities of the complete items among the first five, with the cleaned title as text |
| `JsFeeds.FetchLetterboxdActivity` | rss-generator.js:161-215 | the activities of the complete items among the first five, with `Watched - ` and the parsed title as text |
| `JsFeeds.NormaliseLength` | rss-generator.js:130 | one activity per complete item |
| `JsFeeds.NormaliseSound` | rss-generator.js:130-149 | every activity is built from a complete item |
| `JsFeeds.NormaliseComplete` | rss-generator.js:130-149 | every complete item gives its activity |
| `JsFeeds.NormaliseFields` | rss-generator.js:141-148 | each activity's title is its description, its guid is the digest of its link, its platform is the adapter's, and it comes from a complete item |
| `JsFeeds.SameLinkSameGuid` | rss-generator.js:146 | activities with the same link have the same guid |
| `JsFeeds.AtMostFive` | rss-generator.js:123 | each adapter returns at most five activities |
| `JsFeeds.PlaceholderIsClean` | rss-generator.js:138 | the placeholder is itself clean text |
| `JsFeeds.CleanedShape` | rss-generator.js:136 | the cleaned title holds no tag, has no whitespace at either end, and every whitespace in it is a single plain space |
| `JsFeeds.CleanTextShape` | rss-generator.js:136-139 | a Mastodon text is never empty and is clean; it is the cleaned title when that is not empty, and `Posted on Mastodon` when it is |
| `JsFeeds.CleanTextKeepsCleanText` | rss-generator.js:131-139 | a title that is already clean text comes out unchanged |
| `JsFeeds.WatchedTitleShape` | rss-generator.js:199 | a Letterboxd text is `Watched - ` and a title with no whitespace at either end |
| `JsFeeds.WatchedTitleKeepsPlainTitle` | rss-generator.js:193-200 | a title with no entity, rating, year or outer whitespace is kept as it is |
| `JsFeeds.WatchedFilm` | rss-generator.js:195-199 | a title whose rating-free part is `Film, 2024` becomes `Watched - Film` |
| `JsFeeds.WatchedTitleExample` | rss-generator.js:193 | the documented example becomes `Watched - Film` |
| `JsRender.GenerateRssXml` | rss-generator.js:218-251 | the document is the header, one item block per activity in order, and the footer |
| `JsRender.ReadEscaped` | rss-generator.js:237-238 | escaped text followed by a tag ends where the tag starts, and decodes to the original |
| `JsRender.ItemReadsBack` | rss-generator.js:236-243 | a reader of an item block gets back the activity's title and description |
| `JsMain.SelectActivities` | rss-generator.js:265-283 | the selection is the first twenty of the sorted concatenation of the fulfilled results; a rejected fetch contributes nothing, as an empty one would |
| `JsMain.SelectionIsMostRecent` | rss-generator.js:279-283 | at most twenty of the merged activities are kept, sorted, none left out more recent than one kept, ties kept in merge order |
| `JsMain.GenerateFeed` | rss-generator.js:254-286 | the feed is the rendering of the first twenty of the sorted merge of the three adapters' results |
| `PhpGitHub.FetchGitHubActivity` | rss.php:15-89 | the activities the `foreach` appends, none when the request or the decoding fails |
| `PhpGitHub.PushTemplate` | rss.php:43-47 | a push names its commit count (0 when the list is missing) and adds `s` exactly when the count is not 1 |
| `PhpGitHub.CreateTemplate` | rss.php:48-53 | a creation names `repository`, `branch` or `resource`, then the reference whenever it is present, even when empty, and the repository only when it is missing |
| `PhpGitHub.ActionTemplate` | rss.php:62-73 | a pull request or issue event is always described: the action with its first letter upper-cased (empty when missing), the noun, and the title, or the noun when the title is missing |
| `PhpGitHub.SkipsExactlyUnknownKinds` | rss.php:74-75 | exactly the events of the six known kinds are described |
| `PhpGitHub.ActivitiesAppend` | rss.php:38-86 | going through two lists of events is going through the first, then the second |
| `PhpGitHub.DescribedEventsKept` | rss.php:78-85 | every described event contributes its activity |
| `PhpGitHub.UnknownKindContributesNothing` | rss.php:74-75 | an event of an unknown kind changes nothing, wherever it stands |
| `PhpGitHub.ActivitiesFromEvents` | rss.php:78-85 | one activity per event of a known kind, each with its description as title, the repository link, the event's id, date and the platform GitHub |
| `PhpFeeds.FetchMastodonActivity` | rss.php:92-140 | the first five of the activities of all items, with the cleaned description as text |
| `PhpFeeds.FetchLetterboxdActivity` | rss.php:143-184 | the first five of the activities of all items, with `Watched - ` and the parsed title as text |
| `PhpFeeds.NormaliseItemwise` | rss.php:129-136 | one activity per item, the `k`-th built from the `k`-th item, a missing link read as empty and a missing date as the epoch |
| `PhpFeeds.SliceAfterLoop` | rss.php:139 | slicing after the loop keeps the activities of the first five items |
| `PhpFeeds.PlaceholderIsClean` | rss.php:126 | the placeholder is clean text and not empty for PHP |
| `PhpFeeds.CleanedShape` | rss.php:121-123 | the cleaned description opens no tag, has nothing to trim at either end, and every whitespace in it is a single plain space |
| `PhpFeeds.CleanTextShape` | rss.php:121-127 | a Mastodon text is clean, never empty for PHP, and is the placeholder exactly when the cleaned description is `""` or `"0"` |
| `PhpFeeds.CleanTextKeepsCleanText` | rss.php:121-127 | a description that is already clean text comes out unchanged |
| `PhpFeeds.ParsedTitle` | rss.php:187-202 | the parsed title is the rating-free text with every `, dddd` match removed, then trimmed; it has nothing to trim at either end |
| `PhpFeeds.ParsedYear` | rss.php:192-195 | the parsed year is the first `, dddd` of the rating-free text, or empty when there is none, and splits that text exactly |
| `PhpFeeds.ParseFilm` | rss.php:189-199 | a title whose rating-free part is `Film, 2024` is the film `Film` of 2024 |
| `PhpFeeds.ParseExample` | rss.php:170 | the documented example is the film `Film` of 2024 |
| `PhpRender.RenderRss` | rss.php:219-243 | the output is the header, one item block per activity in order, and the footer |
| `PhpRender.ItemFramed` | rss.php:233-240 | an item block is its four escaped fields, each after its tag and followed by the next tag |
| `PhpRender.TitleText` | rss.php:234 | the title element holds the escaped title |
| `PhpRender.TitleReadsBack` | rss.php:234 | the title element decodes to the title |
| `PhpRender.DescriptionText` | rss.php:235 | the description element holds the escaped description |
| `PhpRender.DescriptionReadsBack` | rss.php:235 | the description element decodes to the description |
| `PhpRender.LinkText` | rss.php:236 | the link element holds the escaped link |
| `PhpRender.LinkReadsBack` | rss.php:236 | the link element decodes to the link |
| `PhpRender.GuidText` | rss.php:237 | the guid element holds the escaped guid |
| `PhpRender.GuidReadsBack` | rss.php:237 | the guid element decodes to the guid |
| `PhpRender.ItemReadsBack` | rss.php:233-240 | a reader of a block gets back the title, description, link and guid, whatever characters they hold |
| `PhpMain.SelectActivities` | rss.php:205-216 | the selection is the first twenty of the stably sorted merge |
| `PhpMain.SelectionIsMostRecent` | rss.php:210-216 | at most twenty of the merged activities are kept, sorted, none left out more recent than one kept, ties kept in merge order |
| `PhpMain.GenerateFeed` | rss.php:204-243 | the output is the rendering of the first twenty of the sorted merge of the three adapters' results |
| `RatingBytes.FirstByteRating` | rss.php:189 | the leftmost position where the byte-class pattern matches |
| `RatingBytes.AsWrittenCutsNoLater` | rss.php:189 | the pattern as written cuts no later than the intended one |
| `RatingBytes.FirstRatingsAgree` | rss.php:189 | when the only characters from U+2000 to U+2FFF are stars, both patterns match at the same place |
| `RatingBytes.AsWrittenAgrees` | rss.php:189 | the pattern as written keeps no more of a title than the intended one, and the same when the only such characters are stars |
| `RatingBytes.QuotedTitleAsWritten` | rss.php:189 | the pattern as written cuts `Film - ‘Q’` to `Film` |
| `RatingBytes.QuotedTitleIntended` | rss.php:189 | the intended pattern keeps `Film - ‘Q’` whole |
| `RatingBytes.QuotedTitleCut` | rss.php:189 | on `Film - ‘Q’` the pattern as written and the intended one differ |
| `RatingBytes.ParseAgrees` | rss.php:187-202 | `parseLetterboxdTitle` as written and as intended give the same film for every title whose only characters from U+2000 to U+2FFF are stars |
| `RatingBytes.QuotedTitleParsed` | rss.php:187-202 | `Film - ‘Q’` is the film `Film` as written and the film `Film - ‘Q’` as intended, with no year either way |
| `RatingBytes.QuotedYearParsed` | rss.php:187-202 | `Film - ‘Q’, 2024` is the film `Film` with no year as written, and a film of 2024 as intended |
| `Variants.DescribeAgrees` | rss.php:42-76 | both generators skip exactly the unknown kinds; only the JavaScript one throws, exactly on a pull request or issue without an action; on events whose reference and titles are not empty strings and whose action is present where the kind needs one (`Agreeable`) they write the same description |
| `Variants.EmptyReferenceDiffers` | rss.php:51 | for an empty reference, the JavaScript generator names the repository and the PHP one names nothing |
| `Variants.ActivitiesAgree` | rss.php:38-86 | on agreeable events the two GitHub loops produce the same activities |
| `Variants.MissingActionLosesAll` | rss-generator.js:70 | a pull request or issue without an action costs the JavaScript generator every GitHub activity |
| `Variants.MissingActionKept` | rss.php:63 | the PHP generator keeps the activity of that same event |
| `Variants.JsNormaliseAllComplete` | rss-generator.js:130-149 | with every item complete, the JavaScript loop makes one activity per item, in order |
| `Variants.CompleteItemsAgree` | rss.php:139 | on complete items both adapters keep the same number of activities with the same links, guids, dates and platform, and the same activities when their texts agree |
| `Variants.IncompleteItemDiffers` | rss.php:114-118 | an item missing its title, link or date is skipped by the JavaScript adapter and kept by the PHP one |
| `Variants.CleanTextsAgree` | rss.php:121-127 | both generators keep plain text as it is, except that PHP replaces `0` by the placeholder |
| `Variants.YearRemovalsAgree` | rss.php:195 | removing every year and removing the first year agree exactly when no year follows the first |

## Left out

- Network access, HTTP headers, `console.log`, `fs.writeFileSync` and the `header()` calls: fetches are inputs (`None` for a failed request or an unusable body), and the document is the result.
- `Promise.allSettled` runs the three fetches concurrently. Each result is modelled as a settled value; every adapter catches its own failures, so `main` only ever sees fulfilled results.
- Date parsing and formatting (`new Date`, `toUTCString`, `strtotime`, `date('r')`): dates are whole seconds and the formatters are parameters. A date JavaScript cannot parse (`Invalid Date`, which sorts with `NaN`) is not modelled. PHP's unreadable or missing date is the epoch.
- `md5` and `crypto.createHash('md5')` are a parameter.
- Extracting items from the feed XML (`/<item>([\s\S]*?)<\/item>/g` with the three field expressions, and `simplexml_load_string`): an item is the captured or parsed fields.
- Events without `payload`, `repo` or `type`, and a PHP response that decodes to something other than a list of events: an event carries every field the templates read, each optional string being present or missing.
- Text.UpperFirst: upper-cases ASCII letters only, while `toUpperCase` and `ucfirst` in some locales also map other letters.
- Text.PhpStripTags: models the tag rule of `strip_tags` (a `<` followed by whitespace is text; any other `<` opens a tag that runs to the next `>`, or to the end). Nesting is left out: inside a tag, `strip_tags` counts each further `<` not followed by whitespace, and the tag then needs one more `>` to close (on `<a<b>c>d` PHP keeps `d`, the model `c>d`). Quotes inside tags, comments, `<?` processing instructions and NUL bytes are left out too.
- Escape.HtmlSpecialChars: uses the default flags of PHP 8.1 and later (`'` becomes `&#039;`). Earlier versions leave `'` alone, and the handling of invalid UTF-8 is left out because the model works on characters.
- Ordering.SortByDateDesc: a stable sort, as `Array.prototype.sort` and PHP 8's `usort` are. The unstable `usort` of PHP 7 is left out.
- PhpFeeds.ParseLetterboxdTitle: uses the corrected rating pattern of the Findings row, in which only ★ and ☆ start a rating. rss.php:189 runs the byte class, which `RatingBytes.ParseAsWritten` models. `RatingBytes.ParseAgrees` proves the two agree on every title whose only characters from U+2000 to U+2FFF are stars; `RatingBytes.QuotedTitleParsed` and `RatingBytes.QuotedYearParsed` show titles on which they differ.
- PhpFeeds.LetterboxdText: built on `PhpFeeds.ParseLetterboxdTitle`, so it uses the corrected rating pattern.
- PhpFeeds.FetchLetterboxdActivity: builds its texts with `PhpFeeds.LetterboxdText`, so it uses the corrected rating pattern.
- PhpFeeds.ParsedTitle: stated of `PhpFeeds.ParseLetterboxdTitle`, so of the corrected rating pattern.
- PhpFeeds.ParsedYear: stated of `PhpFeeds.ParseLetterboxdTitle`, so of the corrected rating pattern; as written, `Film - ‘Q’, 2024` has no year (`RatingBytes.QuotedYearParsed`).
- PhpMain.GenerateFeed: its Letterboxd activities come from `PhpFeeds.FetchLetterboxdActivity`, so they use the corrected rating pattern.
- LetterboxdTitle.StripRatingIdempotent: stated of the corrected rating pattern for rss.php:189. It holds for single-line titles only. On a PHP title ending in `\n`, the kept `\n` may let the pattern match again.
- server.js, generate-rss.php, demo-rss-system.js and test-rss-update.js are not part of this model.
- The repository's own description of the system and its code differ in places; the model follows the code:
  - the code removes the year from a Letterboxd title rather than keeping it;
  - no adapter sorts its items before cutting them to five;
  - Mastodon text is neither capped nor given an ellipsis;
  - there are no proxy fallback chains;
  - there is no Nostr adapter (Nostr appears only in the channel description).

## Findings

| source | as written | input that shows it | evidently intended | confidence | as-written member | corrected member |
|---|---|---|---|---|---|---|
| rss.php:189 | `/\s*-\s*[★☆]+.*$/` without the `u` modifier: PCRE reads `[★☆]` as a class of the four bytes E2, 98, 85 and 86, so after `-` and whitespace any character from U+2000 to U+2FFF starts a "rating" | the title `Film - ‘Q’` (a film with a curly-quoted subtitle and no rating) becomes `Film` | only a run of the stars ★ and ☆ is a rating, so `Film - ‘Q’` stays whole, as in rss-generator.js:194 | high; not executed | `RatingBytes.QuotedTitleAsWritten` | `RatingBytes.QuotedTitleIntended` |
