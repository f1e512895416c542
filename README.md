# Glints job scraper and cleaner: a verified model

The repository gathers job listings from glints.com and cleans them. It searches the listing
pages for a job title and collects the link of every job card. It then visits each job page in
batches and builds one record per job: salary bounds, a relative posting time, a skills text
and so on. A cleaning step later fills or drops missing cells. A storing step counts how often
each skill occurs.

This project models the rules those steps run. The live browser and the libraries become
function parameters and values:

- `Batching` models how links are cut into batches (`split_extract_running`). It also models
  the batch loop, which keeps the records the detail extractor returns (`extract_all_job_details`).
  The extractor is a parameter `link -> Option<record>`.
- `Pagination` models reading card links from a listing page (`get_job_link_page`). It also
  models the page loop of `collect_job_links`, through a parameter `load(page) -> Option<page>`.
  That loop covers the first-page early returns, the cap on pages, skipped failed pages and the
  pagination parse error.
- `Salary` is a hand-written matcher for the three salary regular expressions. It applies them
  with search semantics, then removes the `.` separators and parses the captured digits.
- `PostTime` models the keyword dispatch of `exctract_time`. Its output is an offset such as
  "3 hours ago": either a value of the `Ago` datatype, no unit, or a number that `int()`
  rejects.
- `Cleaning` models the table as a sequence of rows with optional cells. It models `cek_nan`
  and the column rules of `cleaning_nan`.
- `SkillTable` models the skill-frequency table built inside `upload_gbq`.
- `Text` models the Python string primitives these rest on: `strip`, `split`, `join`, `lower`,
  `in` and `int()`. `Wrappers` holds the `Option` type.

What is proved:

- The batches put back together are the links, and there are ceil(n/split) of them.
- The batch loop keeps exactly the successful extractions, in link order.
- Page 1 is always requested and no page is requested beyond the cap.
- The search returns the capture at the leftmost matching position. Wherever a pattern
  matches as a regular expression, the greedy matcher captures the group a backtracking
  matcher takes.
- Range texts give their two bounds, also after a label, and `Unspecified` gives missing
  bounds, not zero.
- The dispatch order of the time words, and that reading is case-insensitive.
- `cek_nan` reports exactly the columns with a missing value, in table order.
- Each cleaning rule only touches missing cells, and a whole run leaves every column that no
  listed name rewrites as it was. `cleaning_nan(df, cek_nan(df))` applied to its own output
  changes nothing.
- The skill table is sorted by count, lists each stripped piece once with its number of
  occurrences, and its counts add up to the number of pieces.

## Model

| member | source | states |
|---|---|---|
| Batching.Chunks | utils/Scraping.py:276-278 | For a positive step, the batches concatenate back to the links. Every batch but the last holds exactly `split` links and the last holds 1 to `split`. There are batches exactly when there are links. |
| Batching.ChunkAt | utils/Scraping.py:278 | Batch `k` is the slice `links[k*split : min((k+1)*split, n)]`, the one the comprehension builds at `i = k*split`, and it starts inside the links. |
| Batching.ChunkCount | utils/Scraping.py:277-278 | There are ceil(n/split) batches. |
| Batching.ChunkCountBounds | utils/Scraping.py:277-278 | For non-empty links, (count-1)*split < n <= count*split. |
| Batching.CeilDiv | utils/Scraping.py:278 | The only count meeting those bounds is `(n + split - 1) / split`. |
| Batching.SplitExtractRunning | utils/Scraping.py:276-278 | A step of 0 is the `ValueError` that `range` raises. A negative step gives no batches. A positive step gives the consecutive slices of that size, which concatenate back to the links. |
| Batching.NoLinksNoBatches | utils/Scraping.py:277-278 | An empty link list gives no batches. |
| Batching.OversizedSplit | utils/Scraping.py:293-298 | A `split` of at least the number of links gives a single batch holding every link. A larger one is the case that prints a warning. |
| Batching.FlattenAppend | utils/Scraping.py:303-309 | Concatenating batches distributes over two runs of batches. |
| Batching.SuccessesAppend | utils/Scraping.py:303-309 | The records of two consecutive runs of links are those of the first run, then those of the second. |
| Batching.SuccessesBound | utils/Scraping.py:307-309 | At most one record is kept per link. |
| Batching.SuccessesMembers | utils/Scraping.py:307-309 | A record is kept exactly when the extractor returned it for some link. |
| Batching.ExtractAllJobDetails | utils/Scraping.py:280-310 | The nested batch and link loops return exactly the non-null extractor results in link order. A zero `split` fails and a negative one processes nothing. |
| Batching.MiddleTimeout | utils/Scraping.py:307-309 | Three links whose middle extraction fails give the first and third records, in order. |
| Batching.Flatten | utils/Scraping.py:303-309 | The batches concatenated, first batch first: the order in which the nested loops visit the links. |
| Batching.Successes | utils/Scraping.py:307-309 | The records the extractor returns, in link order. A link whose extraction gives `None` adds nothing. |
| Pagination.GetJobLinkPage | utils/Scraping.py:117-136 | A missing page gives `[]`. Otherwise the result is the hrefs of the cards that have a titled anchor, in card order. |
| Pagination.CardLinksBound | utils/Scraping.py:131-134 | At most one link per card. |
| Pagination.CardLinks | utils/Scraping.py:128-136 | The href of each card that has a titled anchor, in card order. A card without one adds nothing. |
| Pagination.CardLinksMembers | utils/Scraping.py:131-134 | A link is returned exactly when some card's title anchor carries it. |
| Pagination.CardLinksAppend | utils/Scraping.py:131-134 | Cards without a link are skipped and the order of the rest is kept. |
| Pagination.PageCap | utils/Scraping.py:170 | `max_page_num` is at most the last page, and at most the limit when one is given. It equals one of the two. |
| Pagination.PageNumbers | utils/Scraping.py:174 | `range(from, to+1)`: the consecutive numbers from `from` to `to`, and none when `to < from`. |
| Pagination.FetchPages | utils/Scraping.py:174-179 | The page loop requests pages `from..to` in order and appends the links of each page that loaded. |
| Pagination.CollectJobLinks | utils/Scraping.py:138-186 | The links returned and the pages requested are those the collection rule defines. |
| Pagination.LinksFromPagesSplit | utils/Scraping.py:174-178 | The links of a run of pages are those of its two consecutive parts. |
| Pagination.FailedPageSkipped | utils/Scraping.py:175-179 | A page that fails to load adds nothing, and the pages around it still count. |
| Pagination.LinksFromPagesMembers | utils/Scraping.py:174-178 | A link is gathered exactly when some page in the run loaded and shows it. |
| Pagination.LinksFromPages | utils/Scraping.py:174-179 | The links of pages `from` to `to`, in page order. A page that fails to load adds nothing. |
| Pagination.CollectedLinks | utils/Scraping.py:138-186 | What `collect_job_links` returns. Nothing when page 1 fails to load. Otherwise page 1's links come first, then, when the last button is a numeral, those of pages 2 to the cap. |
| Pagination.RequestedPages | utils/Scraping.py:152-175 | The pages asked for. Page 1 always comes first, then, when the last button is a numeral, pages 2 to the cap. |
| Pagination.FirstPageFails | utils/Scraping.py:152-155 | If page 1 fails, the result is empty and only page 1 was requested. |
| Pagination.SinglePage | utils/Scraping.py:157-165 | Without pagination buttons the result is exactly page 1's links, and only page 1 was requested. |
| Pagination.UnreadableLastPage | utils/Scraping.py:168-186 | A last button that is not a numeral returns page 1's links, and no other page is requested. |
| Pagination.RequestedRange | utils/Scraping.py:152-175 | The pages requested are 1, 2, ..., n. Page 1 is always requested. No other page lies beyond the last advertised page, or beyond the limit when one is given. |
| Pagination.CollectedFromPages | utils/Scraping.py:157-182 | A link is collected exactly when it is on page 1, or on a loaded page from 2 to the cap. |
| Pagination.CapScenario | utils/Scraping.py:169-174 | Ten advertised pages and a limit of 3 request exactly pages 1, 2 and 3. |
| Salary.AmountEnd | utils/Scraping.py:251-252 | `[\d\.]+` read greedily: the run from `i` is all amount characters, and the character after it is not one. |
| Salary.SpaceEnd | utils/Scraping.py:251-252 | `\s*` read greedily: the run from `i` is all whitespace, and the character after it is not. |
| Salary.Search | utils/Scraping.py:251-252 | A capture is a non-empty run of digits and dots. |
| Salary.CaptureIsAmount | utils/Scraping.py:251-252 | What a pattern captures at a position is a non-empty run of digits and dots. |
| Salary.SearchFound | utils/Scraping.py:251-252 | A result of the search is the capture at some position, and the pattern matches at no earlier one. |
| Salary.SearchNotFound | utils/Scraping.py:251-252 | No result means the pattern matches at no position. |
| Salary.SearchFirst | utils/Scraping.py:251-252 | The capture at the leftmost matching position is what the search returns. |
| Salary.CaptureMatches | utils/Scraping.py:251-252 | What the matcher captures is the group of a match of the regular expression. |
| Salary.MatchCaptured | utils/Scraping.py:251 | Whenever the lower-bound pattern matches at a position, the matcher captures that match's group there. The same holds for the cleaner's single-amount pattern. |
| Salary.MatchCapturedLongest | utils/Scraping.py:252 | Whenever the upper-bound pattern matches at a position, the matcher captures there too, and every match's group is a prefix of its capture: it takes the longest, as a greedy `[\d\.]+` does. |
| Salary.NoMatchBefore | utils/Scraping.py:251-252 | No pattern matches anywhere in a prefix in which `I` does not occur. |
| Salary.SearchNone | utils/Scraping.py:251-252 | The search finds nothing when no position admits a match. |
| Salary.NoCurrencyMissing | utils/Scraping.py:251-252 | A text where `IDR` never starts gives a missing bound for every pattern. |
| Salary.UnspecifiedMissing | utils/Scraping.py:224-252 | The default text `Unspecified` gives missing bounds, not zero. |
| Salary.RangeBounds | utils/Scraping.py:251-252 | A text shaped `IDR<lo> - <hi>...` has `lo` as its min and `hi` as its max, each with the separators removed. This holds also after any prefix in which `I` does not occur, because the search takes the first match. |
| Salary.RangeIsNotSingle | utils/Cleaning_and_storing.py:60 | A range text ending in `/Bulan` does not match the single-amount pattern. |
| Salary.SingleAmount | utils/Cleaning_and_storing.py:60 | `IDR<v>/Bulan` gives the amount `v`, with the separators removed, also after a prefix in which `I` does not occur. |
| Salary.RemoveSeparators | utils/Scraping.py:251-252 | `replace('.', '')` of an amount leaves only digits and never lengthens the text. |
| Salary.ThousandsDigits | utils/Scraping.py:251-252 | Removing the separators from `n` written in groups of three digits reads back as `n`. |
| Salary.ThousandsAmount | utils/Scraping.py:251-252 | `n` written with thousands separators parses back to `n`. |
| Salary.RangeRoundTrip | utils/Scraping.py:251-252 | `IDR<lo> - <hi>/Bulan`, written with thousands separators, gives min `lo` and max `hi`. This holds also after a label in which `I` does not occur. |
| Salary.CaptureAt | utils/Scraping.py:251-252 | The group a pattern captures when tried at one index. The pieces are `IDR` and a greedy `[\d\.]+`. The single pattern then needs `/Bulan`; the range patterns need `\s*-\s*` and a digit, or for the upper bound a `[\d\.]+` that is captured. Nothing when a piece is absent. |
| Salary.SalaryMin | utils/Scraping.py:251 | The `salary min` cell: missing when `IDR([\d\.]+)\s*-\s*\d+` matches nowhere. Otherwise it is the leftmost match's group read as a number without its separators, or unparsable when that group is only dots. |
| Salary.SalaryMax | utils/Scraping.py:252 | The `salary max` cell: the same for `IDR[\d\.]+\s*-\s*([\d\.]+)`. |
| PostTime.Counted | utils/Scraping.py:314-341 | A counted unit is never "no unit", and it fails exactly when `int()` rejects the first token. |
| PostTime.Seconds | utils/Scraping.py:316-330 | Minutes, hours and days have a length in seconds. Months and years, as calendar arithmetic, do not. |
| PostTime.SecondsScale | utils/Scraping.py:316-330 | An hour is 60 minutes and a day is 24 hours. |
| PostTime.ExtractTimeIsDispatch | utils/Scraping.py:312-344 | The chain of tests is the rule table menit, jam, kemarin, hari, bulan, tahun, read top to bottom. |
| PostTime.DispatchFirst | utils/Scraping.py:314-341 | Rule `k` decides when its word occurs and no earlier word does. |
| PostTime.DispatchNone | utils/Scraping.py:343-344 | The result is "no unit" exactly when none of the words occurs. |
| PostTime.FirstWordWins | utils/Scraping.py:314-341 | The first word in the fixed order that occurs in the lower-cased phrase decides, whatever later words also occur. |
| PostTime.NoWordNoUnit | utils/Scraping.py:343-344 | A phrase gives `None` exactly when it holds none of the six words. |
| PostTime.CaseInsensitive | utils/Scraping.py:314-338 | A phrase and its lower case classify the same. |
| PostTime.Yesterday | utils/Scraping.py:324-326 | `kemarin` gives exactly one day, without reading a number, unless `menit` or `jam` comes first. |
| PostTime.YesterdayIsOneDay | utils/Scraping.py:324-331 | A `kemarin` phrase means the same as `1 hari`. |
| PostTime.FirstTokenOf | utils/Scraping.py:315 | The first space-separated token of `<digits> <word>` reads as the digits' value. |
| PostTime.PhraseDigits | utils/Scraping.py:312-341 | `<digits> <word>` reads as that many units of the word, for each of the five counted units. |
| PostTime.PhraseRoundTrip | utils/Scraping.py:312-341 | `<n> <word>`, as the listings write a posting time, reads back as `n` units of the word. |
| PostTime.Decide | utils/Scraping.py:314-341 | A counted unit whose word is the first in the order to occur is chosen, with the first token's number. |
| PostTime.Classify | utils/Scraping.py:314-344 | The tests in the order menit, jam, kemarin, hari, bulan, tahun. A bad first token fails only a branch that reads it. Without a number only `kemarin` gives an offset, of one day. An offset in any unit but days counts the first token's number. |
| PostTime.ExtractTime | utils/Scraping.py:312-344 | `exctract_time` up to the clock: the tests run on the lower-cased phrase, and the first space-separated token is read by `int()`. A bad-number result means `int()` rejected that token. A count of minutes, hours, months or years is the token's value. |
| Text.StripShape | utils/Cleaning_and_storing.py:100 | `str.strip()` cuts only whitespace away on the two sides, and its result starts and ends with a non-space. |
| Text.StripIdempotent | utils/Cleaning_and_storing.py:100 | Stripping twice is stripping once. |
| Text.JoinSplit | utils/Cleaning_and_storing.py:100 | Joining the pieces of a split gives back the text. |
| Text.SplitJoin | utils/Scraping.py:253 | Splitting a join of separator-free pieces gives the pieces back. |
| Text.ParseDecimal | utils/Scraping.py:315 | `int()` reads back every numeral, whatever whitespace surrounds it. |
| Text.ParseIntLower | utils/Scraping.py:315 | `int()` of a text and of its lower case agree. |
| Cleaning.Position | utils/Cleaning_and_storing.py:23-24 | Every column has its place in the table's column order. |
| Cleaning.MissingIn | utils/Cleaning_and_storing.py:23-24 | The columns kept are exactly the given ones with a positive NaN count. |
| Cleaning.CekNan | utils/Cleaning_and_storing.py:12-32 | A name is reported exactly when it heads a column holding a NaN. Every reported name heads a column, and the names follow table order, so none is reported twice. |
| Cleaning.CekNanColumns | utils/Cleaning_and_storing.py:23-32 | The reported columns are exactly those holding a NaN, in strictly increasing table order, so each appears once. |
| Cleaning.CekNanEmpty | utils/Cleaning_and_storing.py:26-32 | The list is empty exactly when the table has no NaN. |
| Cleaning.DropMissingSkills | utils/Cleaning_and_storing.py:53-54 | The rows kept are exactly those with a skills text, and there are no more of them. |
| Cleaning.DropAppend | utils/Cleaning_and_storing.py:54 | Dropping keeps the surviving rows in their original order. |
| Cleaning.DropNothing | utils/Cleaning_and_storing.py:54 | A table whose rows all have skills loses nothing. |
| Cleaning.SalaryRuleEffect | utils/Cleaning_and_storing.py:56-63 | The branch fails only on a cast error. Otherwise every other cell is kept and a present bound is unchanged. A missing bound becomes 0 for `Unspecified`, else it takes the single monthly amount, else it stays missing. |
| Cleaning.RangeStaysMissing | utils/Cleaning_and_storing.py:60-63 | A bound missing beside a range text stays missing. |
| Cleaning.FillEffect | utils/Cleaning_and_storing.py:65-69 | The two text fills keep present texts and every other cell. They fill missing ones with "No other requirements" and "Unspecified". |
| Cleaning.ApplyRule | utils/Cleaning_and_storing.py:53-69 | A branch never adds rows, and only a salary branch can fail. |
| Cleaning.UnknownNameKeeps | utils/Cleaning_and_storing.py:51-69 | A name without a branch leaves the table as it is. |
| Cleaning.CleaningNan | utils/Cleaning_and_storing.py:34-72 | The loop over `list_na` applies each listed rule in turn to a copy of the table. |
| Cleaning.CleanStep | utils/Cleaning_and_storing.py:51 | One more name applies its rule to the table cleaned so far. |
| Cleaning.CleanFailed | utils/Cleaning_and_storing.py:56-63 | A failed cast ends the whole run. |
| Cleaning.RuleSettles | utils/Cleaning_and_storing.py:53-69 | After a rule runs, its column is settled: no rows without skills, no missing bound that the rule could fill, no missing fill texts. |
| Cleaning.SettledFixed | utils/Cleaning_and_storing.py:53-69 | A rule whose column is already settled changes nothing. |
| Cleaning.RuleKeepsSettled | utils/Cleaning_and_storing.py:53-69 | A rule keeps every other column settled. |
| Cleaning.RuleNoNewMissing | utils/Cleaning_and_storing.py:53-69 | No rule brings a NaN into a column. |
| Cleaning.CleanSettles | utils/Cleaning_and_storing.py:51-69 | A run settles every listed name. |
| Cleaning.CleanNoNewMissing | utils/Cleaning_and_storing.py:51-69 | A run adds no NaN to any column. |
| Cleaning.CleanFixed | utils/Cleaning_and_storing.py:51-69 | A table settled for every listed name comes back unchanged. |
| Cleaning.CleanIdempotent | utils/Cleaning_and_storing.py:51-69 | Cleaning twice with the same names is cleaning once. |
| Cleaning.CleanedStaysClean | utils/Cleaning_and_storing.py:12-72 | Applying `cleaning_nan(df, cek_nan(df))` to its own result changes nothing. |
| Cleaning.CleanedColumns | utils/Cleaning_and_storing.py:53-69 | After a run, a listed skills, other-requirements or industry column holds no NaN. |
| Cleaning.SalaryRule | utils/Cleaning_and_storing.py:56-63 | The two statements of a salary branch. A missing bound beside `Unspecified` becomes 0, and the others take the single monthly amount. The branch fails when some text captures only separators. |
| Cleaning.FillAnother | utils/Cleaning_and_storing.py:65-66 | `fillna("No other requirements")` on `another_requirements`. The rows are kept. |
| Cleaning.FillIndustry | utils/Cleaning_and_storing.py:68-69 | `fillna("Unspecified")` on `company_industry`. The rows are kept. |
| Cleaning.Clean | utils/Cleaning_and_storing.py:50-69 | The loop as a fold: the rules of the listed names, in list order, on the running table. It stops at the first failed cast. |
| Cleaning.RewrittenColumn | utils/Cleaning_and_storing.py:53-69 | The column a branch may rewrite, named as the branch's own name. Only the two salary names and the two fill names have one. |
| Cleaning.SalaryKeepsOthers | utils/Cleaning_and_storing.py:56-63 | A salary branch keeps the rows, their skills texts and every column but its bound. |
| Cleaning.FillKeepsOthers | utils/Cleaning_and_storing.py:65-69 | Each fill keeps the rows, their skills texts and every column but its own. |
| Cleaning.RuleKeepsOthers | utils/Cleaning_and_storing.py:53-69 | Every branch but the skills one keeps the rows, their skills texts and every column it does not rewrite. Names without a branch are included. |
| Cleaning.DropAgree | utils/Cleaning_and_storing.py:53-54 | Two tables that agree row for row on a column and on the skills texts still agree after `dropna`. |
| Cleaning.CleanKeepsOthers | utils/Cleaning_and_storing.py:50-69 | A run leaves every column no listed name rewrites as it was. Without `skills_requirements` in the list, the result has the table's rows and, row for row, its column. With it, the same holds against the table minus its rows without skills, wherever that name comes in the list. |
| Cleaning.CleanAgrees | utils/Cleaning_and_storing.py:50-69 | The invariant of the run: the result agrees, row for row, on the column and the skills texts with the table, or with the table after `dropna` once that name has been seen. |
| SkillTable.PieceRows | utils/Cleaning_and_storing.py:100 | One list of pieces per row. |
| SkillTable.PiecesShape | utils/Cleaning_and_storing.py:100 | A text gives one stripped piece per comma-separated part, and each piece is its own strip. |
| SkillTable.TokenOrigin | utils/Cleaning_and_storing.py:100 | A token is counted exactly when it is a stripped comma-separated piece of some row's present skills text. |
| SkillTable.BumpFacts | utils/Cleaning_and_storing.py:100 | One more occurrence raises the count of that skill only, and keeps the rows distinct and positive. |
| SkillTable.Tally | utils/Cleaning_and_storing.py:100 | The counting pass: one row per distinct token, in first-occurrence order. Each token adds 1 to its row. |
| SkillTable.TallyCounts | utils/Cleaning_and_storing.py:100 | The tally gives every value its number of occurrences and lists exactly the values of the tokens, each once. The counts add up to the number of tokens. |
| SkillTable.InsertFacts | utils/Cleaning_and_storing.py:100 | Insertion by count adds the row and keeps a sorted table sorted. |
| SkillTable.SortByCount | utils/Cleaning_and_storing.py:100 | The result is a permutation of the rows, in non-increasing count order. |
| SkillTable.ValueCountsFacts | utils/Cleaning_and_storing.py:100 | `value_counts()` is sorted by non-increasing count and lists each value once. Each count is the value's number of occurrences, at least 1. The values are exactly those given, and the counts sum to their number. |
| SkillTable.SkillCountsFacts | utils/Cleaning_and_storing.py:100 | The same facts for the skills table of a whole table, over its tokens. |
| SkillTable.ValueCounts | utils/Cleaning_and_storing.py:100 | `value_counts()`: the tally, reordered by non-increasing count, with the same rows. |
| SkillTable.SkillCounts | utils/Cleaning_and_storing.py:100 | The table of line 100: `value_counts()` of the stripped comma-separated pieces of every row, sorted by count. |
| SkillTable.TokensOfCleaned | utils/Cleaning_and_storing.py:100 | Once the rows without skills are dropped, the counts add up to at least one per row. |
| SkillTable.JoinedSkillsRoundTrip | utils/Scraping.py:228-253 | The pieces of `", ".join(skills)` are the skills again, for non-empty, stripped, comma-free skills. |

## Left out

- The browser and the network are not modelled: logging in, `request_page`, waits, time-outs
  and the navigation inside `extract_job_details`. A page fetch is the parameter `load`, and a
  detail extraction is the parameter `extract`.
- HTML parsing with BeautifulSoup and CSS selectors is not modelled. A listing page is its
  cards, each with an optional href, and the texts of its pagination buttons. A BeautifulSoup
  page that is falsy is a missing page.
- How `extract_job_details` assembles a record from the page's fields is not modelled. The
  extractor parameter is the whole of that step.
- The random `time.sleep` delays, the `tqdm` progress bars and every console `print` are left
  out, including the report `cek_nan` prints and the one `cleaning_nan` triggers at its end.
  None of them affects a result.
- `datetime.now()`, `strftime` and the `relativedelta` month and year subtraction in
  `exctract_time` and in the `obtained` field are left out. The model stops at the offset that
  is subtracted from the clock.
- PostTime.ExtractTime: an offset too large to subtract fails in the program. For example,
  `99999999999 hari yang lalu` makes the `Timedelta` of lines 316-330 or the `relativedelta`
  of lines 335-340 raise an `OverflowError` or `ValueError`. The model returns the offset for
  every count, since the limit belongs to the clock arithmetic it leaves out.
- Floats are not modelled. Salary bounds are naturals and NaN is `None`. Digits too many for a
  float to hold exactly are not rounded.
- `IsSpace`, `IsDigit`, `Lower` and `ParseInt` treat digits and letters as ASCII only. Python's
  `\d`, `int()` and `str.lower()` also accept other Unicode digits and case pairs, and `int()`
  accepts `_` between digits.
- SkillTable.SortByCount: the order of skills with equal counts is not claimed to be the one
  pandas produces. `value_counts` does not promise one, and the model keeps first-occurrence
  order.
- `cleaning_nan` reassigns a copied data frame in place. The model computes each column rule
  as a function from table to table, and the method folds those over `list_na`. Aliasing does
  not arise, because the copy is never shared.
- SkillTable.SkillCounts: line 100 on a `skills_requirements` column that holds only NaN
  raises an `AttributeError` in pandas, because `.str` needs text. The model gives an empty
  table. `main.py` cannot pass such a column: cleaning drops the rows whose skills are NaN, and
  an empty table is not uploaded.
- Cleaning.SingleBound: pandas reads a `salary_range` column holding only NaN as floats, and
  the `.str` accessor then raises an error. The model instead leaves such a bound missing.
- PostTime.ExtractTime: a NaN `post_time` has no `lower`, and raises before any test. The model
  only takes text.
- Salary: a capture that holds only dots cannot be parsed. At the scraper this raises inside
  the record construction, so the extractor returns no record. That is a failed extraction as
  far as the batch loop is concerned. In the cleaner it is the `CastFails` error of the whole
  run.
- `upload_gbq` is modelled only through its line-100 counting expression. Credentials and the
  BigQuery upload are left out.
- `filter_relevan_job` is called from `main.py` but defined in no file of the repository, so it
  is not modelled. `utils/data_utils.py` (the credential prompt) is not modelled, and neither
  are `main.py` and the `__main__` blocks: they handle CSV files and orchestration.
