# Job-listing crawler and merger, modelled in Dafny

The repository collects job listings from a recruitment site and turns them into
one dataset. `crawler/crawl.py` goes through the configured job categories. For
each category it:

- opens the category URL in a browser;
- asks once for a manual login, gated by the `authorized` flag;
- reads at most 14 result pages;
- turns every `.job-primary` listing element into one record of 14 fields:
  - the salary range and the optional annual bonus;
  - the experience and education parts of the requirement markup;
  - the company scale;
  - the `#`-joined keywords.

An element on which any lookup or parse raises is meant to be dropped.
`crawler/merge.py` then works on the CSV files named on its command line. It
concatenates them, drops the first column and shuffles the rows under a fresh
index.

The model is split into these modules:

- `Wrappers` (`wrappers.dfy`): `Option` and `Result`.
- `Text` (`text.dfy`): the Python string operations the crawler relies on: `str.find`, `str.split` with a separator, `str.replace(c, '')`, `int()` and `str()`. It also proves that split and join are inverses when the separator is *borderless*, meaning two of its occurrences cannot overlap.
- `PyFormat` (`pyformat.dfy`): `fmt % args` for `%s`, `%d` and `%%`, with its `TypeError` and `ValueError` cases.
- `Extract` (`extract.dfy`): the extraction of one listing element into a `Listing`, and the keyword accumulator loop as a method.
- `Crawl` (`crawl.dfy`): the page loop and the category loop, as a `Crawler` class whose fields are the state the script changes:
  - the browser URL and history;
  - `results`;
  - `authorized`;
  - the login prompts shown;
  - `count_of_current`;
  - a ghost list of the addresses whose page the loop has read.

  Each loop method is proved against specification functions: `RecordsFrom`, `VisitsFrom`, `PagesRead` and `LastShown` for one category, `AllRecords`, `AllVisits` and `AllPages` for the whole run.
- `Merge` (`merge.dfy`): the argument loop, the concatenation, the dropped column, and the shuffle as an arbitrary permutation followed by the index reset.

Modelling choices:

- **The browser session is a parameter.** `site: string -> Page` maps the URL the browser shows to the page it displays. A `Page` holds the page's `.job-primary` elements and says whether `.next:not(.disabled)` is found.
- **An `Element` records what each lookup returns.** It holds the text or inner HTML of each single-element lookup, or `None` where that lookup raises `NoSuchElementException`.
- **CSV reading is a parameter.** `readCsv: string -> Table`.
- **The shuffle's random generator is a parameter.** It is the permutation `order` passed in.

## Model

| member | source | states |
|---|---|---|
| Text.Find | crawler/crawl.py:49 | `str.find`. The result is -1 exactly when `sub` occurs nowhere. Otherwise `sub` occurs at the result and at no lower index. |
| Text.Split | crawler/crawl.py:50-53 | `str.split(sep)`. There is always at least one piece. The pieces joined with `sep` give back the input. No piece contains `sep`. There is exactly one piece iff `sep` does not occur. |
| Text.SplitJoin | crawler/crawl.py:55 | For a borderless separator, splitting the join of separator-free pieces gives back exactly those pieces. |
| Text.SplitLeading | crawler/crawl.py:56-57 | When a split has two or more pieces, pieces 0 and 1 are the two leading, separator-free fields of the input. |
| Text.LeadingSplit | crawler/crawl.py:56-57 | The converse for a borderless separator: two leading separator-free fields are pieces 0 and 1 of the split. |
| Text.JoinLast | crawler/crawl.py:62 | A join of two or more pieces ends with the separator followed by the last piece. |
| Text.FindChar | crawler/crawl.py:49 | Finding a one-character string fails iff the character is absent. |
| Text.RemoveChar | crawler/crawl.py:47 | `replace(c, '')`. No `c` is left, and a string without `c` is unchanged. |
| Text.RemoveCharCounts | crawler/crawl.py:47 | Every character other than `c` occurs as often after the removal as before. |
| Text.RemoveCharConcat | crawler/crawl.py:47 | Removal distributes over concatenation, so the characters that remain keep their order. |
| Text.ParseInt | crawler/crawl.py:52-53 | `int()` succeeds iff the token is a non-empty string of decimal digits. The value is then non-negative. |
| Text.ShowNat | crawler/crawl.py:93 | `str(n)` is a non-empty string of decimal digits. |
| Text.ParseShow | crawler/crawl.py:52-53 | `int(str(n)) == n`. |
| PyFormat.Format | crawler/crawl.py:88 | `%` succeeds only when there is exactly one argument per `%s`/`%d` slot. Fewer arguments than slots is always an error. |
| PyFormat.FormatLiteral | crawler/crawl.py:93 | Text without `%` is copied through unchanged in front of the rest of the result. |
| PyFormat.StrSlot | crawler/crawl.py:88 | A `%s` slot takes the next argument's text and formats the rest with the remaining arguments. |
| PyFormat.IntSlot | crawler/crawl.py:93 | `"%d" + tail` with one integer gives `str(n) + tail`. |
| Extract.VlineBorderless | crawler/crawl.py:55 | The vline marker cannot overlap itself, so its split/join round trip holds. |
| Extract.SplitBonus | crawler/crawl.py:47-51 | After every `K` is removed, the range holds no `K`. There is a bonus iff the text contains `·`. Without `·` the range is the whole `K`-less text. With `·` the range and the bonus are the first two `·`-pieces of the `K`-less text, and neither holds `K`. |
| Extract.BonusFields | crawler/crawl.py:50-51 | The two leading `·`-pieces of a `K`-less text are its leading fields, and neither contains `K`. |
| Extract.ParseRange | crawler/crawl.py:52-53 | A range without `-` always fails. Every failure is `ValueError` or `IndexError`. Successful bounds are non-negative. |
| Extract.ParseRangeTokens | crawler/crawl.py:52-53 | When `lo` and `hi` lead the range, the parse succeeds iff both are decimal, and the bounds are their values. Any further tokens are ignored. |
| Extract.ParseSalary | crawler/crawl.py:47-53 | The salary parses iff the range that `SplitBonus` leaves parses. Its bounds are then exactly the two values `ParseRange` reads from that range, and its bonus is the one `SplitBonus` finds. The bounds are non-negative. A salary text without `-` is rejected. |
| Extract.SalaryWithoutBonus | crawler/crawl.py:47-53 | `"a-bK"` parses to bounds a and b with no bonus. |
| Extract.SalaryWithBonus | crawler/crawl.py:47-53 | `"a-bK·c"` parses to bounds a and b with bonus c. |
| Extract.ParseLimit | crawler/crawl.py:55-57 | Extraction fails, with `IndexError`, iff the markup holds no vline marker. Otherwise experience and education are the markup's two leading fields. |
| Extract.LimitOfFields | crawler/crawl.py:55-57 | Conversely, markup led by fields X and Y yields experience X and education Y. |
| Extract.CompanyScale | crawler/crawl.py:60-62 | The scale never contains the marker. Markup without a marker is its own scale. Otherwise the markup ends with the marker followed by the scale. |
| Extract.ScaleOfSegments | crawler/crawl.py:60-62 | Markup made of marker-free segments has the last segment as its scale, whatever the number of segments. |
| Extract.Hashtags | crawler/crawl.py:65-68 | The keywords hold at least one character per tag, and they start with `#` when there is a tag. |
| Extract.HashtagsSnoc | crawler/crawl.py:66-68 | Adding one tag appends `#` and the tag's text to the keywords. |
| Extract.HashtagsJoin | crawler/crawl.py:66-68 | The keywords are the tag texts joined by `#` after an empty head. |
| Extract.KeywordsSplit | crawler/crawl.py:65-68 | When no tag text contains `#`, splitting the keywords on `#` gives an empty head followed by the tag texts. |
| Extract.KeywordsExamples | crawler/crawl.py:66-68 | No tags give `""`. Tags A and B give `"#A#B"`. |
| Extract.Keywords | crawler/crawl.py:66-68 | The accumulator loop computes exactly the `#`-joined keywords of all tags, in order. |
| Extract.ExtractListing | crawler/crawl.py:43-86 | A record carries the category's type and name and the element's job name and job area. An element without a job name fails at the `.job-name a` lookup. |
| Extract.ExtractSucceeds | crawler/crawl.py:43-86 | An element yields a record iff every lookup finds its element, the salary parses, and the requirement markup has two pieces. |
| Extract.LimitDecides | crawler/crawl.py:55-57 | When every lookup finds its element and the salary parses, the element yields a record iff the requirement markup holds the marker. |
| Extract.EarlyFailure | crawler/crawl.py:44-53 | A missing element or an unparsable salary abandons the element. |
| Extract.ExtractedFields | crawler/crawl.py:47-86 | Each field of an extracted record is tied to the element: the category's type and name; the element's job name, job area, company name, company category and welfare texts; minimum salary, maximum salary and bonus exactly as `ParseSalary` parses the salary text; experience and education as the two leading fields of the requirement markup; the scale of the company markup; the keywords of the tags. |
| Extract.MissingNameOrArea | crawler/crawl.py:44-45 | An element without a job name or a job area yields no record. Without a name, the failure is the `.job-name a` lookup. |
| Crawl.RequestUrl | crawler/crawl.py:21 | The category URL: the site's domain followed by the category's `url` entry. It has no contract of its own. `CrawlCategory` and `Run` are stated in its terms. |
| Crawl.NextPageQuery | crawler/crawl.py:93 | `"?page=%d" % n` is `"?page="` followed by `str(n)`. |
| Crawl.ExtractAll | crawler/crawl.py:41-88 | A page's records, in element order, never outnumber its elements. |
| Crawl.PageRecordsTagged | crawler/crawl.py:72-73 | Every record of a page carries the category's type and name. |
| Crawl.ExtractAllSound | crawler/crawl.py:42-86 | A page never yields more records than it has elements. Every record is the extraction of one of the page's elements. |
| Crawl.RecordsHaveNames | crawler/crawl.py:42-86 | Every record's job name and job area are those of an element of the page. |
| Crawl.PagesRead | crawler/crawl.py:37-41 | The addresses of the pages the loop reads from page p on: none at or past the ceiling, otherwise first the address of page p. `Crawler.ReadPages` appends exactly these to its ghost list. |
| Crawl.PagesBounded | crawler/crawl.py:37-41 | A category reads at most 15 - p pages from page p on, so at most 14 in all. |
| Crawl.AlwaysNext | crawler/crawl.py:37-41 | Even when every page offers a next control, the loop stops at the ceiling after reading pages p, p+1, ..., 14 in order. |
| Crawl.NextPageRead | crawler/crawl.py:90-93 | A page with a next control is followed by the pages read after it. |
| Crawl.RecordsFrom | crawler/crawl.py:37-100 | The records a category collects from page p on: page p's records, then those of the later pages only when page p has a next control. It has no contract of its own: `RecordsFromPages` and `RecordsFromTagged` state its properties. |
| Crawl.RecordsFromPages | crawler/crawl.py:37-100 | The records collected are exactly those of the pages read, page after page. |
| Crawl.RecordsFromTagged | crawler/crawl.py:72-73 | Every record a category collects carries that category's type and name. |
| Crawl.VisitsFrom | crawler/crawl.py:90-93 | The navigations to later pages from page p on: at most 15 - p. |
| Crawl.LastShown | crawler/crawl.py:90-100 | The URL the browser shows when a category's page loop ends: that of the first page without a next control, or of page 15 once the ceiling is reached. It has no contract of its own. `LastShownIsLastVisit` states its property, and `ReadPages`, `CrawlCategory` and `Run` describe the final URL by it. |
| Crawl.LastShownIsLastVisit | crawler/crawl.py:90-100 | The URL the browser shows when a category's page loop ends is the last URL navigated to for that category. |
| Crawl.NextPageUrl | crawler/crawl.py:93 | `request_url + "?page=%d" % n` is the URL of page n. |
| Crawl.VisitsAreNextPages | crawler/crawl.py:90-93 | Each navigation goes to `?page=` of the already incremented page number. There are never more navigations than pages read. |
| Crawl.Crawler.constructor | crawler/crawl.py:14-17 | The crawler starts unauthorized, with no results, no history and no page read. |
| Crawl.Crawler.Get | crawler/crawl.py:22 | Navigating sets the current URL and appends it to the history. |
| Crawl.Crawler.ProcessItem | crawler/crawl.py:43-88 | An element's record is appended, and `count_of_current` advanced, exactly when its extraction succeeds. On a failure nothing changes (the intended skip policy). The keywords the accumulator loop builds are those of the record. |
| Crawl.Crawler.CrawlPage | crawler/crawl.py:41-88 | A page appends the records of its elements, in element order, and advances the counter by their number. |
| Crawl.Crawler.ReadPage | crawler/crawl.py:41-91 | Reading the page shown appends its records and advances the counter by their number, records its address as read, and reports whether it has a next control. |
| Crawl.Crawler.CrawlCategory | crawler/crawl.py:21-100 | A category appends the records of the pages read, and `count_of_current` is their number. The login prompt is added only if the crawler was not yet authorized, and afterwards it is. The browser visits the category URL and then exactly the next-page URLs of the pages that had a next control, and ends on the URL given by `LastShown`. The pages read are exactly `PagesRead` from page 1. |
| Crawl.Crawler.ReadPages | crawler/crawl.py:30-100 | The page loop starts on the category URL, resets the counter, and collects `RecordsFrom` page 1. It reads exactly the pages of `PagesRead`, navigates exactly to those of `VisitsFrom`, and ends on the URL of `LastShown`. |
| Crawl.Crawler.Run | crawler/crawl.py:20-100 | The categories' records are appended in category order. `authorized` ends up set iff it was already set or some category was crawled. At most one prompt is shown, for the first category. The history grows by exactly `AllVisits` and the pages read by exactly `AllPages`. After at least one category, the browser shows the last category's final URL and the counter holds that category's record count. With no category, neither changes. |
| Crawl.AllVisits | crawler/crawl.py:20-93 | The run's whole `driver.get` sequence: for each category, its URL (line 22) and then its next-page URLs (line 93). It has no contract of its own. `Run` states the history by it, and `VisitsAreNextPages` states the next-page part's properties. |
| Crawl.AllPages | crawler/crawl.py:20-41 | The addresses of every page the run reads, category after category. It has no contract of its own. `Run` states the pages read by it, and `PagesBounded` and `AlwaysNext` bound each category's part. |
| Crawl.AllRecords | crawler/crawl.py:20-100 | The records of all categories, category after category. It has no contract of its own: `Crawler.Run`, `CrawlAll` and `AllRecordsTagged` state its properties. |
| Crawl.AllRecordsTagged | crawler/crawl.py:72-73 | Every record of the run carries the type and the name of one of the configured categories. |
| Crawl.CrawlAll | crawler/crawl.py:14-100 | The whole script yields the records of all categories, and exactly one login prompt, for the first category (none when there are no categories). |
| Crawl.HandlerRaises | crawler/crawl.py:88 | The handler's two-slot format with one string argument raises TypeError (not enough arguments), whatever the string. |
| Crawl.HandlerAsWritten | crawler/crawl.py:88 | As written, the handler's message fails with not enough arguments for every category. |
| Crawl.ItemOutcomeAsWritten | crawler/crawl.py:43-88 | As written, no element is ever skipped: it is appended exactly when it extracts, and otherwise the handler raises. |
| Crawl.FailureEndsRunAsWritten | crawler/crawl.py:87-88 | As written, any element that fails to extract makes the handler raise, so the run ends. |
| Crawl.MissingNameEndsRunAsWritten | crawler/crawl.py:43-88 | As written, an element without a job name ends the run. |
| Crawl.HandlerIntended | crawler/crawl.py:88 | Line 88 as intended: the handler's format applied to the category and the page number. It has no contract of its own. `HandlerIntendedFormats` states its result. |
| Crawl.HandlerIntendedFormats | crawler/crawl.py:88 | With the category and the page number, the message formats to its head, the category, its middle, the page number and its tail. |
| Merge.CollectFrames | crawler/merge.py:8-11 | One table is read per command-line argument after the program name, in argument order, and none is read for the program name itself. |
| Merge.ConcatRows | crawler/merge.py:13 | The stacked rows number the total rows of all frames. |
| Merge.ConcatRowsWidth | crawler/merge.py:13 | Frames of one width stack to rows of that width. |
| Merge.ConcatRowsAt | crawler/merge.py:13 | Row i of frame k lands at the total row count of frames 0..k-1 plus i. |
| Merge.Concat | crawler/merge.py:13 | The concatenation succeeds iff there is an input and all inputs share their columns. The result holds the stacked rows under those columns, with the index 0..n-1. |
| Merge.DropFirstCells | crawler/merge.py:14 | Every non-empty row loses exactly its first cell. |
| Merge.DropFirstColumn | crawler/merge.py:14 | Dropping fails iff there is no column. Otherwise exactly the first column label and the first cell of every row are removed, and the index is kept. |
| Merge.Permute | crawler/merge.py:15 | Position i of the result holds element `order[i]`. |
| Merge.PermuteKeepsMultiset | crawler/merge.py:15 | Reordering by a permutation keeps every row exactly as often as before. |
| Merge.RemoveLargest | crawler/merge.py:15 | Taking the largest position out of a permutation leaves a permutation of the smaller positions. |
| Merge.Sample | crawler/merge.py:15 | `sample(frac=1)` keeps the columns and the multiset of rows. |
| Merge.ResetIndex | crawler/merge.py:15 | `reset_index(drop=True)` keeps the columns and the rows, and renumbers the index 0..n-1. |
| Merge.MergeFrames | crawler/merge.py:13-15 | A merged table has one row per input row and the index 0..n-1. With no input file it fails like `pd.concat([])`. |
| Merge.MergeFramesSpec | crawler/merge.py:13-15 | The merge succeeds iff there is an input, the inputs share their columns, and there is a column to drop. Its output: the remaining columns; one row per input row, each without its first cell, each exactly once; the index 0..n-1. |
| Merge.MergeTwo | crawler/merge.py:13-15 | Two inputs of m and n rows merge into m + n rows: the rows of both without their first cell, each exactly once. |

## Left out

- The browser is out of the model: Selenium, Chrome, the implicit 10-second wait and page loading. A page is whatever the `site` parameter returns for a URL. Being logged in is assumed not to change what a page shows; the login itself is out of the model.
- A browser failure during navigation is not modelled. At line 22 such a failure is unhandled and ends the run. The navigation at line 93 sits inside the `try` of lines 90-93, so its failure is caught at line 94: `dataset.csv` is written and the category's page loop ends, and the run goes on with the next category.
- `categories.json` is not read in the model. The categories are a parameter.
- Console output is not modelled. This covers every `print`, including the messages themselves, and `os.system("pause")`. The login prompt is modelled only as the URL it shows.
- The CSV files are not modelled: `dataset.csv`, written at line 98 after every category that ends on a page without a next control and at line 103 at the end, and `dataset_merged.csv`. The data frames built for them hold the records the model collects.
- Text.ParseInt: it accepts decimal digits only. Python's `int()` also accepts a sign, surrounding whitespace, underscores and non-ASCII digits.
- PyFormat.Format: it covers `%s`, `%d` and `%%` only. Flags, widths, other conversions and mapping keys are not modelled.
- Merge.Concat: inputs with differing columns are an error here. pandas would align such inputs by column label and fill the gaps with NaN.
- Merge.DropFirstColumn: it drops the first column by position. The source drops it by label, which is the same only while the labels are unique, as `read_csv` makes them.
- Merge.Sample: the random generator is out of the model. Any permutation the caller supplies stands for the one it draws.
- `result/visualize.py` is not part of this model.
- Line 88 applies `%` to a two-slot format with the single argument `job_category`. The handler therefore raises `TypeError` from inside the `except` block, and nothing catches it. So the first element that fails to extract ends the whole run. Every record gathered since `dataset.csv` was last written at line 98 is lost. A category whose loop ended at the page ceiling was never written there either. The model shows both behaviours; see Findings.
- The bonus is what the code takes: `split('·')[1]`, the text between the first and the second `·`. It is not everything after the first `·`.

## Findings

| source | as written | input that shows it | evidently intended | confidence | as-written member | corrected member |
|---|---|---|---|---|---|---|
| crawler/crawl.py:88 | `"[分类 %s 页面 %d] Exception: " % job_category, page_of_current, err`: `%` binds to the single string `job_category`, which leaves the `%d` slot without an argument | any listing element on which a lookup raises, for example one without `.job-name a` | format the category and the page number, print the exception, and go on with the next element | not executed | Crawl.FailureEndsRunAsWritten | Crawl.Crawler.ProcessItem |
