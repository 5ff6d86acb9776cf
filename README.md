# BDM-Scrapper, modelled in Dafny

This project models the core of BDM-Scrapper, a scraper for the French blog
"Blog du Modérateur" and the small Flask front end that searches and shows
what the scraper stored. The model covers these parts:

- **The extractors** (`scrapper/extractors.py`, duplicated with the same
  logic in `extractors.py`). They cover the article body, the summary, the
  table of contents, the images, the publication date and the author.
  `test.py` holds an older copy of each extractor. Where that copy differs,
  the model has a flag or a second member for it:
  - the content extractor also removes the first summary box, and it does the
    final clean-up inside the selector loop;
  - the summary keeps the first paragraph only when it is longer than 50
    characters;
  - an image caption may come from the image's direct parent.
- **The crawler** (`scrapper/scraper.py`, and the copy in `test.py`). It reads
  the category list and walks the paginated article links of each category. It
  builds one record per article (title, thumbnail, category and
  subcategories, and the extractors' fields). The run hands out the records
  that have a title. The older crawler in `test.py` stores them in MongoDB
  under a unique index on the title. It also carries a category extractor that
  reads the `data-cat` attribute, though its own `scrape_article` never calls it
  and uses the same tag and fallback loop as `scrapper/scraper.py`.
- **The front end's content rendering** (`front_flask/routes.py`). It covers
  the three Markdown heading passes, the video-link replacement and their
  composition.
- **The front end's queries** (`front_flask/models.py`). It covers how
  `search_articles` builds its MongoDB filter, the truthy filter of
  `get_unique_values`, and the split, strip, de-duplicate and sort of
  `get_unique_subcategories`.

## How the model is organised

Each module follows one part of the program:

- `Text`: the Python string operations the code relies on (`strip`, `lower`,
  `title`, `split`, `join`, `replace`, `re.sub` with `\s+`, `\n{3,}` and
  `[ \t]+`) as functions, with their properties.
- `Dom`: the parsed page (`BeautifulSoup`) as a tree of `Node` values. It
  covers `get`, `get_text(strip=True)`, `select`, `select_one`, `find_parent`
  and the in-place `decompose`. The page is a `Soup` object whose `root` the
  extractors replace.
- `Content`, `Summary`, `Toc`, `Images`, `Dates` and `Authors`: one module
  per extractor. Each has the extractor as a method that loops over its
  selectors as the Python does; those of `Content` and `Images` also prune the
  page in place. The method is proved equal to a specification function, and
  the properties are lemmas about that function.
- `Strptime`: the part of `datetime.strptime` and `strftime` the formats use.
  It works as a backtracking matcher over the compiled regular expression of
  a format, so `%d` and `%B` follow Python's alternation order.
- `Scraper`: the newer crawler. `Legacy`: the older crawler of `test.py`, with
  its MongoDB collection as a class whose `collection` field `save_article`
  extends.
- `Routes`: the three content filters of the front end.
- `Search`: the three query helpers of `ArticleSearcher`.

The HTTP session is a parameter. A fetcher maps an address to the parsed page,
or to nothing when the request fails. The clock (`datetime.now()`) is a string
parameter, and `BASE_URL` is a parameter of the image and thumbnail
functions.

### Where the code defeats its own intent

The model follows the code in each case below.

- The date extractor carries a French month table
  (`scrapper/extractors.py:255-260`) and tries `%d %B %Y`
  (`scrapper/extractors.py:246`), so a date such as `"15 janvier 2024"` was
  evidently meant to be read. It is not. The month loop turns it into
  `"15 01 2024"`, and `%d %B %Y` cannot read a number as a month name, so the
  result is `""` (`Dates.FrenchDateExample`).
- The timestamp format `%Y-%m-%dT%H:%M:%S%z` never succeeds. The cleaning
  step removes every colon before the first format is tried. A timestamp
  still gives its date, through `%Y-%m-%d` on the part before `T`
  (`Dates.TimestampNeverMatches`, `Dates.TimestampDate`).
- In the `test.py` content extractor, the final newline and blank clean-up
  sits inside the selector loop, after the `break`. For the selector that
  succeeds it is skipped, so that result is only stripped
  (`Content.ExtractArticleContentOlder`).
- In `test.py`, tags are filtered against the `data-cat` category only. When
  the main category comes from the fallback selectors instead, a tag naming it
  is kept (`Legacy.FallbackNotFiltered`).

## Model

| member | source | states |
|---|---|---|
| Text.Strip | scrapper/extractors.py:87 | `str.strip()`: the result has no whitespace at either end, occurs in the input right after a leading all-whitespace part, and only whitespace follows it |
| Text.StripHeading | scrapper/extractors.py:43 | a heading block `"\n## " + t + "\n"` with `t` stripped strips to `"## " + t`, or to `"##"` when `t` is empty |
| Text.TitleCaseAt | test.py:91 | `str.title()`: a letter after a letter is lower-cased, any other letter upper-cased, and the length is kept |
| Text.ReplaceNoMatch | scrapper/extractors.py:75 | `str.replace` gives the string back unchanged when the pattern does not occur in it |
| Text.ReplaceLeftmost | scrapper/extractors.py:75 | `str.replace` replaces the leftmost occurrence, keeps everything before it, and goes on after that occurrence, so replacements never overlap |
| Text.ReplaceKeepsPrefix | scrapper/extractors.py:75 | where no occurrence of the pattern starts before position `i`, `str.replace` keeps the first `i` characters as they are and replaces in the rest on its own |
| Text.ReplaceChars | scrapper/extractors.py:75 | every character of the result of `str.replace` comes from the string or from the replacement |
| Text.FindLeftmost | scrapper/extractors.py:75 | the search `str.replace` relies on finds the leftmost occurrence of the pattern, and finds nothing only when the pattern does not occur |
| Text.ReplaceNoneLeft | scrapper/extractors.py:75 | when the pattern and the replacement share no character, no occurrence of the pattern is left after `replace` |
| Text.JoinSplit | front_flask/models.py:93 | joining the pieces of `s.split(c)` with `c` gives `s` back |
| Text.SplitJoin | front_flask/models.py:93 | splitting a join of pieces that hold no `c` on `c` gives the pieces back |
| Text.CollapseSpaceEnds | scrapper/extractors.py:74 | collapsing whitespace runs keeps a last character that is not whitespace, so a stripped text stays stripped at its end |
| Text.CollapseBlanksSplits | scrapper/extractors.py:86 | `re.sub(r'[ \t]+', ' ', s)` works line by line: a newline is kept and splits the text into parts collapsed on their own |
| Text.CollapseSpaceSeparates | scrapper/extractors.py:74 | `re.sub(r'\s+', ' ', s)` replaces a whitespace run between two texts by exactly one space, and each side is collapsed on its own |
| Text.CollapseBlanksSeparates | scrapper/extractors.py:86 | `re.sub(r'[ \t]+', ' ', s)` replaces a run of spaces and tabs between two texts by exactly one space, and each side is collapsed on its own |
| Text.CapNewlinesNoop | scrapper/extractors.py:85 | `re.sub(r'\n{3,}', '\n\n', s)` is the identity on text without three newlines in a row |
| Text.DecimalInjective | scrapper/scraper.py:56 | distinct page numbers are written differently |
| Text.DedupShape | scrapper/scraper.py:71-72 | appending each value unless already present gives a list without repeats, never longer, holding exactly the input's values |
| Text.DedupPrefix | scrapper/scraper.py:71-72 | de-duplicating a longer list extends the de-duplication of its prefix |
| Dom.Get | scrapper/extractors.py:186 | `tag.get(key)` is present exactly when the element has the attribute |
| Dom.GetFirst | scrapper/extractors.py:186 | `a.get(x) or a.get(y) or a.get(z)`: a non-empty result comes from one of the keys, and is non-empty whenever one of the keys has a non-empty value |
| Dom.GetFirstFirstWins | scrapper/extractors.py:186 | the first key whose value is present and non-empty gives the result |
| Dom.GetFirstAllFalsy | scrapper/extractors.py:186 | when no key has a present, non-empty value, the result is the last lookup's (absent or empty) |
| Dom.GetTextStripped | scrapper/extractors.py:47 | `get_text(strip=True)` never starts or ends with whitespace |
| Dom.FindParent | test.py:399 | `find_parent(name)` returns the nearest ancestor with that tag name: an ancestor of the node, named so, with no such element between them; nothing exactly when no ancestor has that name |
| Dom.ParentAt | test.py:406 | `find_parent()` is the direct parent element |
| Dom.Children | scrapper/extractors.py:53 | `find_all('li', recursive=False)` gives one entry per direct child, each the child at its own position |
| Dom.Prune | scrapper/extractors.py:22-26 | the `decompose` loop over `find_all` keeps the element's own name, attributes and classes |
| Dom.PruneCleans | scrapper/extractors.py:22-26 | after the `decompose` loop no element matching the list is left below the region |
| Dom.PruneIdempotent | scrapper/extractors.py:177-181 | running the `decompose` loop again removes nothing more |
| Dom.RemoveFirst | test.py:188-190 | `find(class_=...)` then `decompose` keeps the element's own name, attributes and classes |
| Dom.RemoveFirstCount | test.py:188-190 | something is removed exactly when something matched, and the number of matches drops by at least one |
| Dom.AtReplaceAt | scrapper/extractors.py:26 | changing a node of the page and reading it back gives the changed node |
| Dom.DescendantsAreAt | scrapper/extractors.py:35-38 | every element `find_all` returns can be found again in the page by its path |
| Content.Normalize | scrapper/extractors.py:74-75 | a normalised block has no newline and no tab, and is non-empty whenever the raw text is not blank |
| Content.Block | scrapper/extractors.py:73-75 | a retained block is non-empty and has no newline and no tab |
| Content.Parts | scrapper/extractors.py:73-77 | `content_parts` holds no repeats, and each part is non-empty, without newline or tab |
| Content.PartsAreDistinctBlocks | scrapper/extractors.py:76-77 | `content_parts` is exactly the distinct blocks of the elements, in order of first appearance |
| Content.HeadingRule | scrapper/extractors.py:42-43 | a heading element yields a block exactly when its text is non-empty |
| Content.ParagraphRule | scrapper/extractors.py:46-47 | a paragraph yields a block exactly when its text is longer than 3 characters |
| Content.ListRule | scrapper/extractors.py:50-56 | a `ul`/`ol` yields a block exactly when one of its own `li` children has text longer than 5 characters |
| Content.ListItemsFirst | scrapper/extractors.py:51-55 | a list has a bullet line exactly when one of its items is long enough, and its first line is such a bullet |
| Content.ItemRule | scrapper/extractors.py:59-64 | an orphan `li` or a `blockquote` yields a block exactly when its text has at least 2 characters |
| Content.DivRule | scrapper/extractors.py:67-70 | a `div` yields a block exactly when no block element is nested in it and its text is longer than 10 characters |
| Content.CascadeCommits | scrapper/extractors.py:80-82 | once a region yields blocks, the later selectors are never tried |
| Content.CascadeWinner | scrapper/extractors.py:18-20 | non-empty content comes from exactly one region: the first selector whose attempt yields a block, on the page the earlier attempts left |
| Content.CascadeNothing | scrapper/extractors.py:18-82 | when nothing is collected, every selector was tried and none yielded a block |
| Content.FinishShape | scrapper/extractors.py:84-87 | the content has no three newlines in a row, no two spaces in a row, no tab, and no whitespace at either end |
| Content.FinishEmpty | scrapper/extractors.py:84-87 | the content is empty exactly when every collected block is blank |
| Content.CollectBlocks | scrapper/extractors.py:32-77 | the loop over the region's elements computes `content_parts` |
| Content.CollectParts | scrapper/extractors.py:18-82 | the selector loop, with the removals done in the page, computes the page afterwards and the collected blocks |
| Content.ExtractArticleContent | scrapper/extractors.py:6-87 | the content is the finished blocks of the first fruitful region, and the page afterwards is the page that cascade leaves |
| Content.ExtractArticleContentOlder | test.py:159-261 | the older extractor also removes the summary box, and its result is only joined and stripped |
| Content.FinishOlderShape | test.py:253-261 | the older content has no three newlines in a row, no tab, no outer whitespace, and is empty exactly when every block is blank |
| Content.FinishOlderAgrees | test.py:253-259 | when no block holds a run of blanks, both variants assemble the same content |
| Summary.Truncate | scrapper/extractors.py:115 | a paragraph longer than 300 characters keeps its first 300 and gets `...`; a shorter one is unchanged |
| Summary.FirstMatchWins | scrapper/extractors.py:101-109 | the first selector that matches answers, even with an empty text |
| Summary.NoMatchNoAnswer | scrapper/extractors.py:101-109 | when no selector matches, the selectors give no summary |
| Summary.MetaAnswer | scrapper/extractors.py:102-105 | a description meta tag answers with its stripped `content`, or `""` without one |
| Summary.ParagraphFallback | scrapper/extractors.py:112-117 | with no selector matching, the summary is the first paragraph's text, at most 303 characters and unchanged up to 300, or `""` with no paragraph |
| Summary.LegacyParagraph | test.py:286-293 | the older extractor agrees except that it drops a first paragraph of at most 50 characters |
| Summary.FirstSource | scrapper/extractors.py:101-109 | the selector loop answers with the first matching selector's text or stripped `content` |
| Summary.ExtractSummary | scrapper/extractors.py:89-117 | `extract_summary` returns the first source's answer, else the first paragraph cut to 300 characters, else `""` |
| Summary.ExtractSummaryOlder | test.py:263-293 | the older `extract_summary` returns the same, except that a first paragraph of 50 characters or fewer gives `""` |
| Toc.Titles | scrapper/extractors.py:146-150 | every title is non-empty and comes from one of the links, and every link with a non-empty title contributes it |
| Toc.ItemTitles | scrapper/extractors.py:127-132 | every title is non-empty and comes from the first link of one of the widget's items, and every item whose first link has a non-empty title contributes it |
| Toc.TitlesNonEmpty | scrapper/extractors.py:131 | no entry of the table of contents is empty |
| Toc.WidgetPreempts | scrapper/extractors.py:122-133 | with the site's summary widget present, the generic selectors are never consulted |
| Toc.FirstFallbackWins | scrapper/extractors.py:142-150 | without the widget, the first generic selector that finds links decides, even with no non-empty title |
| Toc.CollectItemTitles | scrapper/extractors.py:126-132 | the loop over the widget's items computes its titles |
| Toc.CollectTitles | scrapper/extractors.py:145-149 | the loop over a generic widget's links computes its titles |
| Toc.ExtractTableOfContents | scrapper/extractors.py:119-152 | the extractor returns the table of contents of the page |
| Images.Absolutize | scrapper/extractors.py:189-192 | `//x` gets `https:`, `/x` gets the site root, and any other address is kept |
| Images.AbsolutizeIdempotent | scrapper/extractors.py:189-192 | with a site root that is not relative, an absolutised address never starts with `/` and is left alone by a second pass |
| Images.ImageUrl | scrapper/extractors.py:186 | the address is the value of the first of `src`, `data-src`, `data-lazy-src` that is present and non-empty; there is one exactly when one of them is |
| Images.OwnDescription | scrapper/extractors.py:195-200 | the description is the stripped value of the first of `alt`, `title`, `data-caption` that is present and non-empty, else `""` |
| Images.Entry | scrapper/extractors.py:186-222 | an image contributes exactly when it has an address and is not narrower than 200, with the absolute address, its description, `alt`, `width` and `height` |
| Images.Description | scrapper/extractors.py:202-207 | a non-empty own text wins; otherwise an enclosing `figure` decides alone, by its caption or `""`; with no figure the older variant takes the direct parent's caption, or `""` when there is no parent or it has no caption; the current one gives `""` |
| Images.FigureIgnoresParent | test.py:396-410 | the direct parent is consulted only when no `figure` encloses the image |
| Images.KeyInjective | scrapper/extractors.py:216 | distinct image positions get distinct `image_i` keys |
| Images.CollectKeys | scrapper/extractors.py:185-222 | `image_i` is present exactly when the `i`-th image contributes, and holds its record; no other key appears |
| Images.NarrowExcluded | scrapper/extractors.py:213-214 | an image whose width is all digits and below 200 never gets a key |
| Images.NoAreaNoImages | scrapper/extractors.py:172-174 | when none of the content selectors matches, no region is found, so the extractor returns `{}` |
| Images.FindRegion | scrapper/extractors.py:166-170 | the loop over the content selectors finds the first region that matches |
| Images.CollectImages | scrapper/extractors.py:184-222 | the loop over the cleaned region's images builds the dictionary |
| Images.ExtractImages | scrapper/extractors.py:154-224 | the extractor gives the dictionary of the cleaned region, and the page afterwards has the unwanted elements removed |
| Dates.CleanChars | scrapper/extractors.py:252 | `re.sub(r'[^\d\-/\s\w]', '', s)` keeps only allowed characters, each taken from the input; that each allowed character is kept, in order, is stated by Dates.CleanCharsAt and Dates.CleanCharsSplit |
| Dates.CleanCharsSplit | scrapper/extractors.py:252 | the filter works character by character: filtering a concatenation filters each part |
| Dates.CleanCharsAt | scrapper/extractors.py:252 | every allowed character of the input is kept, in its place among the kept characters around it, and every other one is deleted |
| Dates.CleanCharsNoop | scrapper/extractors.py:252 | the filter leaves a string of allowed characters alone |
| Dates.BeforeT | scrapper/extractors.py:248-249 | `date_str.split('T')[0]` has no `T` and only characters of the input |
| Dates.SplitHead | scrapper/extractors.py:249 | the head of a split is everything before the first separator |
| Dates.MapMonthsClears | scrapper/extractors.py:262-264 | after the month loop, no French month name occurs in the lower-cased string |
| Dates.MapMonthsNoop | scrapper/extractors.py:262-264 | with no month name present, the month loop changes nothing |
| Dates.PassNormal | scrapper/extractors.py:248-264 | one pass of the clean-up leaves no `T`, only allowed characters, no outer whitespace and no month name |
| Dates.PassFixed | scrapper/extractors.py:248-264 | a string already in that shape passes unchanged |
| Dates.PassIdempotent | scrapper/extractors.py:246-264 | re-cleaning before each format is idempotent, so every format sees the once-cleaned string |
| Dates.Attempt | scrapper/extractors.py:246-269 | a parsed date is a valid calendar date |
| Dates.AttemptOnce | scrapper/extractors.py:246-269 | the format loop as written gives the first format that parses the once-cleaned string |
| Dates.TimestampNeverMatches | scrapper/extractors.py:246 | a cleaned string has no colon, so the timestamp format never matches |
| Dates.DateOf | scrapper/extractors.py:236-243 | a date found through the selectors is a valid calendar date |
| Dates.DateTextShape | scrapper/extractors.py:226-273 | the result is `""` or a valid date written `YYYY-MM-DD`: ten characters, dashes at 4 and 7, digits elsewhere |
| Dates.FallThrough | scrapper/extractors.py:237-243 | a selector whose element yields no date hands over to the next selector |
| Dates.FirstDateWins | scrapper/extractors.py:237-267 | an element that yields a date decides, whatever the later selectors would give |
| Dates.FirstParseRender | scrapper/extractors.py:266-267 | a date written `YYYY-MM-DD` is read by `%Y-%m-%d` first, as itself |
| Dates.TimestampDate | scrapper/extractors.py:248-267 | `YYYY-MM-DDT...` and `YYYY-MM-DD` both give the date |
| Dates.NotADateExample | scrapper/extractors.py:266-269 | `"not a date"` fails every format |
| Dates.FrenchDateExample | scrapper/extractors.py:262-266 | `"15 janvier 2024"` becomes `"15 01 2024"`, which no format reads |
| Dates.MapMonthNames | scrapper/extractors.py:262-264 | the loop over the month dictionary computes the month replacement |
| Dates.CleanUp | scrapper/extractors.py:248-264 | one turn of the format loop computes one pass of the clean-up |
| Dates.TryFormats | scrapper/extractors.py:246-269 | the loop over the formats computes the format attempt |
| Dates.DateFrom | scrapper/extractors.py:236-271 | the loop over the selectors computes the date of the page |
| Dates.ExtractDate | scrapper/extractors.py:226-273 | the extractor returns the date text of the page |
| Strptime.Parse | scrapper/extractors.py:266 | a date `strptime` returns is a valid calendar date |
| Strptime.IsoNeedsColon | scrapper/extractors.py:246 | the timestamp format never succeeds on a string without a colon |
| Strptime.NumericNeedSeparators | scrapper/extractors.py:246 | `%Y-%m-%d` needs a `-` and `%d/%m/%Y` a `/` in the input |
| Strptime.NameNeedsLetter | scrapper/extractors.py:246 | `%B` never matches at a digit |
| Strptime.NumericMonthFails | scrapper/extractors.py:246 | `%d %B %Y` cannot read a two-digit day, one space and a number |
| Strptime.ZeroPadFixed | scrapper/extractors.py:267 | `strftime`'s zero padding writes a number that fits the width with exactly that many digits |
| Strptime.RenderShape | scrapper/extractors.py:267 | `strftime('%Y-%m-%d')` of a valid date is four digits, `-`, two digits, `-`, two digits |
| Strptime.RoundTrip | front_flask/models.py:44 | `%Y-%m-%d` reads back every date `strftime('%Y-%m-%d')` writes |
| Strptime.RenderMatches | front_flask/models.py:44 | the compiled `%Y-%m-%d` matches all of a rendered date and reads its three numbers |
| Authors.BylineChanges | scrapper/extractors.py:295 | the text changes exactly when it starts with a prefix, and then loses at least two characters |
| Authors.BylineRemoved | scrapper/extractors.py:295 | any capitalisation of `par`, `by` or `author:`, then whitespace, then a name leaves only the name |
| Authors.ParRemoved | scrapper/extractors.py:295 | `"par " + name` becomes `name` |
| Authors.OnePrefixOnly | scrapper/extractors.py:295 | only one prefix is removed: `"par par X"` keeps its second `par` |
| Authors.ParkerExample | scrapper/extractors.py:295 | the prefix need not end a word: `"Parker"` becomes `"ker"` |
| Authors.Answer | scrapper/extractors.py:285-296 | a selector answers exactly when it matches something |
| Authors.MetaKeepsPrefix | scrapper/extractors.py:286-289 | a meta tag's content keeps a leading `par` that the same text in an element would lose |
| Authors.FirstSourceWins | scrapper/extractors.py:285-296 | the first selector that matches decides; later ones are never consulted |
| Authors.NoSourceNoAuthor | scrapper/extractors.py:298 | with no selector matching, the author is `""` |
| Authors.AuthorOfFirstMatch | scrapper/extractors.py:285-298 | the author is `""` when no selector matches, and otherwise what the first matching selector gives: a meta tag's stripped `content` or the element's cleaned text |
| Authors.ExtractAuthor | scrapper/extractors.py:275-298 | the selector loop returns what the first matching selector gives, or `""` |
| Scraper.CategoryOf | scrapper/scraper.py:45-47 | a category is named by the link's `title` when present, even empty, else its stripped text, and carries its `href` |
| Scraper.CategoriesPerLink | scrapper/scraper.py:44-47 | the list has one category per link, each taken from its own link |
| Scraper.GetCategoriesList | scrapper/scraper.py:34-50 | the fetch and the loop compute the category list, which is empty when the fetch fails |
| Scraper.PageUrlInjective | scrapper/scraper.py:56 | distinct page numbers give distinct addresses, so no page is fetched twice |
| Scraper.ArticleLink | scrapper/scraper.py:68-70 | a link an article contributes is never empty |
| Scraper.UrlsAreDedup | scrapper/scraper.py:67-72 | the links gathered are those of the whole crawl, first appearances only, in order |
| Scraper.UrlsShape | scrapper/scraper.py:52-77 | the links come without repeats, none empty, and every link of a crawled page is among them |
| Scraper.StopEndsCrawl | scrapper/scraper.py:58-65 | a failed fetch or a page without articles ends the crawl, whatever later pages hold |
| Scraper.CrawlWithinLimit | scrapper/scraper.py:55 | pages past `max_pages` are never fetched |
| Scraper.AddPageLinks | scrapper/scraper.py:67-72 | the loop over one page's articles appends each new link |
| Scraper.GetArticlesFromCategory | scrapper/scraper.py:52-77 | the page loop computes the article addresses of the crawl |
| Scraper.FirstSettlingWins | scrapper/scraper.py:92-103 | the first thumbnail source that settles it decides; earlier sources only pass a value along |
| Scraper.NoneNeedsBareImage | scrapper/scraper.py:101 | the thumbnail is `None` only when an image was found whose `src or data-src or data-lazy-src` evaluates to `None` |
| Scraper.ThumbnailAbsolute | scrapper/scraper.py:106-110 | with a site root that is not relative, a non-empty thumbnail never starts with `/` |
| Scraper.FindThumbnail | scrapper/scraper.py:90-110 | the thumbnail loop and the address fix-up compute the record's thumbnail |
| Scraper.SubcategoriesShape | scrapper/scraper.py:120-123 | the subcategories are distinct and non-empty, and are exactly the non-empty texts of the tags after the first |
| Scraper.FirstFallbackDecides | scrapper/scraper.py:126-132 | the first fallback element found gives the category, even with an empty text |
| Scraper.FindCategories | scrapper/scraper.py:113-132 | the tag and fallback loops compute the category and the subcategories |
| Scraper.FindFallback | scrapper/scraper.py:127-132 | the fallback loop gives the text of the first element found |
| Scraper.Record | scrapper/scraper.py:137-151 | the record carries the article address and the scrape time, and no source category yet |
| Scraper.ArticleAt | scrapper/scraper.py:79-83 | a page that cannot be fetched gives no record |
| Scraper.ScrapeArticle | scrapper/scraper.py:79-153 | the fetch and the extractors, in the record's order on the same page, give the record of the address |
| Scraper.Keep | scrapper/scraper.py:174-176 | a scrape contributes a record exactly when it is a record with a non-empty title, and then exactly that record tagged with the category name; never more than one |
| Scraper.HarvestShape | scrapper/scraper.py:171-178 | each kept record has a title, names the category, and is one scrape's record tagged with it; conversely every scraped record with a non-empty title is kept, tagged |
| Scraper.CategoryRecordsShape | scrapper/scraper.py:167-178 | a category yields at most `max_articles_per_category` records, each titled, from an address tried and naming the category |
| Scraper.RunCategoriesShape | scrapper/scraper.py:165-186 | at most `max_articles_per_category` records per category, each titled and naming one of the categories tried |
| Scraper.RunShape | scrapper/scraper.py:155-188 | a run yields at most categories times articles records, each titled and tagged with a category of the list's prefix |
| Scraper.ScrapeCategory | scrapper/scraper.py:171-182 | the loop over a category's addresses keeps each titled record, in order |
| Scraper.RunScraper | scrapper/scraper.py:155-188 | the records yielded are those of the run; the total counts them and the processed count is the number of categories visited |
| Legacy.MetaBlock | test.py:83 | the meta block is `div#section-meta`, else the first `div.article-terms` |
| Legacy.DataCat | test.py:87-91 | the main category is the title-cased `data-cat`, or `""` when it is missing or empty |
| Legacy.Terms | test.py:96-100 | each tag comes from an item's first `a.post-tags` link, and every item that has such a link contributes its tag |
| Legacy.Kept | test.py:103-107 | a tag is kept exactly when its lower-cased name differs from the lower-cased main category |
| Legacy.CategoriesShape | test.py:75-118 | the tags returned are exactly the meta block's tags whose names differ from the `data-cat` under any capitalisation; the main category is the title-cased `data-cat`, else the fallback |
| Legacy.FallbackNotFiltered | test.py:103-116 | without a `data-cat`, only nameless tags are dropped, and a tag naming the fallback category stays |
| Legacy.CollectTerms | test.py:95-107 | the loop over the items computes the kept tags |
| Legacy.FindDataCat | test.py:87-91 | the `cats-list` lookup computes the main category |
| Legacy.ExtractCategoriesAndSubcategories | test.py:75-118 | the method returns the main category and the tags of the page |
| Legacy.SaveShape | test.py:604-619 | a record is inserted exactly when no stored record has its title; stored records never change, and titles stay unique |
| Legacy.SaveIdempotent | test.py:610-614 | saving the same record twice inserts it once |
| Legacy.SaveAllShape | test.py:658-669 | a batch of saves keeps every stored record, adds only batch records, stores every batch title and keeps titles unique |
| Legacy.SaveAllStored | test.py:610-614 | a batch whose titles are all stored changes nothing |
| Legacy.SaveAllIdempotent | test.py:604-619 | saving a batch a second time inserts nothing |
| Legacy.BlogScraper.constructor | test.py:27-32 | a collection is opened only when its titles are unique, as the unique index requires |
| Legacy.BlogScraper.SaveArticle | test.py:604-626 | the record is inserted unless one with the same title is stored, and the flag says which |
| Legacy.BlogScraper.SaveCategory | test.py:657-676 | every titled record of a category is saved in order, and the count is the number inserted |
| Legacy.BlogScraper.RunScraper | test.py:628-684 | every kept record is saved in the order of the run; the total counts insertions and the processed count counts categories |
| Legacy.RunKeepsTitlesUnique | test.py:628-684 | a run keeps titles unique and stores every title it harvested |
| Routes.TagsPlain | front_flask/routes.py:28-34 | the heading tags hold no newline, and each opening tag starts with `<` |
| Routes.PassLines | front_flask/routes.py:28 | a multi-line `re.sub` pass rewrites each line on its own, and never splits or merges lines |
| Routes.RewrittenUnmarked | front_flask/routes.py:28-34 | a rewritten line starts with `<`, so no later pass matches it |
| Routes.HeadingOnce | front_flask/routes.py:28-34 | the three passes on one line amount to one rule: the first of `## `, `### `, `# ` that marks it decides |
| Routes.TitlesByLine | front_flask/routes.py:22-36 | the result has as many lines as the content, and its `i`-th line is the heading rule applied to the `i`-th line |
| Routes.HeadingTwo | front_flask/routes.py:28 | `## X` with `X` non-empty becomes the `h2` tag around `X` |
| Routes.HeadingThree | front_flask/routes.py:31 | `### X` with `X` non-empty becomes the `h3` tag around `X` |
| Routes.HeadingOne | front_flask/routes.py:34 | `# X` with `X` non-empty becomes the `h1` tag around `X` |
| Routes.HeadingPlain | front_flask/routes.py:28-34 | a line that does not start with `#` is left as it is |
| Routes.HeadingKeepsText | front_flask/routes.py:28-34 | a non-empty line stays non-empty |
| Routes.ConvertMarkdownTitles | front_flask/routes.py:22-36 | `None` and `""` are returned as they are; other content stays present |
| Routes.ExtLenSound | front_flask/routes.py:10 | the extension group matches exactly a dot followed by one of `mp4`, `webm`, `ogg`, `mov`, `avi`, and never whitespace |
| Routes.Scheme | front_flask/routes.py:10 | `https?://` matches exactly when the content starts with `http://` or `https://`, and then covers just that scheme |
| Routes.RunLength | front_flask/routes.py:10 | `[^\s]` runs: the run at the start holds no whitespace and ends at whitespace or at the end |
| Routes.LastExt | front_flask/routes.py:10 | the greedy `[^\s]+` backs off to the last extension in the run |
| Routes.MatchWith | front_flask/routes.py:10 | a match starts after the scheme, lies within the content and holds no whitespace |
| Routes.MatchIsUrl | front_flask/routes.py:10 | every match covers a video address: scheme, at least one character, extension, no whitespace |
| Routes.UrlIsMatched | front_flask/routes.py:10 | every video address at a position is matched there, past the start of its extension |
| Routes.PlayerTwice | front_flask/routes.py:12-18 | the address occurs twice in its player, as the source and as the download link |
| Routes.VideosUnchanged | front_flask/routes.py:20 | text in which no video address starts is left unchanged |
| Routes.VideosAtUrl | front_flask/routes.py:20 | an address at the start is replaced by a player around the whole match, which covers the address |
| Routes.ConvertVideoLinks | front_flask/routes.py:5-20 | `None` and `""` are returned as they are; other content stays present |
| Routes.NoVideoUnchanged | front_flask/routes.py:5-20 | content with no video address is returned unchanged |
| Routes.ProcessContent | front_flask/routes.py:38-47 | `None` and `""` are returned as they are |
| Routes.ProcessBoth | front_flask/routes.py:43-45 | non-empty content is never emptied by the heading passes, so both conversions apply, headings first |
| Search.Bound | front_flask/models.py:44 | a date bound, when it parses, is the rendering of a valid date |
| Search.BuildQuery | front_flask/models.py:22-57 | each text filter gets its case-insensitive regex exactly when given; `publication_date` is present exactly when a bound parses, with `$gte`/`$lte` for the parsed bounds only; no other key |
| Search.TextQuery | front_flask/models.py:24-38 | the four case-insensitive regexes, one per given text filter |
| Search.DateQuery | front_flask/models.py:41-54 | each bound that is given and parses is re-rendered; a bound that raises `ValueError` is skipped |
| Search.BoundCanonical | front_flask/models.py:44 | a bound already written as `strftime('%Y-%m-%d')` writes it is kept as it is |
| Search.BoundIdempotent | front_flask/models.py:51 | re-rendering a bound is idempotent |
| Search.UniqueValues | front_flask/models.py:77 | the values kept are exactly those that are present, non-empty and not only whitespace, in order |
| Search.UniqueValuesAppend | front_flask/models.py:77 | the filter works value by value |
| Search.BelowTotal | front_flask/models.py:99 | Python's string `<` orders any two distinct strings |
| Search.BelowTransitive | front_flask/models.py:99 | Python's string `<` is transitive |
| Search.InsertSorted | front_flask/models.py:99 | inserting into an ascending list keeps it ascending and adds exactly the new element |
| Search.SortStrings | front_flask/models.py:99 | `sorted` of a set is ascending and holds exactly the set's elements |
| Search.AscendingUnique | front_flask/models.py:99 | an ascending list is determined by its elements: `sorted` has one possible result |
| Search.StrippedParts | front_flask/models.py:93 | `[p.strip() for p in s.split(',')]` has one stripped piece per comma-separated field |
| Search.NoCommaOnePiece | front_flask/models.py:96 | a value without a comma contributes exactly its stripped self |
| Search.CollectedIff | front_flask/models.py:89-96 | the set holds exactly the stripped pieces of the truthy values |
| Search.AddPieces | front_flask/models.py:90-96 | one turn of the loop adds the value's stripped pieces, by either branch |
| Search.UniqueSubcategories | front_flask/models.py:82-99 | the result is ascending and holds exactly the non-empty pieces collected |
| Search.SubcategoriesFromPieces | front_flask/models.py:86-99 | a listed subcategory is a non-empty stripped comma piece of some truthy raw value, and every such piece is listed |
| Authors.StripFirst | scrapper/extractors.py:295 | the anchored `re.sub`: the result is a suffix of the text, never longer; the `^` anchor lets it match only once |
| Content.WrappedRule | scrapper/extractors.py:59-64 | a bullet or quoted text yields a block exactly when the text has at least 2 characters |
| Dates.PlainPass | scrapper/extractors.py:248-264 | a string of digits and dashes that neither starts nor ends with a dash passes the clean-up unchanged |
| Dates.TimestampPass | scrapper/extractors.py:248-249 | everything from the first `T` on is dropped, leaving the date part |
| Dates.TimestampExample | scrapper/extractors.py:246-267 | `"2024-01-15T10:30:00+01:00"` gives the date 2024-01-15 |
| Dates.PlainWords | scrapper/extractors.py:248-252 | lower-case ASCII words, digits and single-spaced text without outer spaces are already clean |
| Routes.ExtIsUrl | front_flask/routes.py:10 | an extension inside the run after the scheme, past its first character, ends a video address |
| Routes.NoUrlSplit | front_flask/routes.py:20 | where no video address starts, the pattern does not match at the start and none starts later either |
| Scraper.PageLinksNonEmpty | scrapper/scraper.py:68-70 | no link taken from a page is empty |
| Scraper.PageResult | scrapper/scraper.py:57-65 | a page ends the crawl exactly when its fetch fails or it has no article |
| Scraper.GatherDedup | scrapper/scraper.py:67-72 | gathering into a de-duplicated list de-duplicates all the links of the crawl |
| Scraper.CrawlNonEmpty | scrapper/scraper.py:52-77 | no link of the crawl is empty |
| Scraper.GatherWithinLimit | scrapper/scraper.py:55 | two sites that agree on pages up to `max_pages` give the same links |
| Scraper.ScrapedUrls | scrapper/scraper.py:171-173 | each record scraped carries the address it was scraped from |
| Scraper.HarvestStep | scrapper/scraper.py:171-178 | one more address adds exactly what its scrape keeps, after the earlier records |
| Legacy.SaveStep | test.py:658-669 | one more scrape saves its record, when kept, after the records before it |
| Legacy.SaveAllAppend | test.py:658-669 | saving two batches in turn is saving their concatenation |
| Text.Lower | test.py:103 | `str.lower()` maps each character on its own and keeps the length; its result is already lower case, so lower-casing again changes nothing |
| Text.TitleCaseLower | test.py:91 | title-casing changes only case: lower-casing the result gives the lower-cased input |
| Text.StripEmpty | scrapper/extractors.py:73 | `str.strip()` is empty exactly for blank strings |
| Text.JoinHasText | scrapper/extractors.py:80-82 | a join with a whitespace separator has text exactly when one of its pieces has |
| Text.CollapseSpace | scrapper/extractors.py:74 | `re.sub(r'\s+', ' ', s)` keeps every non-whitespace character in order, leaves only single plain spaces, starts with one exactly when the input starts with whitespace, and never lengthens |
| Text.JoinBlankLines | scrapper/extractors.py:81-85 | non-empty single-line pieces joined by blank lines never show three newlines in a row |
| Text.CollapseBlanksHasText | scrapper/extractors.py:86 | collapsing runs of blanks keeps every non-whitespace character, in order, and adds none |
| Text.ReplaceSingle | scrapper/extractors.py:264 | the only occurrence of the pattern, after a part that cannot start one, is replaced |
| Text.ReplaceContains | scrapper/extractors.py:264 | `str.replace` creates no occurrence of a text that shares no character with the replacement |
| Text.Split | front_flask/models.py:93 | `str.split(c)` gives at least one piece and no piece holds `c` |
| Text.Take | scrapper/scraper.py:165 | Python's `s[:n]` is a prefix of length `n` capped by the length, counting from the end when `n` is negative |
| Text.Decimal | scrapper/scraper.py:56 | `str(n)` is non-empty and all digits, with at least two for `n >= 10`; Text.DecimalValue states its value |
| Text.DecimalValue | scrapper/scraper.py:56 | `str(n)` reads back as `n`, so the page number in the address is the number of the page |
| Text.AddAllDedup | scrapper/scraper.py:71-72 | appending new values to a de-duplicated list de-duplicates the concatenation |
| Dom.GetOr | scrapper/extractors.py:219 | `tag.get(key, default)` is the attribute's value when present, else the default |
| Summary.Answer | scrapper/extractors.py:101-109 | a summary source answers exactly when its selector matches |
| Search.BelowIrreflexive | front_flask/models.py:99 | no string sorts before itself |
| Search.AscendingDistinct | front_flask/models.py:99 | an ascending list holds no repeats |
| Strptime.YmdMatch | front_flask/models.py:44 | `%Y-%m-%d` on ten characters shaped like a rendered date reads its three numbers |
| Strptime.TryNone | scrapper/extractors.py:266 | when no reading of a directive lets the rest of the format match, the match fails |

## Left out

- HTTP: `requests`, its timeouts and status checks are one fetcher parameter that maps an address to a page or to nothing.
- HTML parsing: `BeautifulSoup` parsing of bytes is not modelled; the model starts from the parsed tree. Selectors cover only the forms the code uses (tag, class, id, attribute presence and value, descendant chains, comma groups).
- MongoDB: `find`, `sort('publication_date', -1)`, `distinct`, the `ObjectId` conversion and `count_documents` are not modelled. `search_articles` is modelled up to the filter document it sends. `get_unique_values` and `get_unique_subcategories` start from the list `distinct` returns.
- Regex semantics of the query: MongoDB's evaluation of `$regex` with option `i` against stored titles is not modelled; only the filter document is.
- `get_stats`, `init_routes` and the Flask views: they only pass values between the parts modelled here and the templates.
- Time: `time.sleep` is left out. `datetime.now().isoformat()` is a string parameter.
- Logging, `print` and the exception handlers that only log: left out. The handled error paths become `None`, `""` or an unchanged value.
- Laziness: `run_scraper` is a generator in `scrapper/scraper.py`. The model returns the whole sequence it would yield, in order.
- Scraper.RunScraper: an exception raised while scraping one article, which the source logs and skips, is not modelled. The fetcher is total, so only a failed fetch stops an article.
- Text.IsWordChar: covers `\w` for ASCII and the Latin-1 letters only. Python's `\w` also matches Latin-1's superscript digits and fractions (`½` is kept by the date filter in Python, deleted here) and the letters and digits of other scripts.
- Text.IsDigit: covers the ASCII digits only. Python's `\d` also matches the decimal digits of other scripts, and `str.isdigit()` the superscript digits too.
- Text.TitleCase: `lower()`, `upper()` and `title()` are modelled for ASCII and for the Latin-1 letters whose other case is again one Latin-1 letter. Letters of other scripts, `œ`/`Œ` among them, are uncased here and keep their case. Within Latin-1, `ß` (title case `Ss`, two characters), `ÿ` (upper case `Ÿ`, U+0178) and `µ` (upper case Greek `Μ`, U+039C) are left unchanged by the upper-casing. `ª` and `º`, which Python counts as lower-case letters, are treated as uncased, so a letter after them is upper-cased here but kept by Python.
- Text.TitleCaseAt: holds for the model's case tables above. Python's `title()` does not keep the length on `ß`, and it capitalises differently after `ª` and `º`.
- Text.TitleCaseLower: holds for the model's case tables above. In Python, `'µ'.title().lower()` is Greek `μ` (U+03BC), not `µ`, and `'ß'.title().lower()` is `ss`.
- Strptime.Parse: only the directives the formats use (`%Y`, `%m`, `%d`, `%B`, `%H`, and the timestamp format up to its first colon) are modelled. The tail `%M:%S%z` is not needed, because the cleaned strings have no colon.
- Strptime.Render: years below 1000 are zero-padded to four digits. The C library behind `strftime` may write them without padding.
- Content.ExtractArticleContentOlder: only the first element with class `summary-section` is removed, as `find` returns one element.
- Routes.UrlIsMatched: states that the match reaches past the start of the address's extension, not that it ends exactly where the address ends. The greedy run backs off to the last extension in the run, which can lie beyond the address's own.
- Routes.VideosAtUrl: for the same reason, states that the replaced match covers the address rather than equals it.
- Search.SortStrings: models `sorted` by insertion into an ascending list. It states the result, which `Search.AscendingUnique` shows is the only possible one, not the algorithm CPython uses.
- The `test.py` `main` function and `close`: process set-up and tear-down only.
