# Guffipedia build pipeline: a Dafny model

Guffipedia is a dictionary of business jargon. Its build does three things with real logic in them, and this project models those three:

- **download-data** reads the words spreadsheet, one row per word. It gives each row a slug with `slugify` and files the rows in a slug-keyed table. A repeated slug aborts the build. It then sorts the slugs alphabetically and links every word to its alphabetical neighbours in a closed ring. It resolves the related-word names through the table, dropping the ones that do not resolve. It derives display fields: the shortened word id, the tweet text, the formatted dates and the perpetrator flag. The results are written as `words.json`, and two entries go to `homewords.json`: the newest word and one drawn at random.
- **create-rss-feed** reads `words.json` back and builds `rss.xml` as one string. It appends a fixed channel header, then one `<item>` per word with the newest first, then the closing tags.
- **deploy** uploads `dist/` to S3. The git remote and the branch pick the bucket and the key prefix. Each file gets a `Content-Type` and a `Cache-Control` header that depend on its name.

The modules are:

- `Wrappers`: `Option` and `Result`.
- `JsValues`: a spreadsheet cell is `undefined`, `null` or a string. This module gives JavaScript truthiness and `${}` interpolation for such cells.
- `Ordering`:
  - JavaScript's default string order, by UTF-16 code unit;
  - the two slug orders: alphabetical, and newest-first where equal dates keep their order in the array being sorted (the date comparator applied by a stable sort);
  - a specification sort.
- `Slugs`: `slugify`.
- `Words`: the download-data transform.
  - `Derivation` is its specification function.
  - `DownloadData` and its helper methods are the loops of the source, proved equal to `Derivation`.
- `Feed`: the RSS builder.
  - `Document` is the feed as a rendered element tree.
  - `CreateRssFeed` is the appending loop of the source, proved to produce exactly `Document`.
  - Lemmas state which elements an item holds, and in what order.
- `Deploy`: `isRevved`, the upload target and the per-file header map.

Foreign code is passed in as the fields of `Words.Externals`. This covers the date functions, the Handlebars escape used by `htmlEntities` and for `tweettextrss`, and `encodeURI`. The random draw is a parameter.

`slugify` is not idempotent in general: `slugify("(\tx")` is `"\tx"`, and slugifying that gives `"x"`. `Slugs.SlugifyNotIdempotentWithTab` exhibits that input. `Slugs.SlugifyIdempotent` proves idempotence for inputs whose only whitespace is the ASCII space.

## Model

| member | source | states |
|---|---|---|
| Slugs.Slugify | gulpfile.babel.js:103-105 | Definition: lower-case, trim, spaces to hyphens, then drop apostrophes and parentheses. Stated by `Slugs.SlugIsClean`, `Slugs.SlugifyIdempotent` and `Slugs.SlugifyNotIdempotentWithTab`. |
| Ordering.Less | gulpfile.babel.js:266 | Definition: the default `sort()` comparison, by UTF-16 code unit. Its properties are stated by `Ordering.LessTotal` and `Ordering.LessTransitive`. |
| Words.Resolve | gulpfile.babel.js:278-286 | Definition: the related names mapped through the table, with unresolved names filtered out. Stated by the `Words.Resolve*` lemmas. |
| Words.StripWordId | gulpfile.babel.js:314-316 | Definition: `substring(4)` of a truthy word id. Stated by `Words.StripWordIdLosesFour`. |
| Words.TweetText | gulpfile.babel.js:321 | Definition: the tweet template. Stated by `Words.TweetTextParts`. |
| Words.DeriveRecord | gulpfile.babel.js:275-324 | Definition: one row's record after the second loop. Stated by `Words.DerivedFields` and `Words.WordsRing`. |
| Words.Words | gulpfile.babel.js:255-327 | Definition: the `words.json` collection, with sorted keys and derived records. Stated by `Words.WordsKeys`, `Words.WordsRing` and `Words.RingInverse`. |
| Words.HomeWords | gulpfile.babel.js:333-338 | Definition: the first entry of the date order plus the drawn one. Stated by `Words.HomeSelection` and `Words.HomeSmall`. |
| Words.Derivation | gulpfile.babel.js:252-340 | Definition: the whole transform, either the duplicate error or `words` and `homewords`. Stated by `Words.DuplicateSlugIsFatal` and `Words.DerivationSucceeds`. |
| Feed.Document | gulpfile.babel.js:396-462 | Definition: the rendered feed. Stated by `Feed.DocumentText`, `Feed.ItemNames` and `Feed.ItemContents`. |
| Deploy.IsRevved | task/deploy.js:26 | Definition: a scan of the base name for a match of `/.+\.rev-.+/`. Stated by `Deploy.IsRevvedIff`. |
| Deploy.Basename | task/deploy.js:94 | The POSIX base name: trailing slashes are trimmed and the result contains no `/`. |
| Deploy.Extname | task/deploy.js:94 | The POSIX extension: empty, or starting with `.`. Stated further by `Deploy.ExtnameSuffix` and `Deploy.ExtnameEmpty`. |
| Deploy.UploadTarget | task/deploy.js:40-66 | Definition: the bucket and prefix choice. Stated by `Deploy.UploadTargetShape` and `Deploy.UploadTargetsDistinct`. |
| Slugs.SlugIsClean | gulpfile.babel.js:103-105 | A slug contains no space, apostrophe, parenthesis or upper-case ASCII letter, for every input. |
| Slugs.NoWhitespaceInSlug | gulpfile.babel.js:103-105 | If the only whitespace in the input is the ASCII space, the slug contains no whitespace at all. |
| Slugs.SlugifyIdempotent | gulpfile.babel.js:103-105 | `slugify(slugify(x)) == slugify(x)` whenever the only whitespace in `x` is the ASCII space. |
| Slugs.SlugifyNotIdempotentWithTab | gulpfile.babel.js:103-105 | On `"(\tx"` the first pass gives `"\tx"` and the second gives `"x"`. Deleting the parenthesis after trimming exposes a tab that the second trim removes. |
| Ordering.LessTotal | gulpfile.babel.js:266 | Any two different strings are ordered one way or the other by the default `sort()` comparison. |
| Ordering.LessTransitive | gulpfile.babel.js:266 | The default string comparison is transitive. |
| Ordering.PrecedesStrictTotal | gulpfile.babel.js:329-331 | Both slug orders are strict total orders: alphabetical, and newest first with ties in the order of the array being sorted. |
| Ordering.SortOfSorted | gulpfile.babel.js:388-390 | Sorting a list that is already in order returns it unchanged. A stable sort with nothing to reorder keeps its input. |
| Ordering.PositionIsStringOrder | gulpfile.babel.js:329-331 | In an alphabetically sorted list, position order is string order. A stable date sort of such a list therefore puts equal dates in alphabetical order. |
| Ordering.Sort | gulpfile.babel.js:266 | Sorting permutes its input: the result has the same multiset of slugs. |
| Ordering.SortSorted | gulpfile.babel.js:266 | A list of distinct slugs comes out strictly sorted under the chosen order, with the same length. |
| Words.FillTable | gulpfile.babel.js:255-262 | The first loop reports the first slug that repeats an earlier one. When there is none, it returns the slug-keyed table and the slug list in row order. |
| Words.FirstRepeatNone | gulpfile.babel.js:259 | No repeat is found exactly when all slugs are distinct. |
| Words.DuplicateSlugIsFatal | gulpfile.babel.js:257-261 | The transform fails (and writes nothing) exactly when two rows share a slug. The error names a slug that two distinct rows produce. |
| Words.WordsKeys | gulpfile.babel.js:257-272 | The keys of `words.json` are exactly the slugs of the rows, one per row, in strictly ascending order. Each record's `slug` equals its key. |
| Words.ResolveSound | gulpfile.babel.js:278-286 | Each surviving related word points at a key of the table, carries that record's word, and comes from one of the listed names. There are never more survivors than names. |
| Words.ResolveAllKnown | gulpfile.babel.js:278-286 | When every name resolves, the list keeps its length and order, and entry k is `{slug: slugify(name_k), word: words[slugify(name_k)].word}`. |
| Words.ResolveNoneKnown | gulpfile.babel.js:278-286 | Names that do not resolve are dropped without error. If none resolves, the list is empty. |
| Words.WordsRing | gulpfile.babel.js:288-310 | The record at sorted position i has `previousWord` equal to the record at i-1 and `nextWord` equal to the record at i+1, wrapping at both ends. Each pointer carries that record's slug and word. |
| Words.RingInverse | gulpfile.babel.js:288-310 | Following `nextWord` and then `previousWord` (or the reverse) returns to the same slug. |
| Words.RingEnds | gulpfile.babel.js:290-305 | The last slug's next is the first, and the first slug's previous is the last. A single word points to itself both ways. |
| Words.StripWordIdLosesFour | gulpfile.babel.js:314-316 | A truthy word id loses exactly its first four characters, becoming empty when shorter. Any other value is left as it is. |
| Words.TweetTextParts | gulpfile.babel.js:321 | The tweet text begins with the word in curly quotes and ends with the stripped id, a space, the site address and the slug. |
| Words.DerivedFields | gulpfile.babel.js:274-325 | Fields of the entry made from each row: the word, the slug and the resolved related words. `showPerpetratorData` holds iff the perpetrator or the usage source is truthy. The stripped id. The escaped and URI-encoded tweet texts. The two formatted dates. All other fields unchanged. |
| Words.DerivationSucceeds | gulpfile.babel.js:252-340 | With distinct slugs the transform succeeds. `words` is the sorted collection, and `homewords` is the home selection over the date order. |
| Words.SecondIndexInRange | gulpfile.babel.js:337 | For N ≥ 2 and a draw in [0, 1), `floor(draw*(N-1))+1` lies in [1, N-1]. |
| Words.HomeSelection | gulpfile.babel.js:329-338 | For two or more words, `homewords` has exactly two distinct keys, each entry is the same record as in `words`, and the first has the latest submission date. |
| Words.HomeSmall | gulpfile.babel.js:333-338 | For fewer than two words, `homewords` equals `words`. |
| Words.DeriveEntry | gulpfile.babel.js:275-324 | The body of the second loop computes exactly the derived record of its row. |
| Words.DeriveEntries | gulpfile.babel.js:274-325 | The second loop leaves every slug mapped to its derived record, and no other keys. |
| Words.PickHome | gulpfile.babel.js:333-338 | The home selection builds the first entry of the date order plus the drawn one. An index outside the list contributes nothing. |
| Words.Transform | gulpfile.babel.js:252-340 | The whole transform, for any slug function, returns exactly `Derivation`: the duplicate error, or `words` and `homewords`. |
| Words.DownloadData | gulpfile.babel.js:252-340 | The transform with the real `slugify` returns exactly `Derivation`. |
| Feed.OpenFeed | gulpfile.babel.js:396-398 | The output starts with the XML prolog, the `<rss …>` start tag with its namespaces, and `<channel>`. |
| Feed.AppendChannelHead | gulpfile.babel.js:399-402 | Appends the channel's title, link, description and self `atom:link`. |
| Feed.AppendItemHeader | gulpfile.babel.js:405-414 | Appends the nine elements every item opens with. The title is the unescaped word and the pubDate text ends in a stray `/`. |
| Feed.AppendOptional | gulpfile.babel.js:415-418 | Appends the escaped element when the field is truthy, and nothing otherwise. |
| Feed.AppendItemTexts | gulpfile.babel.js:415-439 | Appends the six optional texts in source order, with `commenturl` always written between them. |
| Feed.AppendPointer | gulpfile.babel.js:441-444 | Appends a neighbour as a slug and a word, both unescaped. |
| Feed.AppendRelatedWords | gulpfile.babel.js:451-456 | The inner loop appends one `<guff:relatedword>` per related word, in order. |
| Feed.AppendRelated | gulpfile.babel.js:449-458 | Appends the `<guff:relatedwords>` block only when the list is non-empty. |
| Feed.AppendItemLinks | gulpfile.babel.js:440-458 | Appends the tweet, the previous and next words, and the related block. |
| Feed.AppendItem | gulpfile.babel.js:404-459 | Appends one whole `<item>` element for a word. |
| Feed.CloseFeed | gulpfile.babel.js:461-462 | The output ends with `</channel></rss>`. |
| Feed.CreateRssFeed | gulpfile.babel.js:386-465 | The built string is exactly the rendered feed document: the prolog, then `<rss>` and `<channel>` around the channel head and one item per word in feed order. |
| Feed.DocumentText | gulpfile.babel.js:396-462 | The document is the prolog followed by `<rss …>` and `<channel>`, the head and items, then `</channel></rss>`. |
| Feed.FeedOrderNewestFirst | gulpfile.babel.js:387-390 | Every key of the input appears exactly once in the feed. Items are ordered by submission date, newest first. Items with equal dates keep their order among the keys of `words.json`, whatever that order is. |
| Feed.FeedOrderSameDate | gulpfile.babel.js:387-390 | When all entries share one date, the items come exactly in the key order of the input. |
| Feed.FeedOrderAlphabeticalTies | gulpfile.babel.js:387-390 | For a `words.json` whose keys are alphabetical, as download-data writes it, items with equal dates appear in alphabetical order. |
| Feed.ItemNames | gulpfile.babel.js:405-458 | The exact ordered list of an item's elements. Which elements are present depends only on which fields are truthy and on whether the related list is empty. |
| Feed.TextsMembers | gulpfile.babel.js:415-439 | Each optional element is present iff its field is truthy. `commenturl` is always present. |
| Feed.ItemRequiredElements | gulpfile.babel.js:405-448 | Title, description, link, guid, pubDate, formatted date, slug, word id, submission date, comment URL, tweet, previous word and next word are in every item. |
| Feed.ItemContents | gulpfile.babel.js:405-458 | The texts an item carries. The word and slugs are unescaped. The pubDate text ends in `/`. The comment URL is printed even when it is missing. Optional fields are escaped. The related block holds the related words in order. |
| Deploy.ExtnameSuffix | task/deploy.js:94 | A non-empty extension is a proper suffix of the base name, starts with its last dot and contains no other dot. |
| Deploy.ExtnameEmpty | task/deploy.js:94-99 | A base name with no dot, or whose only dot is its first character, has an empty extension. |
| Deploy.IsRevvedIff | task/deploy.js:26 | A name is revved iff its base name contains `.rev-` with at least one non-line-terminator character before it and one after it. |
| Deploy.RevvedExample | task/deploy.js:26 | `<dir>/main.rev-1a2b3c.js` is revved for any directory. |
| Deploy.NotRevvedPlain | task/deploy.js:26 | `main.js`, which has no `.rev-`, is not revved. |
| Deploy.NotRevvedNothingBefore | task/deploy.js:26 | `.rev-1a2b` is not revved: nothing precedes `.rev-`. |
| Deploy.NotRevvedNothingAfter | task/deploy.js:26 | `main.rev-` is not revved: nothing follows `.rev-`. |
| Deploy.DecimalRoundTrip | task/deploy.js:104 | Printing a TTL in decimal and reading it back gives the TTL. |
| Deploy.CacheHeaders | task/deploy.js:102-105 | The cache header is `max-age=31556926` for revved files and `max-age=60` otherwise. |
| Deploy.GetS3Params | task/deploy.js:91-108 | The map has a `ContentType` of `text/html` iff the extension is empty. It always has `CacheControl` set to `max-age=` plus the TTL. It has no other keys. |
| Deploy.UploadTargetShape | task/deploy.js:40-66 | A host other than `github.com` is an error. The production bucket is used iff the branch is `master`. Every prefix starts with `v1/<repo>/` and ends with `/`. For `master` the prefix is exactly `v1/<repo>/`. For any other branch, what lies between `v1/<repo>/` and the final `/` is exactly the branch name. |
| Deploy.UploadTargetsDistinct | task/deploy.js:55-65 | Two different branches of one repository never share a bucket and prefix. |

## Left out

- The spreadsheet fetch, the reads and writes of `words.json`, `homewords.json` and `rss.xml`, and `mkdirp`. The transform returns its two collections and the feed builder returns its string.
- The JSON serialisation of `words.json` and its re-parsing. Fields that are `undefined` are simply carried over, which is what the round trip yields for them.
- `php.strtotime` and `php.date`, and the `new Date` comparisons. A record keeps its submission date as text. `Externals.dateKey` maps it to an integer, and `longDate` and `rfcDate` give the formatted dates. Dates that do not parse (NaN comparisons) are not modelled.
- `Math.random` is the `draw` parameter, a real number in [0, 1).
- The Handlebars escape (`htmlEntities` and `tweettextrss`) and `encodeURI` are the abstract functions `Externals.escape` and `Externals.encodeUri`.
- Words.PickHome: for a single word the source stores `undefined` at an index past the end, and JSON then drops it. The model stores no entry for such an index.
- JavaScript's ordering of integer-like object keys ahead of other keys in `Object.keys`. Slugs that are array indices are not modelled. Keys follow insertion order, which is the sorted order.
- Prototype-key lookups on the plain object table, e.g. a word slugified to `constructor`. The table is a map.
- Spreadsheet cells that hold numbers or booleans. An optional cell is `undefined`, `null` or a string.
- Words.DownloadData: rows the source crashes on are not modelled. A row whose `word` cell is missing or `null` makes `slugify` throw a TypeError at `toLowerCase` (gulpfile.babel.js:104, called from line 257). So does a related-word entry that is not a string. A row whose `relatedwords` is not an array throws a TypeError at `.map` (gulpfile.babel.js:278). In the model, `Row.word` is a string and `Row.relatedwords` a list of strings, so these rows cannot be written and these failures are not results of `Derivation`.
- Words.StripWordIdLosesFour: the four characters are counted in Unicode code points, whereas `substring(4, length)` counts UTF-16 code units. An id with a character outside the Basic Multilingual Plane among its first four code units loses a different prefix in the source (`"\U{1F600}ABCD"` becomes `"CD"` there and `"D"` here).
- Feed.FeedOrderNewestFirst: keeping the key order for words with the same submission date assumes a stable `Array.prototype.sort`. The comparators return 0 for equal dates. Sort stability has been guaranteed only since ECMAScript 2019. Older engines sorted arrays of more than 10 elements unstably, so with such an engine the order of same-day items in the feed is not determined. The same assumption decides which of several same-day newest words becomes the first `homewords` entry (Words.PickHome, Words.HomeSelection).
- Slugs.Slugify: `toLowerCase` is modelled on ASCII letters only, with other characters unchanged. `trim` uses the full ECMAScript whitespace and line-terminator set.
- The console message for an unresolved related word.
- The `templates` task, the gulp task wiring, bundling, styles, minification, images, `browserSync`, the watchers and the error handler.
- In the deploy script: nodegit and parse-github-url (the host, repository and branch are inputs), the S3 client, the spinner, the confirmation prompt, upload counting and the socket pool size.
- Deploy.UploadTarget: the host error is `NotGitHub(host)`, not the message text of the thrown `Error`.
- Deploy.GetS3Params: the callback is replaced by a returned map, and the `stat` argument, which is unused, is dropped.
- Deploy.Extname: `path.extname` and `path.basename` are modelled for POSIX paths, including trailing slashes and dot-files. Windows separators are not modelled.
- Feed.TextsMembers: membership of the optional elements is stated per element. Their order and their interleaving with the fixed elements are stated by Feed.ItemNames.
