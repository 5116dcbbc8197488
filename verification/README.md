# Cross-page link handling of BookStack's Page entity

A Dafny model of the link handling in `app/Entities/Models/Page.php`. It covers three operations:

- **getUrl** builds the path of a page: `/books/<book slug>/page/<slug>/<path>`, or `/books/<book slug>/draft/<id>/<path>` for a draft. The extra path has its surrounding slashes trimmed.
- **getLocalLinkedPages** finds the pages a page links to. It scans the page's html for anchors and takes the text after the last `/` of each href as a slug. It looks the slug up among the visible pages and collects the results without duplicates, in the order they were first found.
- **replaceLinksToRelativePDFLinks** prepares a set of pages and chapters for a single-document export. It builds a working list: the given entries, followed by the visible pages of each given chapter. Then, for every entry, it rewrites each link containing `/pages/` or `/page/` whose slug is the slug of some entry of the working list. The link becomes that entry's anchor `#page-<id>`, written in the entry's `html` in place. Each rewrite is also recorded in an optional log, which maps the link to its anchor.

The model has three files:

- `php_strings.dfy` (module `PhpStrings`) gives concrete definitions of the PHP built-ins the code relies on: `explode`, `implode`, `array_pop` of an exploded path, `str_contains`, `str_replace`, `trim` with one character, and int-to-string conversion. Each definition except `str_contains` comes with a characterisation or an inverse that is proved about it. `str_contains` is itself defined declaratively, as an occurrence at some index.
- `collections.dfy` (module `Collections`) models the repeated `add($x)->unique()` of a Support Collection.
- `page.dfy` (module `Pages`) holds the entity and the three operations:
  - Pages and chapters are objects of class `Entity`. Their `html` is the only field the operations write.
  - The optional log is an object of class `ReplacementLog`.
  - The loops of the source are methods with loop invariants. Each method is proved against a specification function on values:
    - `Unique`/`LinkedCandidates` for getLocalLinkedPages.
    - `ChapterPages` for the flattening.
    - `RewriteForHref(s)`, `RecordForHref(s)` and `RewritePass` for the rewrite.
  - The properties of the source are lemmas about those functions.

Collaborators that the entity only calls are parameters of the operations:

- the anchor scan of an html string (a PCRE match in the source): `scan`;
- the slug lookup among visible pages (a database query): `lookup`;
- `urlencode`.

A chapter's visible pages are a field, `visiblePages`, fixed when the object is built.

## Model

| member | source | states |
|---|---|---|
| Pages.GetUrlWrittenOut | app/Entities/Models/Page.php:124-135 | The path is "/books/" + book segment + "/" + "page" or "draft" + "/" + slug or id + "/" + trimmed path, i.e. the five segments joined by "/" after a leading "/" |
| Pages.GetUrlKinds | app/Entities/Models/Page.php:126-134 | Every page path starts with "/books/"; a non-draft page's path is a page link (contains "/page/"); a draft's path contains "/draft/" |
| Pages.GetUrlSegments | app/Entities/Models/Page.php:126-134 | When the encoder never yields '/', exploding the path on '/' gives "", "books", the encoded book slug (book_slug if set, else the book's slug), "draft"/"page", the id/encoded slug, then the pieces of the trimmed extra path |
| Pages.Entity.GetUrl | app/Entities/Models/Page.php:124-135 | Definition: "/" followed by the five segments joined with "/" (the argument of url()); its shape is stated by GetUrlWrittenOut, GetUrlKinds and GetUrlSegments |
| Pages.Entity.UrlParts | app/Entities/Models/Page.php:126-132 | Definition of the five segments: "books", the encoded book slug, "draft" and the id or "page" and the encoded slug, the trimmed path |
| Pages.Entity.UrlBookSlug | app/Entities/Models/Page.php:128 | Definition: the book_slug attribute when present, otherwise the related book's slug |
| PhpStrings.Trim | app/Entities/Models/Page.php:131 | trim($path, '/'): the result is no longer than the input and neither starts nor ends with '/' |
| PhpStrings.TrimSpec | app/Entities/Models/Page.php:131 | The result of trim is a contiguous part of the input and every character cut from either end is '/' |
| PhpStrings.TrimLeft | app/Entities/Models/Page.php:131 | Left half of trim: a suffix of the input that does not start with the character |
| PhpStrings.TrimRight | app/Entities/Models/Page.php:131 | Right half of trim: a prefix of the input that does not end with the character |
| PhpStrings.LastSegmentIsTextAfterLastSlash | app/Entities/Models/Page.php:163-164 | array_pop(explode('/', href)) holds no '/', is a suffix of the href, is the whole href when it has no '/', and follows a '/' otherwise (so it is empty when the href ends in '/') |
| PhpStrings.LastSegment | app/Entities/Models/Page.php:163-164 | array_pop(explode('/', href)): holds no '/' and is no longer than the href (fully characterised by LastSegmentIsTextAfterLastSlash) |
| PhpStrings.Explode | app/Entities/Models/Page.php:163 | explode('/', s): at least one piece (one empty piece for the empty string), no piece holds the delimiter, none is longer than s |
| PhpStrings.Implode | app/Entities/Models/Page.php:134 | Definition: the pieces joined with the delimiter between neighbours; ImplodeExplode and ExplodeImplode prove it inverse to Explode |
| PhpStrings.ImplodeExplode | app/Entities/Models/Page.php:163 | Joining the pieces of explode with the delimiter gives back the string |
| PhpStrings.ExplodeImplode | app/Entities/Models/Page.php:134 | Exploding pieces that hold no delimiter, joined by it, gives the pieces back |
| PhpStrings.StrContains | app/Entities/Models/Page.php:201 | Definition: the needle occurs at some index of the haystack; the empty needle is always contained, and a contained needle is no longer than the haystack |
| Pages.Entity.GetLocalLinkedPages | app/Entities/Models/Page.php:154-178 | Returns the pages looked up for the slugs of the scanned links, de-duplicated in first-seen order (equal to Unique of all lookups in scan order), and nothing when the scan finds no link |
| Pages.AddEach | app/Entities/Models/Page.php:168-174 | Adding each looked-up page with add()->unique() gives Unique of everything added so far followed by the new pages |
| Pages.LinkedPagesSpec | app/Entities/Models/Page.php:158-177 | The result has no duplicates, holds exactly the pages the lookup returns for some link's slug, and lists them in the order of their first appearance |
| Pages.LinkedCandidatesMembers | app/Entities/Models/Page.php:161-174 | A page is among the looked-up pages iff the lookup returns it for the slug of some scanned link |
| Collections.UniqueSpec | app/Entities/Models/Page.php:172 | Repeated add()->unique() keeps each distinct item once, keeps exactly the added items, and orders them by first addition |
| Collections.Unique | app/Entities/Models/Page.php:172 | Definition of the collection after add($x)->unique() for each item in turn; UniqueStep and UniqueSpec state what it is |
| Collections.UniqueStep | app/Entities/Models/Page.php:172 | One add($x)->unique() equals array_unique (keep an item iff no equal item precedes it) applied to the collection so far with x appended |
| Collections.ArrayUnique | app/Entities/Models/Page.php:172 | Definition of array_unique: keeps each item exactly when no equal item comes before it, in order |
| Collections.UniqueIsArrayUnique | app/Entities/Models/Page.php:172 | Calling unique() after every add gives the same collection as one array_unique over all added items |
| Pages.LinkedCandidates | app/Entities/Models/Page.php:161-167 | Definition: the pages the lookup returns for the slug of each scanned link, in link order, repetitions kept; LinkedCandidatesMembers characterises it |
| Pages.Flatten | app/Entities/Models/Page.php:182-192 | The working list is the input entries in their order (chapters kept), then the visible pages of each input chapter in input order, expanded one level only |
| Pages.ChapterPagesMembers | app/Entities/Models/Page.php:183-191 | An object is appended iff it is a visible page of some chapter of the input |
| Pages.ChapterPages | app/Entities/Models/Page.php:183-191 | Definition: the visible pages of each chapter of the input, in input order, not themselves expanded |
| Pages.Anchor | app/Entities/Models/Page.php:207 | The anchor is "#page-" followed by the decimal digits of the id, which read back to the id |
| PhpStrings.DecimalRoundTrip | app/Entities/Models/Page.php:207 | Reading back the decimal form of an id gives the id |
| PhpStrings.DecimalInjective | app/Entities/Models/Page.php:207 | Distinct ids give distinct decimal forms |
| PhpStrings.NatToDecimal | app/Entities/Models/Page.php:207 | The decimal form of an id: at least one digit, only digits, and no leading zero unless the id is 0 |
| Pages.RewriteHref | app/Entities/Models/Page.php:204-213 | One link compared with every working-list entry: the html becomes RewriteForHref of its old value, and the log, when given, RecordForHref of its old value |
| Pages.RewriteEntry | app/Entities/Models/Page.php:195-216 | The links are scanned from the html as it was on entry, and only page links are handled, in scan order; html and log are the fold of RewriteForHref/RecordForHref over them |
| Pages.RewritePageLinks | app/Entities/Models/Page.php:193-218 | Every entry's html and the log end as RewritePass over the working list from the initial htmls and log |
| Pages.ReplaceLinksToRelativePdfLinks | app/Entities/Models/Page.php:180-219 | Only the html of the input entries and appended chapter pages and the given log may change; they end as RewritePass over the flattened working list |
| Pages.RewritePass | app/Entities/Models/Page.php:193-218 | Rewriting never adds or drops an object from the state |
| Pages.IsPageLink | app/Entities/Models/Page.php:201 | Definition: the link contains "/pages/" or "/page/" |
| Pages.MatchingIds | app/Entities/Models/Page.php:204-206 | Definition: the ids of the working-list entries whose slug equals the link's slug, in list order |
| Pages.RewriteForHref | app/Entities/Models/Page.php:204-213 | Definition: str_replace of the link by each matching entry's anchor, entry by entry in list order; FirstMatchWins and UnmatchedHrefChangesNothing state its effect |
| Pages.RecordForHref | app/Entities/Models/Page.php:206-210 | The log after one link: every old key is kept with its value except the link's own, and the only key that can be added is the link |
| Pages.RewriteForHrefs | app/Entities/Models/Page.php:199-215 | Definition: RewriteForHref applied for each scanned link that is a page link, in scan order |
| Pages.RecordForHrefs | app/Entities/Models/Page.php:199-215 | Definition: RecordForHref applied for each scanned link that is a page link, in scan order; PageLogSpec characterises it |
| Pages.PassOnDistinctEntries | app/Entities/Models/Page.php:193-218 | With each object listed once, each entry's html is its original html with its own scanned links rewritten, objects not listed are unchanged, and the log is the record of all entries' links in order |
| Pages.NonPageLinksAreIgnored | app/Entities/Models/Page.php:201 | Links containing neither "/pages/" nor "/page/" change neither the html nor the log |
| Pages.UnmatchedHrefChangesNothing | app/Entities/Models/Page.php:204-206 | A link whose slug is no entry's slug leaves html and log unchanged |
| Pages.UnresolvedLinksChangeNothing | app/Entities/Models/Page.php:199-215 | An entry none of whose page links resolves keeps its html, and the log is untouched |
| Pages.UnresolvedEntryKeepsHtml | app/Entities/Models/Page.php:193-218 | An entry (page or chapter) none of whose scanned page links resolves keeps its html after the whole pass, however many times the working list holds it |
| Pages.FirstMatchWins | app/Entities/Models/Page.php:204-211 | For an ordinary link (see Left out), when several entries share its slug the html is the link replaced by the anchor of the first matching entry |
| Pages.ResolvedLinkPointsToFirstMatch | app/Entities/Models/Page.php:204-211 | For an ordinary link that occurs in the html and resolves, afterwards the link no longer occurs and the first match's anchor does |
| Pages.LogHoldsLastMatch | app/Entities/Models/Page.php:206-210 | The log entry of a link is overwritten on every match and ends holding the anchor of the last match; without a match the log is unchanged |
| Pages.PageLogSpec | app/Entities/Models/Page.php:199-215 | After one entry the log has a key for exactly the old keys and the resolving page links, each such link mapped to its last match's anchor, other keys kept |
| Pages.RecordForHrefsAppend | app/Entities/Models/Page.php:193-218 | Recording two runs of links in sequence equals recording their concatenation |
| PhpStrings.StrReplaceWithoutOccurrence | app/Entities/Models/Page.php:211 | str_replace leaves a subject in which the search does not occur unchanged |
| PhpStrings.StrReplaceLeftmost | app/Entities/Models/Page.php:211 | str_replace copies the text before the leftmost occurrence, replaces it, and continues after it |
| PhpStrings.StrReplace | app/Entities/Models/Page.php:211 | str_replace, left to right without overlap (empty search: subject unchanged); a replacement as long as the search keeps the length |
| PhpStrings.StrReplaceInsertsReplacement | app/Entities/Models/Page.php:211 | If the search occurs, the replacement occurs in the result |
| PhpStrings.StrReplaceRemovesAll | app/Entities/Models/Page.php:211 | When search and replacement cannot overlap one another's first character, no occurrence of the search is left |
| PhpStrings.TrimLeftSpec | app/Entities/Models/Page.php:131 | Trimming the left end removes exactly the leading run of the character |
| PhpStrings.TrimRightSpec | app/Entities/Models/Page.php:131 | Trimming the right end removes exactly the trailing run of the character |

## Left out

- The `url()` helper is not part of this model. GetUrl returns the string passed to it. With an empty extra path, that string ends in "/".
- The PCRE anchor scan (`preg_match_all` with the `siU` flags) is a parameter, `scan`, from html to the hrefs it finds in order. When the scan finds nothing, the source's `if` skips the loop. The model iterates over an empty sequence instead, which has the same effect.
- The per-link query `Page::visible()->where('slug', 'like', ...)` is a parameter, `lookup`. This leaves out SQL `LIKE` wildcards, visibility permissions and the columns selected; the lookup returns rows with just those columns.
- Collection `unique()` compares items with PHP's loose `==` (SORT_REGULAR). The model compares `PageRow` values for equality.
- Slugs are compared with plain string equality, not PHP's loose `==`, whose numeric-string coercions are not modelled.
- `Chapter::getVisiblePages()` is a per-object field, `visiblePages`. Its permission filtering is not modelled.
- The `$offset` parameter of replaceLinksToRelativePDFLinks is unused in the source and is not a parameter here.
- `new Collection($pages)` makes a copy, so the caller's collection never grows. In the model, sequences are values, so the input sequence cannot grow either, and there is no separate statement about it.
- In the source, the inner loops reuse the names `$page` and `$key`. Because `foreach` iterates its own copy, the outer loops are not affected, and the model iterates snapshots in the same way.
- Ids are unbounded naturals. The PHP integer width is not modelled.
- Pages.FirstMatchWins: is proved only for links that contain no '#' and do not start with one of the characters of "#page-" or a digit. Without that condition a first anchor can itself contain the link. Example: href "/page/#pa", html "/page//page/#pa", target slug "#pa" with id 5. After the first replacement the html is "/page/#page-5", which still contains the href.
- Pages.ResolvedLinkPointsToFirstMatch: has the same condition as FirstMatchWins. It states that the link is gone and the anchor present, not the position of every replaced occurrence; StrReplaceLeftmost gives that position.
- Pages.PassOnDistinctEntries: covers working lists in which no object appears twice. When an object appears twice, RewritePass rescans its already-rewritten html on its second turn, and the methods are proved against that general case.
- Applying the rewrite twice in a row is not shown to be idempotent. The anchor scan is a parameter, so nothing constrains the links it finds in already rewritten html. ResolvedLinkPointsToFirstMatch proves the part that does not depend on the scan: a resolved link no longer occurs.
- Chapter entries are rewritten exactly like pages. The loop at lines 193-218 reads `html` of every entry, chapters included, without a kind check. The model gives chapters an html of their own. Whether a chapter's html yields links depends on the scan; UnresolvedEntryKeepsHtml shows that one without resolving links keeps its html.
- The keys of the Collection getLocalLinkedPages returns are not modelled, only the order of its values. `unique()` keeps the keys of the items it retains, and the next `add()` takes the next free index. So once a duplicate has been dropped the keys are no longer 0..n-1. For example, lookups [A], [A], [B] give keys 0 and 2. The model returns the sequence [A, B].
- The log `$replacedValues` is an ordered Collection: the first write of a link fixes its position, and later writes keep it. The model's log is a `map`, which keeps the keys and their final values but not that order.
- The relationship accessors, `scopeVisible`, `forJsonDisplay` and `getBySlugs` of Page.php are database and framework code and are not modelled.
