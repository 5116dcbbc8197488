/**
 * The Page entity of the content tree (app/Entities/Models/Page.php) and its
 * cross-page link handling:
 *   - getUrl: the path of a page;
 *   - getLocalLinkedPages: the pages a page links to, each listed once;
 *   - replaceLinksToRelativePDFLinks: flattening an export's pages and
 *     chapters into one working list, then rewriting every page link that
 *     resolves within that list into a same-document anchor "#page-<id>".
 *
 * Collaborators the entity only calls are parameters: the anchor scan of a
 * page's html (a regular expression in the original), the slug lookup among
 * visible pages (a database query) and urlencode. A chapter's visible pages
 * (a database query in the original) are a field fixed at construction.
 */
module Pages {
  import opened PhpStrings
  import opened Collections

  datatype Option<T> = None | Some(value: T)

  /** An export lists pages and chapters. */
  datatype Kind = Page | Chapter

  /** A page as the slug lookup returns it: the columns id, name, slug, book_id. */
  datatype PageRow = PageRow(id: nat, name: string, slug: string, bookId: nat)

  /** A page or chapter of the content tree. Of its attributes, only the
      rendered html is ever written by the operations modelled here. */
  class Entity {
    const kind: Kind
    const id: nat
    const slug: string
    const draft: bool
    /** The book_slug attribute, present when the query that loaded the page selected it. */
    const bookSlugAttribute: Option<string>
    /** The slug of the related book. */
    const bookSlug: string
    /** For a chapter, its pages visible to the current user (getVisiblePages). */
    const visiblePages: seq<Entity>
    var html: string

    constructor (kind: Kind, id: nat, slug: string, draft: bool,
                 bookSlugAttribute: Option<string>, bookSlug: string,
                 visiblePages: seq<Entity>, html: string)
      ensures this.kind == kind && this.id == id && this.slug == slug && this.draft == draft
      ensures this.bookSlugAttribute == bookSlugAttribute && this.bookSlug == bookSlug
      ensures this.visiblePages == visiblePages && this.html == html
    {
      this.kind := kind;
      this.id := id;
      this.slug := slug;
      this.draft := draft;
      this.bookSlugAttribute := bookSlugAttribute;
      this.bookSlug := bookSlug;
      this.visiblePages := visiblePages;
      this.html := html;
    }

    // -------------------------------------------------------------------------
    // getUrl

    /** book_slug ?? book->slug */
    function UrlBookSlug(): string
    {
      match bookSlugAttribute
      case Some(s) => s
      case None => bookSlug
    }

    /** The five segments getUrl joins: "books", the book slug, then
        "draft" and the id for a draft, "page" and the slug otherwise, then
        the extra path with its surrounding slashes trimmed. */
    function UrlParts(path: string, urlencode: string -> string): seq<string>
    {
      ["books", urlencode(UrlBookSlug()),
       if draft then "draft" else "page",
       if draft then NatToDecimal(id) else urlencode(slug),
       Trim('/', path)]
    }

    /** The argument getUrl passes to the url() helper: "/" followed by the
        segments joined with "/". */
    function GetUrl(path: string, urlencode: string -> string): string
      requires kind == Page
    {
      "/" + Implode('/', UrlParts(path, urlencode))
    }

    // -------------------------------------------------------------------------
    // getLocalLinkedPages

    /** Every page the lookup returns for the slug of some link of the html,
        each listed once, in the order first found; nothing when the scan
        finds no link. */
    method GetLocalLinkedPages(scan: string -> seq<string>, lookup: string -> seq<PageRow>)
      returns (pages: seq<PageRow>)
      ensures pages == Unique(LinkedCandidates(scan(html), lookup))
      ensures scan(html) == [] ==> pages == []
    {
      var matches := scan(html);
      pages := [];
      ghost var added: seq<PageRow> := [];
      var k := 0;
      while k < |matches|
        invariant 0 <= k <= |matches|
        invariant added == LinkedCandidates(matches[..k], lookup)
        invariant pages == Unique(added)
      {
        var lastPart := LastSegment(matches[k]);
        var subPages := lookup(lastPart);
        pages := AddEach(pages, added, subPages);
        added := added + subPages;
        LinkedCandidatesStep(matches, k, lookup);
        k := k + 1;
      }
      assert matches[..k] == matches;
    }
  }

  /** $pages->add($subPage)->unique() for each page of subPages in turn:
      each page is appended exactly when it is not yet present. */
  method AddEach(pages: seq<PageRow>, ghost added: seq<PageRow>, subPages: seq<PageRow>)
    returns (r: seq<PageRow>)
    requires pages == Unique(added)
    ensures r == Unique(added + subPages)
  {
    r := pages;
    ghost var seen := added;
    var j := 0;
    while j < |subPages|
      invariant 0 <= j <= |subPages|
      invariant seen == added + subPages[..j]
      invariant r == Unique(seen)
    {
      var subPage := subPages[j];
      assert (seen + [subPage])[..|seen|] == seen;
      seen := seen + [subPage];
      if subPage !in r {
        r := r + [subPage];
      }
      assert subPages[..j + 1] == subPages[..j] + [subPage];
      j := j + 1;
    }
    assert subPages[..j] == subPages;
  }

  /** One more link adds the pages looked up for its slug. */
  lemma LinkedCandidatesStep(hrefs: seq<string>, k: nat, lookup: string -> seq<PageRow>)
    requires k < |hrefs|
    ensures LinkedCandidates(hrefs[..k + 1], lookup) ==
      LinkedCandidates(hrefs[..k], lookup) + lookup(LastSegment(hrefs[k]))
  {
    assert hrefs[..k + 1][..k] == hrefs[..k];
  }

  /** getUrl written out: "/books/<book>/" then "page/<slug>" or
      "draft/<id>", then "/" and the trimmed extra path. */
  lemma GetUrlWrittenOut(page: Entity, path: string, urlencode: string -> string)
    requires page.kind == Page
    ensures var parts := page.UrlParts(path, urlencode);
      page.GetUrl(path, urlencode) ==
        "/books/" + parts[1] + ("/" + parts[2] + "/") + (parts[3] + "/" + parts[4])
  {
    var parts := page.UrlParts(path, urlencode);
    assert parts[3..][1..] == parts[4..] && parts[2..][1..] == parts[3..];
    assert parts[1..][1..] == parts[2..];
    assert Implode('/', parts[3..]) == parts[3] + "/" + parts[4];
    assert Implode('/', parts[2..]) == parts[2] + "/" + (parts[3] + "/" + parts[4]);
    assert Implode('/', parts[1..]) == parts[1] + "/" + (parts[2] + "/" + (parts[3] + "/" + parts[4]));
  }

  /** The url of a published page is a page link in the sense of the link
      rewrite (it contains "/page/"); a draft's contains "/draft/" instead.
      Both start with "/books/". */
  lemma GetUrlKinds(page: Entity, path: string, urlencode: string -> string)
    requires page.kind == Page
    ensures var url := page.GetUrl(path, urlencode);
      |url| >= 7 && url[..7] == "/books/" &&
      (!page.draft ==> IsPageLink(url)) &&
      (page.draft ==> StrContains(url, "/draft/"))
  {
    var parts := page.UrlParts(path, urlencode);
    GetUrlWrittenOut(page, path, urlencode);
    assert !page.draft ==> "/" + parts[2] + "/" == "/page/";
    assert page.draft ==> "/" + parts[2] + "/" == "/draft/";
    StrContainsMiddle("/books/" + parts[1], "/" + parts[2] + "/", parts[3] + "/" + parts[4]);
  }

  /** Splitting the url at "/" gives back its segments, when urlencode never
      produces a "/" (it encodes it as "%2F"): an empty piece for the leading
      "/", "books", the encoded book slug, "draft" and the id or "page" and
      the encoded slug, then the pieces of the trimmed extra path. */
  lemma GetUrlSegments(page: Entity, path: string, urlencode: string -> string)
    requires page.kind == Page
    requires forall s :: '/' !in urlencode(s)
    ensures Explode('/', page.GetUrl(path, urlencode)) ==
      ["", "books", urlencode(page.UrlBookSlug()),
       if page.draft then "draft" else "page",
       if page.draft then NatToDecimal(page.id) else urlencode(page.slug)]
      + Explode('/', Trim('/', path))
  {
    var parts := page.UrlParts(path, urlencode);
    assert '/' !in NatToDecimal(page.id) by {
      var d := NatToDecimal(page.id);
      assert forall k :: 0 <= k < |d| ==> IsDigit(d[k]);
    }
    assert '/' !in urlencode(page.UrlBookSlug()) && '/' !in urlencode(page.slug);
    ExplodeRootedPath(parts[1], parts[2], parts[3], parts[4]);
  }

  /** Exploding "/books/<a>/<b>/<c>/<rest>" when a, b and c hold no "/". */
  lemma ExplodeRootedPath(a: string, b: string, c: string, rest: string)
    requires '/' !in a && '/' !in b && '/' !in c
    ensures Explode('/', "/" + Implode('/', ["books", a, b, c, rest])) ==
      ["", "books", a, b, c] + Explode('/', rest)
  {
    var ps := ["", "books", a, b, c];
    var all := ps + [rest];
    assert all[1..] == ["books", a, b, c, rest];
    assert Implode('/', all) == "/" + Implode('/', ["books", a, b, c, rest]);
    forall i | 0 <= i < |ps| ensures '/' !in ps[i] {
    }
    ExplodeImplode('/', ps, rest);
  }

  /** The pages looked up for each link, in link order, repetitions kept. */
  function LinkedCandidates(hrefs: seq<string>, lookup: string -> seq<PageRow>): seq<PageRow>
    decreases |hrefs|
  {
    if |hrefs| == 0 then []
    else LinkedCandidates(hrefs[..|hrefs| - 1], lookup) + lookup(LastSegment(hrefs[|hrefs| - 1]))
  }

  lemma {:induction false} LinkedCandidatesMembers(hrefs: seq<string>, lookup: string -> seq<PageRow>)
    ensures forall p :: p in LinkedCandidates(hrefs, lookup) <==>
      exists k :: 0 <= k < |hrefs| && p in lookup(LastSegment(hrefs[k]))
    decreases |hrefs|
  {
    if |hrefs| > 0 {
      var hs := hrefs[..|hrefs| - 1];
      LinkedCandidatesMembers(hs, lookup);
      forall p ensures p in LinkedCandidates(hrefs, lookup) <==>
        exists k :: 0 <= k < |hrefs| && p in lookup(LastSegment(hrefs[k]))
      {
        if p in LinkedCandidates(hs, lookup) {
          var k :| 0 <= k < |hs| && p in lookup(LastSegment(hs[k]));
          assert hrefs[k] == hs[k];
        }
        if exists k :: 0 <= k < |hrefs| && p in lookup(LastSegment(hrefs[k])) {
          var k :| 0 <= k < |hrefs| && p in lookup(LastSegment(hrefs[k]));
          if k < |hs| {
            assert hrefs[k] == hs[k];
          }
        }
      }
    }
  }

  /** What getLocalLinkedPages returns: no page twice, exactly the pages the
      lookup gives for the slug of some link, in the order first found. */
  lemma LinkedPagesSpec(hrefs: seq<string>, lookup: string -> seq<PageRow>)
    ensures NoDuplicates(Unique(LinkedCandidates(hrefs, lookup)))
    ensures forall p :: p in Unique(LinkedCandidates(hrefs, lookup)) <==>
      exists k :: 0 <= k < |hrefs| && p in lookup(LastSegment(hrefs[k]))
    ensures forall p :: p in Unique(LinkedCandidates(hrefs, lookup)) <==> p in LinkedCandidates(hrefs, lookup)
    ensures var all := LinkedCandidates(hrefs, lookup);
      forall i, j :: 0 <= i < j < |Unique(all)| ==> FirstIndex(all, Unique(all)[i]) < FirstIndex(all, Unique(all)[j])
  {
    UniqueSpec(LinkedCandidates(hrefs, lookup));
    LinkedCandidatesMembers(hrefs, lookup);
  }

  // ---------------------------------------------------------------------------
  // replaceLinksToRelativePDFLinks, step 1: the working list

  /** The visible pages of each chapter of the input, in input order. Pages
      appended this way are not themselves expanded. */
  function ChapterPages(entries: seq<Entity>): seq<Entity>
    decreases |entries|
  {
    if |entries| == 0 then []
    else
      var last := entries[|entries| - 1];
      ChapterPages(entries[..|entries| - 1]) +
        (if last.kind == Chapter then last.visiblePages else [])
  }

  /** The working list: a copy of the input, with the visible pages of every
      input chapter appended after all input entries. */
  method Flatten(pages: seq<Entity>)
    returns (tempPages: seq<Entity>)
    ensures tempPages == pages + ChapterPages(pages)
  {
    tempPages := pages;
    var i := 0;
    // the loop visits the entries present when it starts
    while i < |pages|
      invariant 0 <= i <= |pages|
      invariant tempPages == pages + ChapterPages(pages[..i])
    {
      var entry := tempPages[i];
      assert pages[..i + 1][..i] == pages[..i];
      if entry.kind == Chapter {
        var children := entry.visiblePages;
        var j := 0;
        while j < |children|
          invariant 0 <= j <= |children|
          invariant tempPages == pages + ChapterPages(pages[..i]) + children[..j]
        {
          tempPages := tempPages + [children[j]];
          assert children[..j + 1] == children[..j] + [children[j]];
          j := j + 1;
        }
        assert children[..j] == children;
      }
      i := i + 1;
    }
    assert pages[..i] == pages;
  }

  /** An entry is appended by the expansion exactly when it is a visible page
      of a chapter of the input. */
  lemma {:induction false} ChapterPagesMembers(entries: seq<Entity>)
    ensures forall e :: e in ChapterPages(entries) <==>
      exists c :: c in entries && c.kind == Chapter && e in c.visiblePages
    decreases |entries|
  {
    if |entries| > 0 {
      var init := entries[..|entries| - 1];
      var last := entries[|entries| - 1];
      ChapterPagesMembers(init);
      assert entries == init + [last];
      forall e ensures e in ChapterPages(entries) <==>
        exists c :: c in entries && c.kind == Chapter && e in c.visiblePages
      {
        if exists c :: c in entries && c.kind == Chapter && e in c.visiblePages {
          var c :| c in entries && c.kind == Chapter && e in c.visiblePages;
          if c != last {
            assert c in init;
          }
        }
      }
    }
  }

  // ---------------------------------------------------------------------------
  // replaceLinksToRelativePDFLinks, step 2: rewriting links

  /** The characters anchors are made of. */
  predicate AnchorChar(c: char)
  {
    c in "#page-" || IsDigit(c)
  }

  /** The same-document anchor of an entry: "#page-" followed by its id,
      which can be read back from it. */
  function Anchor(id: nat): (a: string)
    ensures |a| > 6 && a[..6] == "#page-"
    ensures forall k :: 6 <= k < |a| ==> IsDigit(a[k])
    ensures forall k :: 0 <= k < |a| ==> AnchorChar(a[k])
    ensures DecimalValue(a[6..]) == id
  {
    var a := "#page-" + NatToDecimal(id);
    assert a[6..] == NatToDecimal(id);
    assert forall k :: 0 <= k < 6 ==> a[k] == "#page-"[k];
    DecimalRoundTrip(id);
    a
  }

  /** A link the rewrite looks at: one containing "/pages/" or "/page/". */
  predicate IsPageLink(href: string)
  {
    StrContains(href, "/pages/") || StrContains(href, "/page/")
  }

  /** The ids of the working-list entries whose slug is slug, in list order. */
  function MatchingIds(work: seq<Entity>, slug: string): seq<nat>
    decreases |work|
  {
    if |work| == 0 then []
    else
      var last := work[|work| - 1];
      MatchingIds(work[..|work| - 1], slug) + (if last.slug == slug then [last.id] else [])
  }

  /** The html after one link has been compared with every entry of targets
      in order, each entry whose slug equals the link's slug triggering a
      str_replace of the link by that entry's anchor. */
  function RewriteForHref(html: string, href: string, targets: seq<Entity>): string
    decreases |targets|
  {
    if |targets| == 0 then html
    else
      var h := RewriteForHref(html, href, targets[..|targets| - 1]);
      var t := targets[|targets| - 1];
      if t.slug == LastSegment(href) then StrReplace(href, Anchor(t.id), h) else h
  }

  /** The replacement log after the same comparisons: each match writes the
      link's entry anew. */
  function RecordForHref(log: map<string, string>, href: string, targets: seq<Entity>): (r: map<string, string>)
    ensures log.Keys <= r.Keys <= log.Keys + {href}
    ensures forall k :: k in log && k != href ==> r[k] == log[k]
    decreases |targets|
  {
    if |targets| == 0 then log
    else
      var l := RecordForHref(log, href, targets[..|targets| - 1]);
      var t := targets[|targets| - 1];
      if t.slug == LastSegment(href) then l[href := Anchor(t.id)] else l
  }

  /** The html after every link found on the page has been handled in scan
      order; links that are not page links are skipped. */
  function RewriteForHrefs(html: string, hrefs: seq<string>, targets: seq<Entity>): string
    decreases |hrefs|
  {
    if |hrefs| == 0 then html
    else
      var h := RewriteForHrefs(html, hrefs[..|hrefs| - 1], targets);
      var href := hrefs[|hrefs| - 1];
      if IsPageLink(href) then RewriteForHref(h, href, targets) else h
  }

  /** The replacement log after every link found on the page. */
  function RecordForHrefs(log: map<string, string>, hrefs: seq<string>, targets: seq<Entity>): map<string, string>
    decreases |hrefs|
  {
    if |hrefs| == 0 then log
    else
      var l := RecordForHrefs(log, hrefs[..|hrefs| - 1], targets);
      var href := hrefs[|hrefs| - 1];
      if IsPageLink(href) then RecordForHref(l, href, targets) else l
  }

  /** The links of hrefs that the rewrite looks at, in order. */
  function PageLinks(hrefs: seq<string>): seq<string>
    decreases |hrefs|
  {
    if |hrefs| == 0 then []
    else
      var last := hrefs[|hrefs| - 1];
      PageLinks(hrefs[..|hrefs| - 1]) + (if IsPageLink(last) then [last] else [])
  }

  /** A link whose slug is the slug of no entry changes neither the html nor
      the log. */
  lemma {:induction false} UnmatchedHrefChangesNothing(html: string, log: map<string, string>,
                                                      href: string, targets: seq<Entity>)
    requires MatchingIds(targets, LastSegment(href)) == []
    ensures RewriteForHref(html, href, targets) == html
    ensures RecordForHref(log, href, targets) == log
    decreases |targets|
  {
    if |targets| > 0 {
      UnmatchedHrefChangesNothing(html, log, href, targets[..|targets| - 1]);
    }
  }

  /** Each match overwrites the log entry of the link, so the log ends up
      holding the anchor of the last matching entry. */
  lemma {:induction false} LogHoldsLastMatch(log: map<string, string>, href: string, targets: seq<Entity>)
    ensures var ids := MatchingIds(targets, LastSegment(href));
      RecordForHref(log, href, targets) ==
        if ids == [] then log else log[href := Anchor(ids[|ids| - 1])]
    decreases |targets|
  {
    if |targets| > 0 {
      var init := targets[..|targets| - 1];
      var t := targets[|targets| - 1];
      var slug := LastSegment(href);
      LogHoldsLastMatch(log, href, init);
      var ids := MatchingIds(init, slug);
      var l := RecordForHref(log, href, init);
      if t.slug == slug {
        assert RecordForHref(log, href, targets) == l[href := Anchor(t.id)];
        var all := MatchingIds(targets, slug);
        assert all == ids + [t.id] && all[|all| - 1] == t.id;
        if ids != [] {
          assert l == log[href := Anchor(ids[|ids| - 1])];
          assert l[href := Anchor(t.id)] == log[href := Anchor(t.id)];
        }
      } else {
        assert RecordForHref(log, href, targets) == l;
        assert MatchingIds(targets, slug) == ids + [] == ids;
      }
    }
  }

  /** A link that cannot run into an anchor: it holds no '#' and does not
      start with a character anchors are made of. Ordinary links (starting
      with "/" or "http") are of this kind. */
  predicate ClearOfAnchors(href: string)
  {
    |href| > 0 && '#' !in href && !AnchorChar(href[0])
  }

  /** After the first replacement no occurrence of the link is left, so later
      matching entries find nothing to replace: the html points to the first
      matching entry of the working list. */
  lemma {:induction false} FirstMatchWins(html: string, href: string, targets: seq<Entity>)
    requires ClearOfAnchors(href)
    requires MatchingIds(targets, LastSegment(href)) != []
    ensures RewriteForHref(html, href, targets) ==
      StrReplace(href, Anchor(MatchingIds(targets, LastSegment(href))[0]), html)
    decreases |targets|
  {
    var init := targets[..|targets| - 1];
    var t := targets[|targets| - 1];
    var slug := LastSegment(href);
    if MatchingIds(init, slug) == [] {
      UnmatchedHrefChangesNothing(html, map[], href, init);
    } else {
      FirstMatchWins(html, href, init);
      var first := Anchor(MatchingIds(init, slug)[0]);
      if t.slug == slug {
        assert href[0] !in first;
        assert first[0] !in href;
        StrReplaceRemovesAll(href, first, html);
        StrReplaceWithoutOccurrence(href, Anchor(t.id), StrReplace(href, first, html));
      }
    }
  }

  /** A link that occurs in the html and resolves within the working list is
      gone afterwards, and the anchor of the first matching entry is there. */
  lemma ResolvedLinkPointsToFirstMatch(html: string, href: string, targets: seq<Entity>)
    requires ClearOfAnchors(href) && StrContains(html, href)
    requires MatchingIds(targets, LastSegment(href)) != []
    ensures var r := RewriteForHref(html, href, targets);
      StrContains(r, Anchor(MatchingIds(targets, LastSegment(href))[0])) && !StrContains(r, href)
  {
    var first := Anchor(MatchingIds(targets, LastSegment(href))[0]);
    FirstMatchWins(html, href, targets);
    StrReplaceInsertsReplacement(href, first, html);
    assert href[0] !in first;
    assert first[0] !in href;
    StrReplaceRemovesAll(href, first, html);
  }

  /** Links that contain neither "/pages/" nor "/page/" play no part: the
      html and the log are the same with them dropped. */
  lemma NonPageLinksAreIgnored(html: string, log: map<string, string>,
                               hrefs: seq<string>, targets: seq<Entity>)
    ensures RewriteForHrefs(html, hrefs, targets) == RewriteForHrefs(html, PageLinks(hrefs), targets)
    ensures RecordForHrefs(log, hrefs, targets) == RecordForHrefs(log, PageLinks(hrefs), targets)
  {
    NonPageLinksLeaveHtml(html, hrefs, targets);
    NonPageLinksLeaveLog(log, hrefs, targets);
  }

  lemma {:induction false} NonPageLinksLeaveHtml(html: string, hrefs: seq<string>, targets: seq<Entity>)
    ensures RewriteForHrefs(html, hrefs, targets) == RewriteForHrefs(html, PageLinks(hrefs), targets)
    decreases |hrefs|
  {
    if |hrefs| > 0 {
      var init := hrefs[..|hrefs| - 1];
      var last := hrefs[|hrefs| - 1];
      NonPageLinksLeaveHtml(html, init, targets);
      var links := PageLinks(hrefs);
      if IsPageLink(last) {
        assert links == PageLinks(init) + [last];
        assert links[..|links| - 1] == PageLinks(init) && links[|links| - 1] == last;
      } else {
        assert links == PageLinks(init) + [];
        assert links == PageLinks(init);
      }
    }
  }

  lemma {:induction false} NonPageLinksLeaveLog(log: map<string, string>, hrefs: seq<string>, targets: seq<Entity>)
    ensures RecordForHrefs(log, hrefs, targets) == RecordForHrefs(log, PageLinks(hrefs), targets)
    decreases |hrefs|
  {
    if |hrefs| > 0 {
      var init := hrefs[..|hrefs| - 1];
      var last := hrefs[|hrefs| - 1];
      NonPageLinksLeaveLog(log, init, targets);
      var links := PageLinks(hrefs);
      if IsPageLink(last) {
        assert links == PageLinks(init) + [last];
        assert links[..|links| - 1] == PageLinks(init) && links[|links| - 1] == last;
      } else {
        assert links == PageLinks(init) + [];
        assert links == PageLinks(init);
      }
    }
  }

  /** A page none of whose page links resolves within the working list (a
      chapter, say, whose html holds no links) keeps its html, and the log
      is not touched. */
  lemma {:induction false} UnresolvedLinksChangeNothing(html: string, log: map<string, string>,
                                                       hrefs: seq<string>, targets: seq<Entity>)
    requires forall k :: 0 <= k < |hrefs| && IsPageLink(hrefs[k]) ==>
      MatchingIds(targets, LastSegment(hrefs[k])) == []
    ensures RewriteForHrefs(html, hrefs, targets) == html
    ensures RecordForHrefs(log, hrefs, targets) == log
    decreases |hrefs|
  {
    if |hrefs| > 0 {
      var init := hrefs[..|hrefs| - 1];
      assert forall k :: 0 <= k < |init| ==> init[k] == hrefs[k];
      UnresolvedLinksChangeNothing(html, log, init, targets);
      var last := hrefs[|hrefs| - 1];
      if IsPageLink(last) {
        UnmatchedHrefChangesNothing(html, log, last, targets);
      }
    }
  }

  /** href is a page link found on the page that resolves within the working list. */
  predicate Resolves(href: string, hrefs: seq<string>, targets: seq<Entity>)
  {
    href in hrefs && IsPageLink(href) && MatchingIds(targets, LastSegment(href)) != []
  }

  /** The anchor of the last working-list entry whose slug is the link's slug. */
  function LastMatchAnchor(href: string, targets: seq<Entity>): string
    requires MatchingIds(targets, LastSegment(href)) != []
  {
    var ids := MatchingIds(targets, LastSegment(href));
    Anchor(ids[|ids| - 1])
  }

  /** The log after one page: an entry is added or overwritten for exactly
      the page links that resolve, holding the anchor of their last match;
      every other entry is kept. */
  lemma {:induction false} PageLogSpec(log: map<string, string>, hrefs: seq<string>, targets: seq<Entity>)
    ensures var r := RecordForHrefs(log, hrefs, targets);
      (forall key :: key in r <==> key in log || Resolves(key, hrefs, targets)) &&
      (forall key :: Resolves(key, hrefs, targets) ==> r[key] == LastMatchAnchor(key, targets)) &&
      (forall key :: key in log && !Resolves(key, hrefs, targets) ==> r[key] == log[key])
    decreases |hrefs|
  {
    if |hrefs| > 0 {
      var init := hrefs[..|hrefs| - 1];
      var last := hrefs[|hrefs| - 1];
      assert hrefs == init + [last];
      PageLogSpec(log, init, targets);
      var r0 := RecordForHrefs(log, init, targets);
      if IsPageLink(last) {
        LogHoldsLastMatch(r0, last, targets);
      }
      forall key ensures Resolves(key, hrefs, targets) <==>
        Resolves(key, init, targets) || (key == last && Resolves(last, hrefs, targets))
      {
      }
    }
  }

  /** Recording two runs of links one after the other. */
  lemma {:induction false} RecordForHrefsAppend(log: map<string, string>, a: seq<string>, b: seq<string>,
                                                targets: seq<Entity>)
    ensures RecordForHrefs(log, a + b, targets) == RecordForHrefs(RecordForHrefs(log, a, targets), b, targets)
    decreases |b|
  {
    if |b| == 0 {
      assert a + b == a;
    } else {
      var b' := b[..|b| - 1];
      assert (a + b)[..|a + b| - 1] == a + b';
      assert (a + b)[|a + b| - 1] == b[|b| - 1];
      RecordForHrefsAppend(log, a, b', targets);
    }
  }

  /** The links scanned from the html of each entry of todo, in order. */
  function ScannedLinks(htmls: map<Entity, string>, todo: seq<Entity>, scan: string -> seq<string>): seq<string>
    requires forall e :: e in todo ==> e in htmls
    decreases |todo|
  {
    if |todo| == 0 then []
    else ScannedLinks(htmls, todo[..|todo| - 1], scan) + scan(htmls[todo[|todo| - 1]])
  }

  /** When no object is listed twice, every entry ends with its own html
      rewritten from its original html alone, objects not listed keep
      theirs, and the log is what recording the links of all entries in
      order gives. */
  lemma {:induction false} PassOnDistinctEntries(st: PassState, todo: seq<Entity>, work: seq<Entity>,
                                                 scan: string -> seq<string>)
    requires forall e :: e in todo ==> e in st.htmls
    requires NoDuplicates(todo)
    ensures var r := RewritePass(st, todo, work, scan);
      (forall k :: 0 <= k < |todo| ==>
        r.htmls[todo[k]] == RewriteForHrefs(st.htmls[todo[k]], scan(st.htmls[todo[k]]), work)) &&
      (forall e :: e in st.htmls && e !in todo ==> r.htmls[e] == st.htmls[e]) &&
      r.log == RecordForHrefs(st.log, ScannedLinks(st.htmls, todo, scan), work)
    decreases |todo|
  {
    if |todo| > 0 {
      var init := todo[..|todo| - 1];
      var p := todo[|todo| - 1];
      assert forall k :: 0 <= k < |init| ==> init[k] == todo[k];
      PassOnDistinctEntries(st, init, work, scan);
      assert p !in init;
      var r := RewritePass(st, todo, work, scan);
      forall k | 0 <= k < |todo|
        ensures r.htmls[todo[k]] == RewriteForHrefs(st.htmls[todo[k]], scan(st.htmls[todo[k]]), work)
      {
        if k < |init| {
          assert todo[k] == init[k] && todo[k] != p;
        }
      }
      RecordForHrefsAppend(st.log, ScannedLinks(st.htmls, init, scan), scan(st.htmls[p]), work);
    }
  }

  /** An entry none of whose scanned page links resolves within the working
      list keeps its html after the whole pass, however often it is listed:
      each visit rescans the same html and changes nothing. Chapters are
      entries like any other: one whose html yields no link is left as it is. */
  lemma {:induction false} UnresolvedEntryKeepsHtml(st: PassState, todo: seq<Entity>, work: seq<Entity>,
                                                   scan: string -> seq<string>, p: Entity)
    requires forall e :: e in todo ==> e in st.htmls
    requires p in st.htmls
    requires forall m :: 0 <= m < |scan(st.htmls[p])| && IsPageLink(scan(st.htmls[p])[m]) ==>
      MatchingIds(work, LastSegment(scan(st.htmls[p])[m])) == []
    ensures RewritePass(st, todo, work, scan).htmls[p] == st.htmls[p]
    decreases |todo|
  {
    if |todo| > 0 {
      var init := todo[..|todo| - 1];
      assert forall k :: 0 <= k < |init| ==> init[k] == todo[k];
      UnresolvedEntryKeepsHtml(st, init, work, scan, p);
      var before := RewritePass(st, init, work, scan);
      if todo[|todo| - 1] == p {
        UnresolvedLinksChangeNothing(before.htmls[p], before.log, scan(before.htmls[p]), work);
      }
    }
  }

  /** The html of every object of the working list, and the log. */
  datatype PassState = PassState(htmls: map<Entity, string>, log: map<string, string>)

  /** The state after the entries of todo have been handled in order: each
      entry's links are scanned from its html as it is when its turn comes,
      so an object listed twice is handled twice. */
  function RewritePass(st: PassState, todo: seq<Entity>, work: seq<Entity>, scan: string -> seq<string>): (r: PassState)
    requires forall e :: e in todo ==> e in st.htmls
    ensures r.htmls.Keys == st.htmls.Keys
    decreases |todo|
  {
    if |todo| == 0 then st
    else
      var before := RewritePass(st, todo[..|todo| - 1], work, scan);
      var page := todo[|todo| - 1];
      var snapshot := before.htmls[page];
      var matches := scan(snapshot);
      PassState(before.htmls[page := RewriteForHrefs(snapshot, matches, work)],
                RecordForHrefs(before.log, matches, work))
  }

  /** The html of each object of es. */
  function Htmls(es: seq<Entity>): map<Entity, string>
    reads es
  {
    map e | e in es :: e.html
  }

  /** The optional collection that records, per rewritten link, its anchor. */
  class ReplacementLog {
    var values: map<string, string>

    constructor (values: map<string, string>)
      ensures this.values == values
    {
      this.values := values;
    }
  }

  /** One link of page compared with every entry of the working list: each
      entry whose slug is the link's slug has the link replaced by its anchor
      in page's html and, when a log is given, recorded there. */
  method RewriteHref(page: Entity, match_: string, tempPages: seq<Entity>, replacedValues: ReplacementLog?)
    modifies page, replacedValues
    ensures page.html == RewriteForHref(old(page.html), match_, tempPages)
    ensures replacedValues != null ==>
      replacedValues.values == RecordForHref(old(replacedValues.values), match_, tempPages)
  {
    var lastPart := LastSegment(match_);
    var j := 0;
    while j < |tempPages|
      invariant 0 <= j <= |tempPages|
      invariant page.html == RewriteForHref(old(page.html), match_, tempPages[..j])
      invariant replacedValues != null ==>
        replacedValues.values == RecordForHref(old(replacedValues.values), match_, tempPages[..j])
    {
      var subPage := tempPages[j];
      assert tempPages[..j + 1][..j] == tempPages[..j];
      if subPage.slug == lastPart {
        var replaceString := Anchor(subPage.id);
        if replacedValues != null {
          replacedValues.values := replacedValues.values[match_ := replaceString];
        }
        page.html := StrReplace(match_, replaceString, page.html);
      }
      j := j + 1;
    }
    assert tempPages[..j] == tempPages;
  }

  /** Every link scanned from page's html as it is on entry, page links only,
      handled in scan order. */
  method RewriteEntry(page: Entity, tempPages: seq<Entity>, scan: string -> seq<string>, replacedValues: ReplacementLog?)
    modifies page, replacedValues
    ensures page.html == RewriteForHrefs(old(page.html), scan(old(page.html)), tempPages)
    ensures replacedValues != null ==>
      replacedValues.values == RecordForHrefs(old(replacedValues.values), scan(old(page.html)), tempPages)
  {
    var html := page.html;
    var matches := scan(html);
    var m := 0;
    while m < |matches|
      invariant 0 <= m <= |matches|
      invariant page.html == RewriteForHrefs(html, matches[..m], tempPages)
      invariant replacedValues != null ==>
        replacedValues.values == RecordForHrefs(old(replacedValues.values), matches[..m], tempPages)
    {
      var match_ := matches[m];
      assert matches[..m + 1][..m] == matches[..m];
      if IsPageLink(match_) {
        RewriteHref(page, match_, tempPages, replacedValues);
      }
      m := m + 1;
    }
    assert matches[..m] == matches;
  }

  /** Rewrites the page links of every entry of the working list in place. */
  method RewritePageLinks(tempPages: seq<Entity>, scan: string -> seq<string>, replacedValues: ReplacementLog?)
    modifies tempPages, replacedValues
    ensures
      var r := RewritePass(PassState(old(Htmls(tempPages)),
                                     if replacedValues == null then map[] else old(replacedValues.values)),
                           tempPages, tempPages, scan);
      (forall e :: e in tempPages ==> e.html == r.htmls[e]) &&
      (replacedValues != null ==> replacedValues.values == r.log)
  {
    ghost var st0 := PassState(Htmls(tempPages), if replacedValues == null then map[] else replacedValues.values);
    var i := 0;
    while i < |tempPages|
      invariant 0 <= i <= |tempPages|
      invariant forall e :: e in tempPages ==> e.html == RewritePass(st0, tempPages[..i], tempPages, scan).htmls[e]
      invariant replacedValues != null ==>
        replacedValues.values == RewritePass(st0, tempPages[..i], tempPages, scan).log
    {
      ghost var before := RewritePass(st0, tempPages[..i], tempPages, scan);
      var page := tempPages[i];
      RewriteEntry(page, tempPages, scan, replacedValues);
      assert tempPages[..i + 1][..i] == tempPages[..i];
      ghost var after := RewritePass(st0, tempPages[..i + 1], tempPages, scan);
      assert after.htmls == before.htmls[page := RewriteForHrefs(before.htmls[page], scan(before.htmls[page]), tempPages)];
      i := i + 1;
    }
    assert tempPages[..i] == tempPages;
  }

  /** The pages the expansion appends already exist. */
  lemma {:induction false} ChapterPagesAllocated(entries: seq<Entity>)
    ensures allocated(ChapterPages(entries))
    decreases |entries|
  {
    if |entries| > 0 {
      ChapterPagesAllocated(entries[..|entries| - 1]);
    }
  }

  /** replaceLinksToRelativePDFLinks($pages, $offset, $replacedValues), the
      unused offset left out: builds the working list and rewrites, in
      place, the page links of every entry that resolve within it. */
  method ReplaceLinksToRelativePdfLinks(pages: seq<Entity>,
                                        scan: string -> seq<string>, replacedValues: ReplacementLog?)
    modifies pages, ChapterPages(pages), replacedValues
    ensures
      var work := pages + ChapterPages(pages);
      var r := RewritePass(PassState(old(ChapterPagesAllocated(pages); Htmls(work)),
                                     if replacedValues == null then map[] else old(replacedValues.values)),
                           work, work, scan);
      (forall e :: e in work ==> e.html == r.htmls[e]) &&
      (replacedValues != null ==> replacedValues.values == r.log)
  {
    ChapterPagesAllocated(pages);
    var tempPages := Flatten(pages);
    RewritePageLinks(tempPages, scan, replacedValues);
  }
}
