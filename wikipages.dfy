/** The wiki helpers of the main package (wiki.go). `setAttributeValue`,
    `isUnsupportedLink`, `trimPageName` and `getWikiInformationByUrl` there
    are the same code as in the wikis package and are modelled once, in
    `Wikis`. What differs is the page-link builder, which takes the wiki's URL
    as an argument, the link rewriter, which sends a supported link to the
    visit handler through `serviceVisitUrl` and so panics on a link with an
    empty page name, and the reader of the wiki list, which decodes into a
    map of its own instead of merging into the package map. */
module WikiPages {
  import opened Wrappers
  import opened Bytes
  import opened Wikis
  import PageCipher
  import Handlers

  /** `readSupportedWikis` (wiki.go:275-299): `file` is what reading
      config/supported_wikis gave and `unmarshal` is JSON decoding into a
      fresh nil map, which the literal `null` leaves nil; every entry's `URL`
      becomes its key. `init` (wiki.go:23-35)
      makes an `Ok` result the package map and panics with an `Err`. */
  method ReadSupportedWikis(file: Result<seq<byte>>, unmarshal: JsonDecoder)
    returns (r: Result<map<string, Wiki>>)
    ensures file.Err? ==> r == Err(file.msg)
    ensures file.Ok? && unmarshal(file.value).Err? ==> r == Err(unmarshal(file.value).msg)
    ensures r.Ok? <==> file.Ok? && unmarshal(file.value).Ok?
    ensures r.Ok? && unmarshal(file.value).value.None? ==> r.value == map[]
    ensures r.Ok? && unmarshal(file.value).value.Some? ==>
      r.value.Keys == unmarshal(file.value).value.value.Keys
    ensures r.Ok? && unmarshal(file.value).value.Some? ==> forall url :: url in r.value ==>
      r.value[url] == unmarshal(file.value).value.value[url].(URL := url)
  {
    if file.Err? {
      return Err(file.msg);
    }
    var decoded := unmarshal(file.value);
    if decoded.Err? {
      return Err(decoded.msg);
    }
    var entries := if decoded.value.Some? then decoded.value.value else map[];
    var fixed := FixUrls(entries);
    return Ok(fixed);
  }

  /** `buildWikiPageLink` (wiki.go:55-57). */
  function BuildWikiPageLink(url: string, page: string): string
  {
    url + WikiPrefix + page
  }

  /** The link built for a page is the wiki's page link; after the URL it is
      a supported link exactly when the page name has no colon, and trimming
      it gives the page name back. */
  lemma PageLinkRoundTrip(w: Wiki, page: string)
    ensures BuildWikiPageLink(w.URL, page) == w.PageLink(page)
    ensures var path := BuildWikiPageLink(w.URL, page)[|w.URL|..];
      && (!IsUnsupportedLink(path) <==> ':' !in page)
      && TrimPageName(path) == Ok(page)
  {
    var path := BuildWikiPageLink(w.URL, page)[|w.URL|..];
    assert path == WikiPrefix + page;
    SupportedLinkShape(path);
    TrimPageNameInverts(path, page);
    if !IsUnsupportedLink(path) {
      var p :| path == WikiPrefix + p && ':' !in p;
      assert p == path[|WikiPrefix|..] == page;
    }
  }

  /** The attributes after `hrefRewriter` in `rewriteWikiUrls`, or the panic
      of `serviceVisitUrl`. */
  function VisitRewritten(c: PageCipher.Cipher, attrs: seq<Attribute>): Result<seq<Attribute>>
  {
    match Classify(attrs)
    case Keep => Ok(attrs)
    case Disable(link) => Ok(Disabled(attrs, link))
    case Redirect(page) =>
      match Handlers.ServiceVisitUrl(c, page)
      case Ok(url) => Ok(SetAttribute(attrs, "href", url))
      case Err(e) => Err(e)
  }

  /** `hrefRewriter` of `rewriteWikiUrls` (wiki.go:194-222) on one anchor; a
      panic leaves the anchor as it was. */
  method RewriteHref(c: PageCipher.Cipher, n: Node) returns (r: Result<()>)
    modifies n
    ensures r.Ok? ==> VisitRewritten(c, old(n.Attr)) == Ok(n.Attr)
    ensures r.Err? ==> VisitRewritten(c, old(n.Attr)) == Err(r.msg) && n.Attr == old(n.Attr)
  {
    var link := Lookup(n.Attr, "href");
    if link.None? {
      return Ok(());
    }
    if HasPrefix(link.value, "#") {
      return Ok(());
    }
    if IsUnsupportedLink(link.value) {
      DisableLink(n, "#" + link.value, Alert(link.value));
      return Ok(());
    }
    var page := TrimPageName(link.value);
    var url := Handlers.ServiceVisitUrl(c, page.value);
    if url.Err? {
      return Err(url.msg);
    }
    SetAttributeValue(n, "href", url.value);
    return Ok(());
  }

  /** The rewriter panics exactly on the bare link "/wiki/", whose page name
      is empty. */
  lemma PanicsOnBareLink(c: PageCipher.Cipher, attrs: seq<Attribute>)
    ensures VisitRewritten(c, attrs).Err? <==> Lookup(attrs, "href") == Some(WikiPrefix)
  {
    ClassifyCases(attrs);
    assert WikiPrefix == WikiPrefix + "";
    match Classify(attrs)
    case Keep =>
    case Disable(link) =>
    case Redirect(page) =>
      if page != "" {
        PageCipher.PageTokenOfPage(c, page);
      }
  }

  /** A supported link to a non-empty page is redirected to the visit
      handler, with a token that decrypts back to the page as its only
      href. */
  lemma RedirectCarriesPage(c: PageCipher.Cipher, attrs: seq<Attribute>, page: string)
    requires Unique(attrs, "href") && Classify(attrs) == Redirect(page)
    requires page != "" && IsByteString(page)
    ensures VisitRewritten(c, attrs).Ok?
    ensures exists token ::
      && Lookup(VisitRewritten(c, attrs).value, "href") == Some(Handlers.VisitPrefix + token)
      && PageCipher.PagePlain(c, token) == Ok(page)
  {
    Handlers.VisitUrlCarriesPage(c, page);
    var token :| Handlers.ServiceVisitUrl(c, page) == Ok(Handlers.VisitPrefix + token)
      && PageCipher.PagePlain(c, token) == Ok(page);
    SetHref(attrs, Handlers.VisitPrefix + token);
  }
}
