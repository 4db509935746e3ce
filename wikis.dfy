/** The link and attribute bookkeeping of the wikis package (wikis/wikis.go):
    a node's attribute list and how `setAttributeValue` edits it, the
    classification of links into kept, disabled and redirected ones, the
    `hrefRewriter` applied to every anchor of a wiki page, the page-link
    builder and the registry of supported wikis. Fetching and parsing HTML is
    outside the model: a node is only its attribute list. */
module Wikis {
  import opened Wrappers
  import opened Bytes

  /** An `html.Attribute`. */
  datatype Attribute = Attribute(Namespace: string, Key: string, Val: string)

  /** An `html.Node`, of which only the attribute list is modelled. */
  class Node {
    var Attr: seq<Attribute>

    constructor (attrs: seq<Attribute>)
      ensures Attr == attrs
    {
      Attr := attrs;
    }
  }

  const WikiPrefix := "/wiki/"

  /** The index of the first attribute with the key, or the length of the
      list when there is none. */
  function FirstKey(attrs: seq<Attribute>, key: string): (i: nat)
    ensures i <= |attrs|
    ensures i < |attrs| ==> attrs[i].Key == key
    ensures forall j :: 0 <= j < i ==> attrs[j].Key != key
  {
    if |attrs| == 0 then 0
    else if attrs[0].Key == key then 0
    else 1 + FirstKey(attrs[1..], key)
  }

  /** The first-match index is the only index before which no attribute has
      the key and at which one has it. */
  lemma FirstKeyIs(attrs: seq<Attribute>, key: string, i: nat)
    requires i <= |attrs|
    requires i < |attrs| ==> attrs[i].Key == key
    requires forall j :: 0 <= j < i ==> attrs[j].Key != key
    ensures FirstKey(attrs, key) == i
  {
  }

  predicate HasKey(attrs: seq<Attribute>, key: string)
  {
    FirstKey(attrs, key) < |attrs|
  }

  /** At most one attribute carries the key. */
  ghost predicate Unique(attrs: seq<Attribute>, key: string)
  {
    forall i, j :: 0 <= i < j < |attrs| && attrs[i].Key == key ==> attrs[j].Key != key
  }

  /** The value of the first attribute with the key, as `Selection.Attr`
      reads it for `link, ok := e.Attr("href")`. */
  function Lookup(attrs: seq<Attribute>, key: string): Option<string>
  {
    var i := FirstKey(attrs, key);
    if i < |attrs| then Some(attrs[i].Val) else None
  }

  /** A key reads nothing exactly when no attribute has it, and otherwise the
      value of an attribute with it before which none has it. */
  lemma LookupFindsFirst(attrs: seq<Attribute>, key: string)
    ensures Lookup(attrs, key).None? <==> forall a :: a in attrs ==> a.Key != key
    ensures Lookup(attrs, key).Some? ==> exists j ::
      && 0 <= j < |attrs| && attrs[j].Key == key && attrs[j].Val == Lookup(attrs, key).value
      && forall k :: 0 <= k < j ==> attrs[k].Key != key
  {
    var i := FirstKey(attrs, key);
    if i == |attrs| {
      forall a | a in attrs
        ensures a.Key != key
      {
        var k :| 0 <= k < |attrs| && attrs[k] == a;
      }
    }
  }

  /** The attribute list after `setAttributeValue(n, attrName, value)`: the
      first attribute with the key is cut out and an attribute keyed "href"
      (whatever `attrName` is) with the value is appended; with no such
      attribute, `(attrName, value)` is appended. */
  function SetAttribute(attrs: seq<Attribute>, attrName: string, value: string): seq<Attribute>
  {
    var i := FirstKey(attrs, attrName);
    if i < |attrs| then attrs[..i] + attrs[i + 1..] + [Attribute("", "href", value)]
    else attrs + [Attribute("", attrName, value)]
  }

  /** `setAttributeValue` (wikis/wikis.go:30-45), whose error result is always
      nil and is not modelled. */
  method SetAttributeValue(n: Node, attrName: string, value: string)
    modifies n
    ensures n.Attr == SetAttribute(old(n.Attr), attrName, value)
  {
    var i := 0;
    while i < |n.Attr|
      invariant 0 <= i <= |n.Attr|
      invariant n.Attr == old(n.Attr)
      invariant forall j :: 0 <= j < i ==> n.Attr[j].Key != attrName
    {
      if n.Attr[i].Key == attrName {
        FirstKeyIs(n.Attr, attrName, i);
        n.Attr := n.Attr[..i] + n.Attr[i + 1..];
        n.Attr := n.Attr + [Attribute("", "href", value)];
        return;
      }
      i := i + 1;
    }
    FirstKeyIs(n.Attr, attrName, |n.Attr|);
    n.Attr := n.Attr + [Attribute("", attrName, value)];
  }

  /** An absent key is appended under its own name after the unchanged
      earlier attributes. */
  lemma SetAbsentAppends(attrs: seq<Attribute>, attrName: string, value: string)
    requires forall a :: a in attrs ==> a.Key != attrName
    ensures SetAttribute(attrs, attrName, value) == attrs + [Attribute("", attrName, value)]
    ensures |SetAttribute(attrs, attrName, value)| == |attrs| + 1
  {
    FirstKeyIs(attrs, attrName, |attrs|);
  }

  /** A present key: its first occurrence is removed, the others stay in
      order, and an attribute keyed "href" is appended, so the length is
      unchanged. */
  lemma SetPresentReplaces(attrs: seq<Attribute>, attrName: string, value: string)
    requires exists a :: a in attrs && a.Key == attrName
    ensures exists i ::
      && 0 <= i < |attrs| && attrs[i].Key == attrName
      && (forall j :: 0 <= j < i ==> attrs[j].Key != attrName)
      && SetAttribute(attrs, attrName, value) == attrs[..i] + attrs[i + 1..] + [Attribute("", "href", value)]
    ensures |SetAttribute(attrs, attrName, value)| == |attrs|
  {
    LookupFindsFirst(attrs, attrName);
  }

  /** Appending after a present key does not change what the key reads;
      appending to a list without the key makes it read the new value. */
  lemma LookupAppend(attrs: seq<Attribute>, x: Attribute, key: string)
    ensures Lookup(attrs, key).Some? ==> Lookup(attrs + [x], key) == Lookup(attrs, key)
    ensures Lookup(attrs, key).None? ==>
      Lookup(attrs + [x], key) == if x.Key == key then Some(x.Val) else None
  {
    var s := attrs + [x];
    var i := FirstKey(attrs, key);
    assert forall j :: 0 <= j < |attrs| ==> s[j] == attrs[j];
    if i < |attrs| || x.Key == key {
      FirstKeyIs(s, key, i);
    } else {
      FirstKeyIs(s, key, |s|);
    }
  }

  /** Cutting out an attribute with another key does not change what the key
      reads. */
  lemma LookupRemove(attrs: seq<Attribute>, j: nat, key: string)
    requires j < |attrs| && attrs[j].Key != key
    ensures Lookup(attrs[..j] + attrs[j + 1..], key) == Lookup(attrs, key)
  {
    var s := attrs[..j] + attrs[j + 1..];
    var m := FirstKey(attrs, key);
    assert forall k :: 0 <= k < j ==> s[k] == attrs[k];
    assert forall k :: j <= k < |s| ==> s[k] == attrs[k + 1];
    if m < j {
      FirstKeyIs(s, key, m);
    } else {
      FirstKeyIs(s, key, m - 1);
    }
  }

  /** Setting another key leaves a present key's value as it was; a key other
      than "href" is never disturbed. */
  lemma SetOtherKey(attrs: seq<Attribute>, attrName: string, value: string, key: string)
    requires attrName != key
    requires Lookup(attrs, key).Some? || key != "href"
    ensures Lookup(SetAttribute(attrs, attrName, value), key) == Lookup(attrs, key)
  {
    var i := FirstKey(attrs, attrName);
    if i < |attrs| {
      var s := attrs[..i] + attrs[i + 1..];
      LookupRemove(attrs, i, key);
      LookupAppend(s, Attribute("", "href", value), key);
    } else {
      LookupAppend(attrs, Attribute("", attrName, value), key);
    }
  }

  /** Setting "href" on a list with at most one href makes it read the new
      value, and keeps at most one href. */
  lemma SetHref(attrs: seq<Attribute>, value: string)
    requires Unique(attrs, "href")
    ensures Lookup(SetAttribute(attrs, "href", value), "href") == Some(value)
    ensures Unique(SetAttribute(attrs, "href", value), "href")
  {
    var r := SetAttribute(attrs, "href", value);
    var i := FirstKey(attrs, "href");
    if i < |attrs| {
      var s := attrs[..i] + attrs[i + 1..];
      assert forall k :: 0 <= k < i ==> s[k] == attrs[k];
      assert forall k :: i <= k < |s| ==> s[k] == attrs[k + 1];
      assert forall k :: 0 <= k < |s| ==> r[k] == s[k];
      FirstKeyIs(r, "href", |s|);
    } else {
      assert forall k :: 0 <= k < |attrs| ==> r[k] == attrs[k];
      FirstKeyIs(r, "href", |attrs|);
    }
  }

  /** Because the replacement is always keyed "href", setting any other
      present key, when it is the only one with that key, makes the key
      disappear. */
  lemma SetOtherPresentDropsKey(attrs: seq<Attribute>, attrName: string, value: string)
    requires attrName != "href" && HasKey(attrs, attrName) && Unique(attrs, attrName)
    ensures Lookup(SetAttribute(attrs, attrName, value), attrName) == None
  {
    var i := FirstKey(attrs, attrName);
    var r := SetAttribute(attrs, attrName, value);
    forall k | 0 <= k < |r|
      ensures r[k].Key != attrName
    {
      if k < i {
        assert r[k] == attrs[k];
      } else if k < |attrs| - 1 {
        assert r[k] == attrs[k + 1];
      }
    }
    LookupFindsFirst(r, attrName);
  }

  function HasPrefix(s: string, prefix: string): bool
  {
    |prefix| <= |s| && s[..|prefix|] == prefix
  }

  /** `isUnsupportedLink` (wikis/wikis.go:140-142). */
  function IsUnsupportedLink(link: string): bool
  {
    !HasPrefix(link, WikiPrefix) || ':' in link
  }

  /** A supported link is exactly "/wiki/" followed by a page name without a
      colon. */
  lemma SupportedLinkShape(link: string)
    ensures !IsUnsupportedLink(link) <==> exists page :: link == WikiPrefix + page && ':' !in page
  {
    if !IsUnsupportedLink(link) {
      var page := link[|WikiPrefix|..];
      assert link == WikiPrefix + page;
    }
    forall page | link == WikiPrefix + page && ':' !in page
      ensures !IsUnsupportedLink(link)
    {
      assert link[..|WikiPrefix|] == WikiPrefix;
      assert forall k :: 0 <= k < |link| ==> link[k] == if k < |WikiPrefix| then WikiPrefix[k] else page[k - |WikiPrefix|];
    }
  }

  /** `trimPageName` (wikis/wikis.go:257-259): cuts the first six characters
      without looking at them; a shorter path is out of the slice bounds. */
  function TrimPageName(path: string): (r: Result<string>)
  {
    if |path| < |WikiPrefix| then Err("slice bounds out of range")
    else Ok(path[|WikiPrefix|..])
  }

  /** Trimming inverts prefixing with "/wiki/", fails exactly on paths shorter
      than the prefix, and otherwise loses exactly six characters. */
  lemma TrimPageNameInverts(path: string, page: string)
    ensures TrimPageName(WikiPrefix + page) == Ok(page)
    ensures TrimPageName(path).Err? <==> |path| < |WikiPrefix|
    ensures TrimPageName(path).Ok? ==> path == path[..|WikiPrefix|] + TrimPageName(path).value
  {
    assert (WikiPrefix + page)[|WikiPrefix|..] == page;
  }

  const AlertPrefix := "javascript: alert('This link is not supported by wikiracer, thus it was disabled. " +
    "If you feel this is an error, contact us. The original target was: "

  /** The text of the alert a disabled link shows. */
  function Alert(link: string): string
  {
    AlertPrefix + link + "');"
  }

  const GrayStyle := Attribute("", "style", "color: gray;")

  /** What `hrefRewriter` does with an anchor. */
  datatype Action = Keep | Disable(link: string) | Redirect(page: string)

  function Classify(attrs: seq<Attribute>): Action
  {
    match Lookup(attrs, "href")
    case None => Keep
    case Some(link) =>
      if HasPrefix(link, "#") then Keep
      else if IsUnsupportedLink(link) then Disable(link)
      else Redirect(link[|WikiPrefix|..])
  }

  /** Anchors without an href and same-page fragments are kept; an
      unsupported href is disabled; a supported href "/wiki/<page>" is
      redirected to its page. */
  lemma ClassifyCases(attrs: seq<Attribute>)
    ensures Classify(attrs) == Keep <==>
      Lookup(attrs, "href").None? || HasPrefix(Lookup(attrs, "href").value, "#")
    ensures forall link :: Classify(attrs) == Disable(link) <==>
      Lookup(attrs, "href") == Some(link) && !HasPrefix(link, "#") && IsUnsupportedLink(link)
    ensures forall page :: Classify(attrs) == Redirect(page) <==>
      Lookup(attrs, "href") == Some(WikiPrefix + page) && ':' !in page
  {
    forall page
      ensures Classify(attrs) == Redirect(page) <==>
        Lookup(attrs, "href") == Some(WikiPrefix + page) && ':' !in page
    {
      var link := WikiPrefix + page;
      assert link[|WikiPrefix|..] == page;
      assert link[0] == '/';
      SupportedLinkShape(link);
      if Lookup(attrs, "href").Some? {
        SupportedLinkShape(Lookup(attrs, "href").value);
      }
    }
  }

  /** The attributes of a disabled link: a gray style is appended, the href
      is turned into a fragment and the alert is set as `onClick`. */
  function Disabled(attrs: seq<Attribute>, link: string): seq<Attribute>
  {
    DisableWith(attrs, "#" + link, Alert(link))
  }

  function Rewritten(attrs: seq<Attribute>, t: string -> string): seq<Attribute>
  {
    match Classify(attrs)
    case Keep => attrs
    case Disable(link) => Disabled(attrs, link)
    case Redirect(page) => SetAttribute(attrs, "href", t(page))
  }

  /** The edits that disable an unsupported link (wikis/wikis.go:223-228):
      the gray style, then the href, then the alert. */
  method DisableLink(n: Node, href: string, alert: string)
    modifies n
    ensures n.Attr == DisableWith(old(n.Attr), href, alert)
  {
    n.Attr := n.Attr + [GrayStyle];
    SetAttributeValue(n, "href", href);
    SetAttributeValue(n, "onClick", alert);
  }

  /** `TranslatorFunc` (wikis/wikis.go:204) turns a page name into the link
      the page is served under. `hrefRewriter` (wikis/wikis.go:207-235) on
      one anchor. */
  method RewriteHref(n: Node, t: string -> string)
    modifies n
    ensures n.Attr == Rewritten(old(n.Attr), t)
  {
    var link := Lookup(n.Attr, "href");
    if link.None? {
      return;
    }
    if HasPrefix(link.value, "#") {
      return;
    }
    if IsUnsupportedLink(link.value) {
      DisableLink(n, "#" + link.value, Alert(link.value));
      return;
    }
    var page := TrimPageName(link.value);
    SetAttributeValue(n, "href", t(page.value));
  }

  /** A redirected anchor with a single href reads the translated page as its
      href afterwards and keeps its length. */
  lemma RedirectedHref(attrs: seq<Attribute>, t: string -> string, page: string)
    requires Unique(attrs, "href") && Classify(attrs) == Redirect(page)
    ensures Lookup(Rewritten(attrs, t), "href") == Some(t(page))
    ensures |Rewritten(attrs, t)| == |attrs|
  {
    SetHref(attrs, t(page));
    SetPresentReplaces(attrs, "href", t(page));
  }

  /** A disabled anchor with a single href reads "#" + link as its href and
      is gray. */
  lemma DisabledHref(attrs: seq<Attribute>, link: string)
    requires Unique(attrs, "href") && Classify(attrs) == Disable(link)
    ensures Lookup(Disabled(attrs, link), "href") == Some("#" + link)
    ensures GrayStyle in Disabled(attrs, link)
  {
    DisableHasHref(attrs, link);
    DisableWithKeepsHref(attrs, "#" + link, Alert(link));
  }

  /** A disabled anchor carries the alert as `onClick` when it had none; an
      `onClick` it had is lost, since the replacement is keyed "href". */
  lemma DisabledOnClick(attrs: seq<Attribute>, link: string)
    requires Classify(attrs) == Disable(link)
    ensures !HasKey(attrs, "onClick") ==> Lookup(Disabled(attrs, link), "onClick") == Some(Alert(link))
    ensures HasKey(attrs, "onClick") && Unique(attrs, "onClick") ==> Lookup(Disabled(attrs, link), "onClick") == None
  {
    DisableHasHref(attrs, link);
    DisableWithOnClick(attrs, "#" + link, Alert(link));
  }

  /** Only an anchor with an href is disabled. */
  lemma DisableHasHref(attrs: seq<Attribute>, link: string)
    requires Classify(attrs) == Disable(link)
    ensures HasKey(attrs, "href")
  {
  }

  /** `Disabled` for any href and alert text. */
  function DisableWith(attrs: seq<Attribute>, href: string, alert: string): seq<Attribute>
  {
    SetAttribute(SetAttribute(attrs + [GrayStyle], "href", href), "onClick", alert)
  }

  /** The href and gray style of a disabled anchor. */
  lemma DisableWithKeepsHref(attrs: seq<Attribute>, href: string, alert: string)
    requires Unique(attrs, "href") && HasKey(attrs, "href")
    ensures Lookup(DisableWith(attrs, href, alert), "href") == Some(href)
    ensures GrayStyle in DisableWith(attrs, href, alert)
  {
    var s1 := attrs + [GrayStyle];
    assert forall k :: 0 <= k < |attrs| ==> s1[k] == attrs[k];
    assert Unique(s1, "href");
    var s2 := SetAttribute(s1, "href", href);
    SetHref(s1, href);
    SetOtherKey(s2, "onClick", alert, "href");
    KeepsOtherAttribute(s1, "href", href, GrayStyle);
    KeepsOtherAttribute(s2, "onClick", alert, GrayStyle);
  }

  /** The `onClick` of a disabled anchor. */
  lemma DisableWithOnClick(attrs: seq<Attribute>, href: string, alert: string)
    requires HasKey(attrs, "href")
    ensures !HasKey(attrs, "onClick") ==> Lookup(DisableWith(attrs, href, alert), "onClick") == Some(alert)
    ensures HasKey(attrs, "onClick") && Unique(attrs, "onClick") ==>
      Lookup(DisableWith(attrs, href, alert), "onClick") == None
  {
    var s1 := attrs + [GrayStyle];
    var s2 := SetAttribute(s1, "href", href);
    // `onClick` before the edits is `onClick` of the list the second edit sees.
    LookupAppend(attrs, GrayStyle, "onClick");
    SetOtherKey(s1, "href", href, "onClick");
    if !HasKey(attrs, "onClick") {
      FirstKeyIs(s2, "onClick", |s2|);
      LookupAppend(s2, Attribute("", "onClick", alert), "onClick");
    } else if Unique(attrs, "onClick") {
      UniqueAfterSet(attrs, s1, s2, href);
      SetOtherPresentDropsKey(s2, "onClick", alert);
    }
  }

  /** Each `SetAttribute` keeps every attribute whose key is not the one
      being set. */
  lemma KeepsOtherAttribute(attrs: seq<Attribute>, attrName: string, value: string, a: Attribute)
    requires a in attrs && a.Key != attrName
    ensures a in SetAttribute(attrs, attrName, value)
  {
    var i := FirstKey(attrs, attrName);
    var k :| 0 <= k < |attrs| && attrs[k] == a;
    if i < |attrs| {
      var s := attrs[..i] + attrs[i + 1..];
      if k < i {
        assert s[k] == a;
      } else {
        assert s[k - 1] == a;
      }
    }
  }

  /** A single `onClick` stays single through the gray style and the href
      edit. */
  lemma UniqueAfterSet(attrs: seq<Attribute>, s1: seq<Attribute>, s2: seq<Attribute>, href: string)
    requires Unique(attrs, "onClick") && HasKey(attrs, "href")
    requires s1 == attrs + [GrayStyle] && s2 == SetAttribute(s1, "href", href)
    ensures Unique(s2, "onClick")
  {
    UniqueAppend(attrs, GrayStyle, "onClick");
    assert forall k :: 0 <= k < |attrs| ==> s1[k] == attrs[k];
    FirstKeyIs(s1, "href", FirstKey(attrs, "href"));
    UniqueRemoveAppend(s1, FirstKey(s1, "href"), Attribute("", "href", href), "onClick");
  }

  lemma UniqueAppend(attrs: seq<Attribute>, x: Attribute, key: string)
    requires Unique(attrs, key) && x.Key != key
    ensures Unique(attrs + [x], key)
  {
    var r := attrs + [x];
    assert forall k :: 0 <= k < |attrs| ==> r[k] == attrs[k];
  }

  lemma UniqueRemoveAppend(attrs: seq<Attribute>, i: nat, x: Attribute, key: string)
    requires Unique(attrs, key) && i < |attrs| && x.Key != key
    ensures Unique(attrs[..i] + attrs[i + 1..] + [x], key)
  {
    var s := attrs[..i] + attrs[i + 1..];
    assert forall k :: 0 <= k < i ==> s[k] == attrs[k];
    assert forall k :: i <= k < |s| ==> s[k] == attrs[k + 1];
    assert Unique(s, key);
    UniqueAppend(s, x, key);
  }

  /** An entry of the supported-wikis file. */
  datatype Wiki = Wiki(Name: string, URL: string, RandomPage: string, BodySelector: string)
  {
    /** `PageLink` (wikis/wikis.go:54-56). */
    function PageLink(page: string): string
    {
      URL + WikiPrefix + page
    }
  }

  const ZeroWiki := Wiki("", "", "", "")

  /** The fix-up loop of `ReadSupportedWikis` (wikis/wikis.go:276-280): every
      entry's `URL` becomes its key. */
  method FixUrls(wikis: map<string, Wiki>) returns (fixed: map<string, Wiki>)
    ensures fixed.Keys == wikis.Keys
    ensures forall url :: url in fixed ==> fixed[url] == wikis[url].(URL := url)
  {
    fixed := wikis;
    var rest := wikis.Keys;
    while rest != {}
      invariant rest <= wikis.Keys && fixed.Keys == wikis.Keys
      invariant forall url :: url in rest ==> fixed[url] == wikis[url]
      invariant forall url :: url in wikis && url !in rest ==> fixed[url] == wikis[url].(URL := url)
      decreases rest
    {
      var url :| url in rest;
      var w := fixed[url];
      w := w.(URL := url);
      fixed := fixed[url := w];
      rest := rest - {url};
    }
  }

  /** JSON decoding of the supported-wikis file into a map: `Ok(None)` for
      the literal `null`, `Ok(Some(entries))` for an object, `Err` for
      anything else. */
  type JsonDecoder = seq<byte> -> Result<Option<map<string, Wiki>>>

  /** The package-level map of supported wikis, keyed by URL. */
  class Registry {
    var wikis: map<string, Wiki>

    /** The map starts out nil. */
    constructor ()
      ensures wikis == map[]
    {
      wikis := map[];
    }

    /** Every entry knows its own URL. */
    ghost predicate Valid()
      reads this
    {
      forall url :: url in wikis ==> wikis[url].URL == url
    }

    /** `ReadSupportedWikis` (wikis/wikis.go:261-283). `file` is what reading
        the file gave; `unmarshal` is JSON decoding into the package map: the
        literal `null` sets the map to nil, and an object's entries replace
        those of the same key. */
    method ReadSupportedWikis(file: Result<seq<byte>>, unmarshal: JsonDecoder)
      returns (r: Result<map<string, Wiki>>)
      modifies this
      ensures file.Err? ==> r == Err(file.msg) && wikis == old(wikis)
      ensures file.Ok? && unmarshal(file.value).Err? ==> r == Err(unmarshal(file.value).msg) && wikis == old(wikis)
      ensures r.Ok? <==> file.Ok? && unmarshal(file.value).Ok?
      ensures r.Ok? ==> r == Ok(wikis)
      ensures r.Ok? && unmarshal(file.value).value.None? ==> wikis == map[]
      ensures r.Ok? && unmarshal(file.value).value.Some? ==>
        wikis.Keys == old(wikis).Keys + unmarshal(file.value).value.value.Keys
      ensures r.Ok? && unmarshal(file.value).value.Some? ==> forall url :: url in wikis ==>
        wikis[url] == (old(wikis) + unmarshal(file.value).value.value)[url].(URL := url)
      ensures r.Ok? || old(Valid()) ==> Valid()
    {
      if file.Err? {
        return Err(file.msg);
      }
      var decoded := unmarshal(file.value);
      if decoded.Err? {
        return Err(decoded.msg);
      }
      match decoded.value {
        case None => wikis := map[];
        case Some(entries) => wikis := wikis + entries;
      }
      wikis := FixUrls(wikis);
      return Ok(wikis);
    }

    /** `ByURL` (wikis/wikis.go:289-292): an unknown URL gives the zero wiki. */
    function ByURL(url: string): (w: Wiki)
      reads this
    {
      if url in wikis then wikis[url] else ZeroWiki
    }

    /** In a valid registry a known wiki's page links are its URL, "/wiki/"
        and the page, so trimming the part after the URL gives the page
        back; an unknown URL gives a wiki with no URL and no body selector. */
    lemma ByURLPageLink(url: string, page: string)
      requires Valid()
      ensures url in wikis ==> ByURL(url).URL == url && ByURL(url).PageLink(page) == url + WikiPrefix + page
      ensures url in wikis ==> TrimPageName(ByURL(url).PageLink(page)[|url|..]) == Ok(page)
      ensures url !in wikis ==> ByURL(url).URL == "" && ByURL(url).BodySelector == ""
    {
      if url in wikis {
        var link := ByURL(url).PageLink(page);
        assert link[|url|..] == WikiPrefix + page;
        TrimPageNameInverts(link, page);
      }
    }
  }
}
