/**
 * The background service worker: the message dispatch that answers the
 * popup and the page agent, the cookie and tab queries behind it, and the
 * two utility functions `formatCookieString` and `isValidDomain`.
 * Nothing here keeps state between messages.
 */
module Background {
  import opened Text
  import opened Browser
  import PanelRules

  const CopyElsewhereText := "请在popup中进行复制操作"
  const NoTabText := "无法获取当前标签页信息"
  const UnknownMessageText := "未知的消息类型"
  const ExternalText := "不支持外部消息"

  /** A message: its `action` and the optional fields the handlers read. */
  datatype Request = Request(
    action: string,
    domain: Option<string>,
    url: Option<string>,
    text: Option<string>)

  /** The `tab` object of a `getTabInfo` answer. */
  datatype TabInfo = TabInfo(
    id: int,
    url: Option<string>,
    title: Option<string>,
    domain: string,
    protocol: string)

  /**
   * The `error` of a failed answer: one of the worker's own texts, or the
   * `message` of an exception thrown by a browser call.
   */
  datatype Error = Says(text: string) | ExceptionMessage

  /** The object passed to `sendResponse`. */
  datatype Response =
    | GotCookies(cookies: seq<Cookie>, count: nat)
    | GotTab(tab: TabInfo)
    | Failed(error: Error)
  {
    /** The `success` field. */
    predicate Success() {
      !Failed?
    }
  }

  /**
   * What the `onMessage` listener does with one message: whether it returns
   * `true` (the channel stays open for an answer sent later) and the answer.
   */
  datatype Handled = Handled(keepOpen: bool, response: Response)

  /**
   * The filter `handleGetCookies` queries with: a truthy `domain` first, then
   * a truthy `url`, then the url of the active tab; None when there is none
   * of them, and then the store is not asked at all.
   */
  function FilterFor(request: Request, host: Host): (r: Option<Filter>)
    ensures r.Some? && r.value.ByDomain? <==> Truthy(request.domain)
    ensures r.Some? && r.value.ByDomain? ==> r.value.domain == request.domain.value
    ensures r.Some? && r.value.ByUrl? ==> r.value.url != ""
    ensures r.Some? && r.value.ByUrl? && Truthy(request.url) ==> r.value.url == request.url.value
    ensures !Truthy(request.domain) && Truthy(request.url) ==> r == Some(ByUrl(request.url.value))
    ensures (!Truthy(request.domain) && !Truthy(request.url)
             && host.activeTab.Some? && Truthy(host.activeTab.value.url)) ==>
      r == Some(ByUrl(host.activeTab.value.url.value))
    ensures r.None? <==>
      !Truthy(request.domain) && !Truthy(request.url)
      && !(host.activeTab.Some? && Truthy(host.activeTab.value.url))
  {
    if Truthy(request.domain) then Some(ByDomain(request.domain.value))
    else if Truthy(request.url) then Some(ByUrl(request.url.value))
    else if host.activeTab.Some? && Truthy(host.activeTab.value.url) then
      Some(ByUrl(host.activeTab.value.url.value))
    else None
  }

  /** A field looked at earlier decides alone: the later ones are never consulted. */
  lemma FilterPrecedence(request: Request, host: Host, url: Option<string>, other: Host)
    ensures Truthy(request.domain) ==>
      FilterFor(request.(url := url), other) == FilterFor(request, host)
    ensures Truthy(request.url) ==>
      FilterFor(request, other) == FilterFor(request, host)
    ensures !Truthy(request.domain) && !Truthy(request.url) && other.activeTab == host.activeTab ==>
      FilterFor(request, other) == FilterFor(request, host)
  {
  }

  /**
   * `handleGetCookies`: the store's cookies for the chosen filter, with
   * their number; an empty success when there is nothing to query; the
   * exception's message when the store's call rejects.
   */
  function HandleGetCookies(request: Request, host: Host): (r: Response)
    ensures r.GotCookies? || r.Failed?
    ensures r.GotCookies? ==> r.count == |r.cookies|
    ensures FilterFor(request, host).None? ==> r == GotCookies([], 0)
    ensures FilterFor(request, host).Some? ==>
      match host.getAll(FilterFor(request, host).value)
      case None => r == Failed(ExceptionMessage)
      case Some(cs) => r.GotCookies? && r.cookies == cs
  {
    match FilterFor(request, host)
    case None => GotCookies([], 0)
    case Some(filter) =>
      match host.getAll(filter)
      case None => Failed(ExceptionMessage)
      case Some(cs) => GotCookies(cs, |cs|)
  }

  /** Without a domain, a url or a tab url the answer is an empty success, whatever the store holds. */
  lemma NoTargetEmpty(request: Request, host: Host)
    requires !Truthy(request.domain) && !Truthy(request.url)
    requires host.activeTab.None? || !Truthy(host.activeTab.value.url)
    ensures HandleGetCookies(request, host).Success()
    ensures HandleGetCookies(request, host).cookies == []
  {
  }

  /** `handleCopyToClipboard`: the worker cannot reach the clipboard, so it always refuses. */
  function HandleCopyToClipboard(request: Request): (r: Response)
    ensures !r.Success()
    ensures r.error == Says(CopyElsewhereText)
  {
    Failed(Says(CopyElsewhereText))
  }

  /**
   * `handleGetTabInfo`: the active tab's id, url and title with the host name
   * and protocol of its parsed url; a failure when there is no tab or when
   * its url does not parse.
   */
  function HandleGetTabInfo(host: Host): (r: Response)
    ensures r.GotTab? || r.Failed?
    ensures host.activeTab.None? ==> r == Failed(Says(NoTabText))
    ensures host.activeTab.Some? && ParseTabUrl(host, host.activeTab.value).None? ==> r == Failed(ExceptionMessage)
    ensures r.Success() <==> host.activeTab.Some? && ParseTabUrl(host, host.activeTab.value).Some?
    ensures r.Success() ==>
      var tab := host.activeTab.value;
      var parts := ParseTabUrl(host, tab).value;
      && r.tab.id == tab.id && r.tab.url == tab.url && r.tab.title == tab.title
      && r.tab.domain == parts.hostname && r.tab.protocol == parts.protocol
  {
    match host.activeTab
    case None => Failed(Says(NoTabText))
    case Some(tab) =>
      match ParseTabUrl(host, tab)
      case None => Failed(ExceptionMessage)
      case Some(parts) => GotTab(TabInfo(tab.id, tab.url, tab.title, parts.hostname, parts.protocol))
  }

  /** The actions the worker answers asynchronously. */
  predicate Known(action: string) {
    action == "getCookies" || action == "copyToClipboard" || action == "getTabInfo"
  }

  /**
   * The `onMessage` listener: a known action keeps the channel open and is
   * answered by its handler; any other is refused at once.
   */
  function OnMessage(request: Request, host: Host): (r: Handled)
    ensures r.keepOpen <==> Known(request.action)
    ensures !r.keepOpen ==> r.response == Failed(Says(UnknownMessageText))
    ensures r.response.Success() ==> request.action == "getCookies" || request.action == "getTabInfo"
    ensures request.action == "getCookies" ==> r.response == HandleGetCookies(request, host)
    ensures request.action == "copyToClipboard" ==> r.response == HandleCopyToClipboard(request)
    ensures request.action == "getTabInfo" ==> r.response == HandleGetTabInfo(host)
  {
    if request.action == "getCookies" then Handled(true, HandleGetCookies(request, host))
    else if request.action == "copyToClipboard" then Handled(true, HandleCopyToClipboard(request))
    else if request.action == "getTabInfo" then Handled(true, HandleGetTabInfo(host))
    else Handled(false, Failed(Says(UnknownMessageText)))
  }

  /** A successful `getCookies` answer always counts exactly the cookies it carries. */
  lemma CookieCountMatches(request: Request, host: Host)
    requires request.action == "getCookies"
    ensures OnMessage(request, host).response.Success() ==>
      OnMessage(request, host).response.count == |OnMessage(request, host).response.cookies|
  {
  }

  /** The `onMessageExternal` listener: other extensions are always refused. */
  function OnMessageExternal(request: Request): (r: Response)
    ensures !r.Success()
    ensures r.error == Says(ExternalText)
  {
    Failed(Says(ExternalText))
  }

  /** `formatCookieString`: each cookie as `name=value`, joined by `"; "`. */
  function FormatCookieString(cookies: seq<Cookie>): string {
    if |cookies| == 0 then ""
    else if |cookies| == 1 then cookies[0].name + "=" + cookies[0].value
    else cookies[0].name + "=" + cookies[0].value + "; " + FormatCookieString(cookies[1..])
  }

  /** The worker's formatter and the popup's produce the same text for every list. */
  lemma {:induction false} FormatCookieStringAgrees(cookies: seq<Cookie>)
    ensures FormatCookieString(cookies) == PanelRules.FormatCookiesAsString(cookies)
  {
    if |cookies| > 1 {
      FormatCookieStringAgrees(cookies[1..]);
      assert PanelRules.Pairs(cookies)[1..] == PanelRules.Pairs(cookies[1..]);
    }
  }

  // isValidDomain: the regular expression L(\.L)* anchored at both ends,
  // where L is one alphanumeric character optionally followed by at most
  // 61 letters, digits or hyphens and one more alphanumeric character.

  predicate AlNum(c: char) {
    'a' <= c <= 'z' || 'A' <= c <= 'Z' || '0' <= c <= '9'
  }

  predicate LabelChar(c: char) {
    AlNum(c) || c == '-'
  }

  /** The pattern L: `[a-zA-Z0-9]([a-zA-Z0-9\-]{0,61}[a-zA-Z0-9])?`. */
  predicate MatchesLabel(s: string) {
    || (|s| == 1 && AlNum(s[0]))
    || (2 <= |s| <= 63 && AlNum(s[0]) && AlNum(s[|s| - 1])
        && forall i :: 1 <= i < |s| - 1 ==> LabelChar(s[i]))
  }

  /** The pattern L(\.L)*, tried at every split point of its first label. */
  predicate MatchesLabels(s: string)
    decreases |s|, 1
  {
    exists k :: 0 < k <= |s| && MatchesLabel(s[..k]) && MatchesMoreLabels(s[k..])
  }

  /** The pattern (\.L)*. */
  predicate MatchesMoreLabels(t: string)
    decreases |t|, 0
  {
    t == "" || (t[0] == '.' && MatchesLabels(t[1..]))
  }

  /** `isValidDomain`: the whole input matches the pattern. */
  predicate IsValidDomain(domain: string) {
    MatchesLabels(domain)
  }

  /** A DNS label: 1 to 63 letters, digits and hyphens, with no hyphen at either end. */
  predicate LabelRule(p: string) {
    && 1 <= |p| <= 63
    && (forall i :: 0 <= i < |p| ==> LabelChar(p[i]))
    && p[0] != '-' && p[|p| - 1] != '-'
  }

  /** Every `.`-separated piece of `s` is a DNS label. */
  predicate AllLabels(s: string) {
    forall i :: 0 <= i < |Split(s, '.')| ==> LabelRule(Split(s, '.')[i])
  }

  lemma LabelPattern(p: string)
    ensures MatchesLabel(p) <==> LabelRule(p)
  {
  }

  /** Whatever the pattern accepts splits into DNS labels. */
  lemma {:induction false} LabelsSound(s: string)
    requires MatchesLabels(s)
    ensures AllLabels(s)
    decreases |s|
  {
    var parts := Split(s, '.');
    var k :| 0 < k <= |s| && MatchesLabel(s[..k]) && MatchesMoreLabels(s[k..]);
    LabelPattern(s[..k]);
    assert '.' !in s[..k];
    SplitAt(s, '.', k);
    if k == |s| {
      assert s[..k] == s;
    } else {
      var rest := Split(s[k + 1..], '.');
      assert s[k..][1..] == s[k + 1..];
      LabelsSound(s[k + 1..]);
      assert parts == [s[..k]] + rest;
      forall i | 0 <= i < |parts| ensures LabelRule(parts[i]) {
        if i > 0 {
          assert parts[i] == rest[i - 1];
        }
      }
    }
  }

  /** Whatever splits into DNS labels the pattern accepts. */
  lemma {:induction false} LabelsComplete(s: string)
    requires AllLabels(s)
    ensures MatchesLabels(s)
    decreases |s|
  {
    var parts := Split(s, '.');
    SplitFirst(s, '.');
    var k := |parts[0]|;
    assert LabelRule(parts[0]);
    LabelPattern(parts[0]);
    assert s[..k] == parts[0];
    if k < |s| {
      var rest := Split(s[k + 1..], '.');
      assert rest == parts[1..];
      forall i | 0 <= i < |rest| ensures LabelRule(rest[i]) {
        assert rest[i] == parts[i + 1];
      }
      LabelsComplete(s[k + 1..]);
      assert s[k..][1..] == s[k + 1..];
      assert MatchesMoreLabels(s[k..]);
    } else {
      assert s[k..] == "";
    }
    assert MatchesLabel(s[..k]) && MatchesMoreLabels(s[k..]);
  }

  /** `isValidDomain` accepts exactly a non-empty `.`-separated sequence of DNS labels. */
  lemma ValidDomainGrammar(domain: string)
    ensures IsValidDomain(domain) <==> AllLabels(domain)
  {
    if IsValidDomain(domain) {
      LabelsSound(domain);
    }
    if AllLabels(domain) {
      LabelsComplete(domain);
    }
  }

  /**
   * An accepted name starts and ends with a letter or digit and has no two
   * neighbouring dots: the empty string, a leading or trailing dot and an
   * empty label are all rejected.
   */
  lemma {:induction false} ValidDomainShape(domain: string)
    requires IsValidDomain(domain)
    ensures |domain| > 0 && AlNum(domain[0]) && AlNum(domain[|domain| - 1])
    ensures forall i :: 0 <= i < |domain| - 1 ==> !(domain[i] == '.' && domain[i + 1] == '.')
    decreases |domain|
  {
    var s := domain;
    var k :| 0 < k <= |s| && MatchesLabel(s[..k]) && MatchesMoreLabels(s[k..]);
    assert s[..k][0] == s[0];
    if k < |s| {
      var r := s[k + 1..];
      assert s[k..][1..] == r;
      ValidDomainShape(r);
      assert s[|s| - 1] == r[|r| - 1];
      forall i | 0 <= i < |s| - 1 ensures !(s[i] == '.' && s[i + 1] == '.') {
        if i < k - 1 {
          assert s[i] == s[..k][i] && s[i + 1] == s[..k][i + 1];
        } else if i == k - 1 {
          assert s[i] == s[..k][k - 1];
        } else if i == k {
          assert s[i + 1] == r[0];
        } else {
          assert s[i] == r[i - k - 1] && s[i + 1] == r[i - k];
        }
      }
    } else {
      assert s[..k] == s;
    }
  }
}
