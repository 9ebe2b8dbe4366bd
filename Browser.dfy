/**
 * The browser host as the extension sees it: cookie and tab records, and the
 * privileged services (active-tab query, URL parsing, the cookie store) as
 * abstract inputs. Nothing here is computed by the extension itself.
 */
module Browser {

  datatype Option<T> = None | Some(value: T)

  /** JavaScript truthiness of an optional string field: present and non-empty. */
  predicate Truthy(s: Option<string>) {
    s.Some? && s.value != ""
  }

  /**
   * A cookie as `chrome.cookies.getAll` reports it. `expirationDate` is absent
   * for a session cookie; `sameSite` is the store's string tag
   * (`no_restriction`, `lax`, `strict`, `unspecified`).
   */
  datatype Cookie = Cookie(
    name: string,
    value: string,
    domain: string,
    path: string,
    secure: bool,
    httpOnly: bool,
    sameSite: string,
    expirationDate: Option<int>)

  /** The active tab as `chrome.tabs.query` reports it; `url` and `title` may be missing. */
  datatype Tab = Tab(id: int, url: Option<string>, title: Option<string>)

  /** The parts of a `URL` object the extension reads. */
  datatype UrlParts = UrlParts(hostname: string, protocol: string)

  /** The filter passed to `chrome.cookies.getAll`. */
  datatype Filter = ByDomain(domain: string) | ByUrl(url: string)

  /** The argument of `chrome.cookies.remove`. */
  datatype RemoveRequest = RemoveRequest(url: string, name: string)

  /** The argument of `chrome.cookies.set`. */
  datatype SetRequest = SetRequest(
    url: string,
    name: string,
    value: string,
    path: string,
    secure: bool,
    httpOnly: bool,
    sameSite: string,
    expirationDate: int)

  /** How `document.execCommand('copy')` ends: true, false, or an exception with its message. */
  datatype CopyCommand = CommandSucceeded | CommandRefused | Throws(message: string)

  /**
   * The clipboard's behaviour for one copy: whether `navigator.clipboard.writeText`
   * resolves, and how the textarea fallback's copy command ends if it is needed.
   */
  datatype Clipboard = Clipboard(writeText: bool, fallback: CopyCommand)

  /**
   * What the host answers. `activeTab` is the first tab of the active-tab
   * query (None when it returns no tab); `parseUrl` is the `URL` constructor
   * (None when it throws); `getAll`, `removeCookie` and `setCookie` give the outcome of the
   * store's calls (None or false when the returned promise rejects);
   * `localeDate` is `new Date(ms).toLocaleString()`.
   */
  datatype Host = Host(
    activeTab: Option<Tab>,
    parseUrl: string -> Option<UrlParts>,
    getAll: Filter -> Option<seq<Cookie>>,
    removeCookie: RemoveRequest -> bool,
    setCookie: SetRequest -> bool,
    localeDate: int -> string)

  /** `new URL(tab.url)`: fails when there is no url to parse. */
  function ParseTabUrl(host: Host, tab: Tab): Option<UrlParts> {
    if tab.url.Some? then host.parseUrl(tab.url.value) else None
  }
}
