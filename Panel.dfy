/**
 * The popup (popup.js) as an object: the module state `currentCookies` and
 * `currentDomain`, the parts of the page its handlers change (the count, the
 * status line, the key list, the manual-copy box, the set-cookie form), and a
 * trace of the `chrome.cookies.remove` and `chrome.cookies.set` calls issued.
 * Each button handler is a method; the host's answers are its inputs.
 */
module Panel {
  import opened Text
  import opened Browser
  import opened Snapshot
  import opened PanelRules

  /** The message `showStatus` last displayed. */
  datatype Status =
    | NoStatus
    | FetchFailed
    | NoCookies
    | Copied(count: nat)
    | DetailsCopied(count: nat)
    | CopyFailed
    | KeyCopied(name: string)
    | KeyCopyFailed
    | Cleared(count: nat)
    | ClearFailed
    | NameMissing
    | ValueMissing
    | Saved(name: string)
    | SaveFailed

  /** The active tab's hostname, when there is a tab whose URL parses. */
  function TabHost(host: Host): Option<string> {
    if host.activeTab.None? then None
    else match ParseTabUrl(host, host.activeTab.value)
      case None => None
      case Some(u) => Some(u.hostname)
  }

  /** The active tab's URL, when there is a tab whose URL parses. */
  function TabUrl(host: Host): (u: Option<string>)
    ensures u.Some? <==> TabHost(host).Some?
    ensures u.Some? ==> host.activeTab.Some? && u == host.activeTab.value.url
  {
    if host.activeTab.None? || ParseTabUrl(host, host.activeTab.value).None? then None
    else host.activeTab.value.url
  }

  /** The snapshot `getCookies` builds: None when a step of it throws. */
  function Fetch(host: Host): Option<seq<Cookie>> {
    if TabHost(host).None? then None
    else
      var byDomain := host.getAll(ByDomain(TabHost(host).value));
      var byUrl := host.getAll(ByUrl(TabUrl(host).value));
      if byDomain.None? || byUrl.None? then None
      else Some(Merged(byDomain.value + byUrl.value))
  }

  /** What `getCookies` returns: the snapshot, or `[]` after a failure. */
  function Fetched(host: Host): seq<Cookie> {
    if Fetch(host).Some? then Fetch(host).value else []
  }

  /** The removal calls clear-all issues for a snapshot, one per cookie, in order. */
  function Removals(cs: seq<Cookie>): (r: seq<RemoveRequest>)
    ensures |r| == |cs|
    ensures forall i :: 0 <= i < |cs| ==> r[i] == RemoveRequest(RemovalUrl(cs[i]), cs[i].name)
  {
    seq(|cs|, i requires 0 <= i < |cs| => RemovalOf(cs[i]))
  }

  /** The index of the first removal whose promise rejects, or the number of removals. */
  function FirstRejected(host: Host, reqs: seq<RemoveRequest>): (k: nat)
    ensures k <= |reqs|
    ensures forall j :: 0 <= j < k ==> host.removeCookie(reqs[j])
    ensures k < |reqs| ==> !host.removeCookie(reqs[k])
  {
    if |reqs| == 0 || !host.removeCookie(reqs[0]) then 0
    else 1 + FirstRejected(host, reqs[1..])
  }

  class CookiePanel {
    var currentCookies: seq<Cookie>
    var currentDomain: string
    /** The number in the count display. */
    var shownCount: nat
    var status: Status
    /** Whether the key list is open, and the cookies it lists. */
    var listVisible: bool
    var listed: seq<Cookie>
    /** The text shown for manual copying after a failed copy. */
    var manualCopy: Option<string>
    var formVisible: bool
    var form: CookieForm
    /** The `chrome.cookies.remove` and `chrome.cookies.set` calls issued so far. */
    var removals: seq<RemoveRequest>
    var sets: seq<SetRequest>

    /** Every cookie sent with `sameSite = no_restriction` was sent secure. */
    predicate Valid()
      reads this`sets
    {
      forall i :: 0 <= i < |sets| ==> sets[i].sameSite == NoRestriction ==> sets[i].secure
    }

    /** The popup as its page loads, before the first `getCookies`. */
    constructor ()
      ensures Valid()
      ensures currentCookies == [] && currentDomain == "" && shownCount == 0 && status == NoStatus
      ensures !listVisible && listed == [] && manualCopy == None
      ensures !formVisible && form == BlankForm && removals == [] && sets == []
    {
      currentCookies, currentDomain, shownCount, status := [], "", 0, NoStatus;
      listVisible, listed, manualCopy := false, [], None;
      formVisible, form, removals, sets := false, BlankForm, [], [];
    }

    /**
     * What `getCookies` leaves behind: the tab's hostname once its URL
     * parsed, and the merged snapshot with its count once both queries
     * answered; the previous hostname, snapshot and count otherwise.
     */
    twostate predicate Refreshed(host: Host)
      reads this`currentCookies, this`currentDomain, this`shownCount
    {
      && currentDomain == (if TabHost(host).Some? then TabHost(host).value else old(currentDomain))
      && (Fetch(host).Some? ==> currentCookies == Fetched(host) && shownCount == |Fetched(host)|)
      && (Fetch(host).None? ==> currentCookies == old(currentCookies) && shownCount == old(shownCount))
    }

    /** The snapshot, the hostname, the count and the key list are as they were. */
    twostate predicate SnapshotKept()
      reads this`currentCookies, this`currentDomain, this`shownCount, this`listed
    {
      && currentCookies == old(currentCookies) && currentDomain == old(currentDomain)
      && shownCount == old(shownCount) && listed == old(listed)
    }

    /**
     * `getCookies`: resolve the active tab, show its hostname, merge the two
     * queries and show the count. A failure shows an error and returns `[]`,
     * leaving the previous snapshot in place.
     */
    method GetCookies(host: Host) returns (cookies: seq<Cookie>)
      modifies this`currentCookies, this`currentDomain, this`shownCount, this`status
      ensures cookies == Fetched(host) && Refreshed(host)
      ensures status == if Fetch(host).Some? then old(status) else FetchFailed
    {
      if host.activeTab.None? || host.activeTab.value.url.None? {
        status := FetchFailed;
        return [];
      }
      var tab := host.activeTab.value;
      var parsed := host.parseUrl(tab.url.value);
      if parsed.None? {
        status := FetchFailed;
        return [];
      }
      currentDomain := parsed.value.hostname;
      var byDomain := host.getAll(ByDomain(currentDomain));
      if byDomain.None? {
        status := FetchFailed;
        return [];
      }
      var byUrl := host.getAll(ByUrl(tab.url.value));
      if byUrl.None? {
        status := FetchFailed;
        return [];
      }
      cookies := MergeSnapshot(byDomain.value, byUrl.value);
      currentCookies := cookies;
      shownCount := |cookies|;
    }

    /**
     * The copy button: the snapshot in the simple format goes to the
     * clipboard; when the copy fails the text is shown for manual copying.
     * Returns the text handed to the clipboard.
     */
    method CopyAll(host: Host, clip: Clipboard) returns (text: Option<string>)
      modifies this`currentCookies, this`currentDomain, this`shownCount, this`status, this`manualCopy
      ensures Refreshed(host)
      ensures var s := Fetched(host);
        && (s == [] ==> text == None && status == NoCookies && manualCopy == old(manualCopy))
        && (s != [] ==> text == Some(FormatCookiesAsString(s)))
        && (s != [] && CopyToClipboard(clip) ==> status == Copied(|s|) && manualCopy == old(manualCopy))
        && (s != [] && !CopyToClipboard(clip) ==> status == CopyFailed && manualCopy == text)
    {
      var cookies := GetCookies(host);
      if |cookies| == 0 {
        status := NoCookies;
        return None;
      }
      var s := FormatCookiesAsString(cookies);
      text := Some(s);
      if CopyToClipboard(clip) {
        status := Copied(|cookies|);
      } else {
        status := CopyFailed;
        manualCopy := text;
      }
    }

    /** The detailed-copy button: as `CopyAll`, with the detailed format. */
    method CopyDetailed(host: Host, clip: Clipboard) returns (text: Option<string>)
      modifies this`currentCookies, this`currentDomain, this`shownCount, this`status, this`manualCopy
      ensures Refreshed(host)
      ensures var s := Fetched(host);
        && (s == [] ==> text == None && status == NoCookies && manualCopy == old(manualCopy))
        && (s != [] ==> text == Some(FormatCookiesDetailed(s, host.localeDate)))
        && (s != [] && CopyToClipboard(clip) ==> status == DetailsCopied(|s|) && manualCopy == old(manualCopy))
        && (s != [] && !CopyToClipboard(clip) ==> status == CopyFailed && manualCopy == text)
    {
      var cookies := GetCookies(host);
      if |cookies| == 0 {
        status := NoCookies;
        return None;
      }
      var s := FormatCookiesDetailed(cookies, host.localeDate);
      text := Some(s);
      if CopyToClipboard(clip) {
        status := DetailsCopied(|cookies|);
      } else {
        status := CopyFailed;
        manualCopy := text;
      }
    }

    /** The view button: opens the key list on the fresh snapshot, or closes it. */
    method ViewList(host: Host)
      modifies this`currentCookies, this`currentDomain, this`shownCount, this`status, this`listVisible, this`listed
      ensures Refreshed(host)
      ensures var s := Fetched(host);
        && (s == [] ==> status == NoCookies && listVisible == old(listVisible) && listed == old(listed))
        && (s != [] ==> status == old(status))
        && (s != [] && !old(listVisible) ==> listVisible && listed == s)
        && (s != [] && old(listVisible) ==> !listVisible && listed == old(listed))
    {
      var cookies := GetCookies(host);
      if |cookies| == 0 {
        status := NoCookies;
        return;
      }
      if !listVisible {
        listed := cookies;
        listVisible := true;
      } else {
        listVisible := false;
      }
    }

    /** A click on a listed key copies that one cookie as `name=value`. */
    method CopyKey(i: nat, clip: Clipboard) returns (text: string)
      requires i < |listed|
      modifies this`status
      ensures text == Pair(listed[i])
      ensures status == if CopyToClipboard(clip) then KeyCopied(listed[i].name) else KeyCopyFailed
    {
      text := Pair(listed[i]);
      if CopyToClipboard(clip) {
        status := KeyCopied(listed[i].name);
      } else {
        status := KeyCopyFailed;
      }
    }

    /**
     * The clear button: after confirmation, one `remove` call per snapshot
     * cookie, in order, by its rebuilt URL. When every call resolves, the
     * count shown is the number of calls made, the snapshot and the count
     * display are reset and the key list is closed; a rejected call stops the
     * loop and shows an error. Returns the snapshot it worked on.
     */
    method ClearAll(host: Host, confirmed: bool) returns (s: seq<Cookie>)
      modifies this`currentCookies, this`currentDomain, this`shownCount, this`status
      modifies this`removals, this`listVisible, this`listed
      ensures s == Fetched(host)
      ensures s == [] || !confirmed ==> Refreshed(host)
      ensures var reqs := Removals(s); var k := FirstRejected(host, reqs);
        && currentDomain == (if TabHost(host).Some? then TabHost(host).value else old(currentDomain))
        && (s == [] ==> status == NoCookies && removals == old(removals)
                        && listVisible == old(listVisible) && listed == old(listed))
        && (s != [] && !confirmed ==>
              removals == old(removals) && status == old(status) && currentCookies == s
                        && listVisible == old(listVisible) && listed == old(listed))
        && (s != [] && confirmed && k == |s| ==>
              && removals == old(removals) + reqs
              && status == Cleared(|s|) && currentCookies == [] && shownCount == 0
              && !listVisible && listed == (if old(listVisible) then [] else old(listed)))
        && (s != [] && confirmed && k < |s| ==>
              && removals == old(removals) + reqs[..k + 1]
              && status == ClearFailed && currentCookies == s && shownCount == |s|
              && listVisible == old(listVisible) && listed == old(listed))
    {
      s := GetCookies(host);
      if |s| == 0 {
        status := NoCookies;
      } else {
        ClearSnapshot(host, s, confirmed);
      }
    }

    /**
     * Clear-all once the snapshot is fetched: nothing without confirmation,
     * otherwise the removal loop and then the report of its outcome.
     */
    method ClearSnapshot(host: Host, cookies: seq<Cookie>, confirmed: bool)
      modifies this`currentCookies, this`shownCount, this`status
      modifies this`removals, this`listVisible, this`listed
      ensures var reqs := Removals(cookies); var k := FirstRejected(host, reqs);
        && (!confirmed ==>
              && removals == old(removals) && status == old(status)
              && currentCookies == old(currentCookies) && shownCount == old(shownCount)
              && listVisible == old(listVisible) && listed == old(listed))
        && (confirmed && k == |cookies| ==>
              && removals == old(removals) + reqs
              && status == Cleared(|cookies|) && currentCookies == [] && shownCount == 0
              && !listVisible && listed == (if old(listVisible) then [] else old(listed)))
        && (confirmed && k < |cookies| ==>
              && removals == old(removals) + reqs[..k + 1]
              && status == ClearFailed
              && currentCookies == old(currentCookies) && shownCount == old(shownCount)
              && listVisible == old(listVisible) && listed == old(listed))
    {
      if !confirmed {
        return;
      }
      ghost var reqs := Removals(cookies);
      var deletedCount, failed, issued := RemoveEach(host, cookies);
      removals := removals + issued;
      if failed {
        status := ClearFailed;
        return;
      }
      assert deletedCount == |cookies| && reqs[..deletedCount] == reqs;
      ResetAfterClear(deletedCount);
    }

    /** After a clear where every removal resolved: report, reset the snapshot, and empty and close an open list. */
    method ResetAfterClear(deletedCount: nat)
      modifies this`currentCookies, this`shownCount, this`status, this`listVisible, this`listed
      ensures status == Cleared(deletedCount) && currentCookies == [] && shownCount == 0
      ensures !listVisible && listed == (if old(listVisible) then [] else old(listed))
    {
      status := Cleared(deletedCount);
      shownCount := 0;
      currentCookies := [];
      if listVisible {
        listed := [];
        listVisible := false;
      }
    }

    /** The set-cookie button shows the form, or hides and clears it. */
    method ToggleForm()
      modifies this`formVisible, this`form
      ensures formVisible == !old(formVisible)
      ensures form == if old(formVisible) then BlankForm else old(form)
    {
      if !formVisible {
        formVisible := true;
      } else {
        formVisible := false;
        form := BlankForm;
      }
    }

    /** The cancel button hides and clears the form. */
    method CancelForm()
      modifies this`formVisible, this`form
      ensures !formVisible && form == BlankForm
    {
      formVisible := false;
      form := BlankForm;
    }

    /** The user types into the form. */
    method EditForm(f: CookieForm)
      modifies this`form
      ensures form == f
    {
      form := f;
    }

    /**
     * The save button: the trimmed name and then the trimmed value must be
     * non-empty; otherwise the form's values, with their defaults and the
     * SameSite=None rule, are sent to `chrome.cookies.set` for the active
     * tab's URL. On success the form is cleared and hidden and the snapshot
     * is fetched again, refreshing an open key list.
     */
    method SaveCookie(host: Host, nowMs: int) returns (request: Option<SetRequest>)
      requires Valid()
      modifies this`currentCookies, this`currentDomain, this`shownCount, this`status
      modifies this`sets, this`form, this`formVisible, this`listed
      ensures Valid()
      ensures request == if CheckForm(old(form)) == None && TabUrl(host).Some?
        then Some(SetRequestOf(old(form), TabUrl(host).value, nowMs)) else None
      ensures request.None? ==>
        && status == (if CheckForm(old(form)) == Some(NameRequired) then NameMissing
                      else if CheckForm(old(form)) == Some(ValueRequired) then ValueMissing
                      else SaveFailed)
        && sets == old(sets) && form == old(form) && formVisible == old(formVisible) && SnapshotKept()
      ensures request.Some? ==> sets == old(sets) + [request.value]
      ensures request.Some? && !host.setCookie(request.value) ==>
        status == SaveFailed && form == old(form) && formVisible == old(formVisible) && SnapshotKept()
      ensures request.Some? && host.setCookie(request.value) ==>
        && form == BlankForm && !formVisible
        && status == (if Fetch(host).Some? then Saved(Trim(old(form).name)) else FetchFailed)
        && Refreshed(host)
        && listed == (if listVisible then currentCookies else old(listed))
    {
      var check := CheckForm(form);
      var url := TabUrl(host);
      if check == None && url.Some? {
        request := Some(SetRequestOf(form, url.value, nowMs));
        Submit(host, request.value, Trim(form.name));
      } else {
        request := None;
        status := if check == Some(NameRequired) then NameMissing
          else if check == Some(ValueRequired) then ValueMissing
          else SaveFailed;
      }
    }

    /** The `chrome.cookies.set` call for a checked form, recorded in the call trace, and what follows it. */
    method Submit(host: Host, request: SetRequest, name: string)
      requires Valid() && (request.sameSite == NoRestriction ==> request.secure)
      modifies this`currentCookies, this`currentDomain, this`shownCount, this`status
      modifies this`sets, this`form, this`formVisible, this`listed
      ensures Valid()
      ensures sets == old(sets) + [request]
      ensures !host.setCookie(request) ==>
        status == SaveFailed && form == old(form) && formVisible == old(formVisible) && SnapshotKept()
      ensures host.setCookie(request) ==>
        && form == BlankForm && !formVisible
        && status == (if Fetch(host).Some? then Saved(name) else FetchFailed)
        && Refreshed(host)
        && listed == (if listVisible then currentCookies else old(listed))
    {
      ghost var before := sets;
      sets := sets + [request];
      forall i | 0 <= i < |sets| ensures sets[i].sameSite == NoRestriction ==> sets[i].secure {
        if i < |before| {
          assert sets[i] == before[i];
        }
      }
      if !host.setCookie(request) {
        status := SaveFailed;
        return;
      }
      FinishSave(host, name);
    }

    /** After a successful `set`: report it, clear and hide the form, refresh the snapshot and an open list. */
    method FinishSave(host: Host, name: string)
      modifies this`currentCookies, this`currentDomain, this`shownCount, this`status
      modifies this`form, this`formVisible, this`listed
      ensures form == BlankForm && !formVisible
      ensures status == if Fetch(host).Some? then Saved(name) else FetchFailed
      ensures Refreshed(host)
      ensures listed == if listVisible then currentCookies else old(listed)
    {
      status := Saved(name);
      form := BlankForm;
      formVisible := false;
      var _ := GetCookies(host);
      if listVisible {
        listed := currentCookies;
      }
    }
  }

  /**
   * The removal loop of clear-all: one awaited `remove` per cookie, in
   * order; the first rejected call ends it. Returns the calls it issued.
   */
  method RemoveEach(host: Host, cookies: seq<Cookie>) returns (deletedCount: nat, failed: bool, issued: seq<RemoveRequest>)
    ensures deletedCount == FirstRejected(host, Removals(cookies))
    ensures failed <==> deletedCount < |cookies|
    ensures issued == Removals(cookies)[..if failed then deletedCount + 1 else deletedCount]
  {
    ghost var reqs := Removals(cookies);
    deletedCount, failed, issued := 0, false, [];
    while deletedCount < |cookies| && !failed
      invariant deletedCount <= |cookies|
      invariant !failed ==> issued == reqs[..deletedCount]
      invariant failed ==> deletedCount < |cookies| && issued == reqs[..deletedCount + 1]
      invariant failed ==> !host.removeCookie(reqs[deletedCount])
      invariant forall j :: 0 <= j < deletedCount ==> host.removeCookie(reqs[j])
      decreases |cookies| - deletedCount, if failed then 0 else 1
    {
      var request := RemovalOf(cookies[deletedCount]);
      issued := issued + [request];
      assert reqs[..deletedCount + 1] == reqs[..deletedCount] + [request];
      if host.removeCookie(request) {
        deletedCount := deletedCount + 1;
      } else {
        failed := true;
      }
    }
    if !failed {
      assert reqs[..deletedCount] == reqs;
    }
    FirstRejectedAt(host, reqs, deletedCount);
  }

  /** After `k` accepted removals, `FirstRejected` is `k` exactly when the next is rejected or none is left. */
  lemma {:induction false} FirstRejectedAt(host: Host, reqs: seq<RemoveRequest>, k: nat)
    requires k <= |reqs|
    requires forall j :: 0 <= j < k ==> host.removeCookie(reqs[j])
    requires k < |reqs| ==> !host.removeCookie(reqs[k])
    ensures FirstRejected(host, reqs) == k
  {
    if k > 0 {
      FirstRejectedAt(host, reqs[1..], k - 1);
    }
  }

  /** Clear-all on a snapshot of `n` cookies whose removals all resolve reports `n` removals. */
  lemma ClearCountsCalls(host: Host)
    requires forall r :: r in Removals(Fetched(host)) ==> host.removeCookie(r)
    ensures FirstRejected(host, Removals(Fetched(host))) == |Fetched(host)|
  {
    var reqs := Removals(Fetched(host));
    forall j | 0 <= j < |reqs| ensures host.removeCookie(reqs[j]) {
      assert reqs[j] in reqs;
    }
    FirstRejectedAt(host, reqs, |reqs|);
  }
}
